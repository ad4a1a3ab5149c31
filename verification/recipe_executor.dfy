/** The saga executor of internal/automation/recipe_dag.go: it walks first
    successors with bounded retries and unwinds destructive steps on failure. */
module RecipeExecutor {
  import opened RecipeLint

  /** What one handler call does to the outside world; the world may hold anything the
      handler looks at, so a handler can fail now and succeed later. */
  datatype Attempt<W> = Done(world: W) | Failed(world: W, err: string)

  type Handler<!W> = (W, Step) -> Attempt<W>

  type Handlers<!W> = map<string, Handler<W>>

  datatype Call = Forward(step: Step) | Undo(step: Step)

  datatype Outcome =
    | Invalid(first: Finding)
    | Completed
    | StepFailed(stepId: string, err: string)

  /** Looking up a missing id yields the zero step. */
  function StepAt(dag: Dag, id: string): Step {
    if id in dag.steps then dag.steps[id] else Step("", "", "", "", 0, "", [])
  }

  // ---------- one step ----------

  /** A capability without a handler succeeds and touches nothing. */
  function Handle<W>(handlers: Handlers<W>, step: Step, w: W): Attempt<W> {
    if step.capability in handlers then handlers[step.capability](w, step) else Done(w)
  }

  /** The outcome of at most `attempts` tries. */
  ghost function Tries<W>(handlers: Handlers<W>, step: Step, attempts: int, w: W): Attempt<W>
    decreases attempts
  {
    if attempts <= 0 then Done(w)
    else
      var r := Handle(handlers, step, w);
      if r.Done? || attempts == 1 then r else Tries(handlers, step, attempts - 1, r.world)
  }

  /** The handler calls those tries make. */
  ghost function TryCalls<W>(handlers: Handlers<W>, step: Step, attempts: int, w: W): seq<Call>
    decreases attempts
  {
    if attempts <= 0 then []
    else
      var r := Handle(handlers, step, w);
      if r.Done? || attempts == 1 then [Forward(step)]
      else [Forward(step)] + TryCalls(handlers, step, attempts - 1, r.world)
  }

  ghost function Retry<W>(handlers: Handlers<W>, step: Step, w: W): Attempt<W> {
    Tries(handlers, step, step.retryLimit + 1, w)
  }

  /** A step is tried until it succeeds, and a failing one exactly as often as allowed. */
  lemma {:induction false} TryCallsBounded<W>(handlers: Handlers<W>, step: Step, attempts: int, w: W)
    requires attempts >= 1
    ensures var calls := TryCalls(handlers, step, attempts, w);
            && 1 <= |calls| <= attempts
            && (Tries(handlers, step, attempts, w).Failed? ==> |calls| == attempts)
            && forall c | c in calls :: c == Forward(step)
    decreases attempts
  {
    var r := Handle(handlers, step, w);
    if !r.Done? && attempts != 1 {
      TryCallsBounded(handlers, step, attempts - 1, r.world);
    }
  }

  /** The handler fails on `w` and leaves `w'`. */
  ghost predicate FailsInto<W>(handlers: Handlers<W>, step: Step, w: W, w': W) {
    Handle(handlers, step, w).Failed? && w' == Handle(handlers, step, w).world
  }

  /** Each world is the one the failing attempt before it left. */
  ghost predicate LeftByFailures<W>(handlers: Handlers<W>, step: Step, worlds: seq<W>) {
    forall i, j | 0 <= i && j == i + 1 && j < |worlds| :: FailsInto(handlers, step, worlds[i], worlds[j])
  }

  lemma OneMoreFailure<W>(handlers: Handlers<W>, step: Step, w: W, rest: seq<W>)
    requires rest != [] && LeftByFailures(handlers, step, rest) && FailsInto(handlers, step, w, rest[0])
    ensures LeftByFailures(handlers, step, [w] + rest)
  {
    hide FailsInto;
    var worlds := [w] + rest;
    forall i, j | 0 <= i && j == i + 1 && j < |worlds| ensures FailsInto(handlers, step, worlds[i], worlds[j]) {
      if i > 0 {
        assert FailsInto(handlers, step, rest[i - 1], rest[j - 1]);
      }
    }
  }

  /** What the attempts do, told by single handler calls: each starts in the world the one
      before it left, all but the last fail, and the last succeeds or uses up the limit. */
  lemma {:induction false} AttemptsInTurn<W>(handlers: Handlers<W>, step: Step, attempts: int, w: W)
    returns (worlds: seq<W>)
    requires attempts >= 1
    ensures 1 <= |worlds| <= attempts && worlds[0] == w && LeftByFailures(handlers, step, worlds)
    ensures Handle(handlers, step, worlds[|worlds| - 1]).Done? || |worlds| == attempts
    ensures Tries(handlers, step, attempts, w) == Handle(handlers, step, worlds[|worlds| - 1])
    ensures TryCalls(handlers, step, attempts, w) == seq(|worlds|, _ => Forward(step))
    decreases attempts
  {
    var r := Handle(handlers, step, w);
    hide Handle;
    if r.Done? || attempts == 1 {
      worlds := [w];
    } else {
      var rest := AttemptsInTurn(handlers, step, attempts - 1, r.world);
      OneMoreFailure(handlers, step, w, rest);
      worlds := [w] + rest;
      assert [Forward(step)] + seq(|rest|, _ => Forward(step)) == seq(|worlds|, _ => Forward(step));
    }
  }

  // ---------- the forward walk ----------

  /** The successor the executor takes. */
  ghost predicate Follows(dag: Dag, id: string, next: string) {
    id in dag.steps && dag.steps[id].next != [] && dag.steps[id].next[0] == next
  }

  /** `ids` starts at the start step and follows first successors. */
  ghost predicate FirstPath(dag: Dag, ids: seq<string>) {
    && ids != [] && ids[|ids| - 1] != "" && ids[|ids| - 1] in dag.steps
    && if |ids| == 1 then ids[0] == dag.start
       else FirstPath(dag, ids[..|ids| - 1]) && Follows(dag, ids[|ids| - 2], ids[|ids| - 1])
  }

  /** The executor stops after a step with no first successor, or an empty one. */
  ghost predicate Terminal(dag: Dag, id: string) {
    StepAt(dag, id).next == [] || StepAt(dag, id).next[0] == ""
  }

  ghost function StepsOf(dag: Dag, ids: seq<string>): seq<Step> {
    if ids == [] then [] else StepsOf(dag, ids[..|ids| - 1]) + [StepAt(dag, ids[|ids| - 1])]
  }

  /** The world after `steps` were run one after the other. */
  ghost function WorldAfter<W>(handlers: Handlers<W>, steps: seq<Step>, w: W): W {
    if steps == [] then w
    else Retry(handlers, steps[|steps| - 1], WorldAfter(handlers, steps[..|steps| - 1], w)).world
  }

  ghost predicate AllSucceed<W>(handlers: Handlers<W>, steps: seq<Step>, w: W) {
    steps != [] ==>
      && AllSucceed(handlers, steps[..|steps| - 1], w)
      && Retry(handlers, steps[|steps| - 1], WorldAfter(handlers, steps[..|steps| - 1], w)).Done?
  }

  ghost function ForwardCalls<W>(handlers: Handlers<W>, steps: seq<Step>, w: W): seq<Call> {
    if steps == [] then []
    else
      var init, last := steps[..|steps| - 1], steps[|steps| - 1];
      ForwardCalls(handlers, init, w) +
      TryCalls(handlers, last, last.retryLimit + 1, WorldAfter(handlers, init, w))
  }

  lemma {:induction false} ForwardCallsBounded<W>(handlers: Handlers<W>, steps: seq<Step>, w: W)
    requires forall s | s in steps :: 0 <= s.retryLimit <= 10
    ensures |ForwardCalls(handlers, steps, w)| <= 11 * |steps|
  {
    if steps != [] {
      var init, last := steps[..|steps| - 1], steps[|steps| - 1];
      ForwardCallsBounded(handlers, init, w);
      TryCallsBounded(handlers, last, last.retryLimit + 1, WorldAfter(handlers, init, w));
    }
  }

  // ---------- the unwinding ----------

  predicate Compensable<W>(comps: Handlers<W>, step: Step) {
    step.sideEffects == DESTRUCTIVE && step.compensation != "" && step.compensation in comps
  }

  /** The compensation calls for `done`, last step first. */
  ghost function UndoCalls<W>(comps: Handlers<W>, done: seq<Step>): seq<Call> {
    if done == [] then []
    else
      var last := done[|done| - 1];
      (if Compensable(comps, last) then [Undo(last)] else []) + UndoCalls(comps, done[..|done| - 1])
  }

  ghost function Unwound<W>(comps: Handlers<W>, done: seq<Step>, w: W): W {
    if done == [] then w
    else
      var last := done[|done| - 1];
      var w' := if Compensable(comps, last) then comps[last.compensation](w, last).world else w;
      Unwound(comps, done[..|done| - 1], w')
  }

  /** One turn of the unwinding loop. */
  lemma UndoNext<W>(comps: Handlers<W>, done: seq<Step>, i: nat, w: W)
    requires i < |done|
    ensures Unwound(comps, done[..i + 1], w) ==
            Unwound(comps, done[..i],
                    if Compensable(comps, done[i]) then comps[done[i].compensation](w, done[i]).world else w)
    ensures UndoCalls(comps, done[..i + 1]) ==
            (if Compensable(comps, done[i]) then [Undo(done[i])] else []) + UndoCalls(comps, done[..i])
  {
    assert done[..i + 1][..i] == done[..i];
  }

  // ---------- distinctness, from the absence of cycles ----------

  lemma {:induction false} FirstPathIsWalk(dag: Dag, ids: seq<string>)
    requires FirstPath(dag, ids)
    ensures Walk(dag, ids) && forall id | id in ids :: id in dag.steps
    ensures ids[0] == dag.start
  {
    if |ids| > 1 {
      FirstPathIsWalk(dag, ids[..|ids| - 1]);
    }
  }

  /** What the search established is what keeps the executor from coming back. */
  lemma AcyclicWalkIsDistinct(dag: Dag, p: seq<string>)
    requires Walk(dag, p) && !Cyclic(dag)
    ensures Distinct(p)
  {
    forall i, j | 0 <= i < j < |p| ensures p[i] != p[j] {
      if p[i] == p[j] {
        assert ClosedWalk(dag, p[i..j + 1]);
      }
    }
  }

  lemma {:induction false} DistinctFits<T>(s: seq<T>, universe: set<T>)
    requires Distinct(s) && forall x | x in s :: x in universe
    ensures |s| <= |universe|
  {
    if s != [] {
      var last := s[|s| - 1];
      var init := s[..|s| - 1];
      assert last !in init;
      DistinctFits(init, universe - {last});
    }
  }

  lemma {:induction false} StepsOfLimits(dag: Dag, ids: seq<string>)
    requires Clean(dag)
    ensures |StepsOf(dag, ids)| == |ids|
    ensures forall s | s in StepsOf(dag, ids) ::
              0 <= s.retryLimit <= 10 && (s.sideEffects == DESTRUCTIVE ==> s.compensation != "")
  {
    if ids != [] {
      StepsOfLimits(dag, ids[..|ids| - 1]);
      assert ids[|ids| - 1] in dag.steps ==> StepClean(dag, ids[|ids| - 1]);
    }
  }

  /** On a clean recipe a first path never repeats a step. */
  lemma FirstPathIsDistinct(dag: Dag, ids: seq<string>)
    requires Clean(dag) && FirstPath(dag, ids)
    ensures Distinct(ids) && |ids| <= |dag.steps|
  {
    FirstPathIsWalk(dag, ids);
    AcyclicWalkIsDistinct(dag, ids);
    DistinctFits(ids, dag.steps.Keys);
    assert |dag.steps.Keys| == |dag.steps|;
  }

  /** So it is at most as long as the recipe has steps and costs at most eleven handler calls
      for each of them. */
  lemma FirstPathFits<W>(handlers: Handlers<W>, dag: Dag, ids: seq<string>, w: W)
    requires Clean(dag) && FirstPath(dag, ids)
    ensures Distinct(ids) && |ids| <= |dag.steps|
    ensures |ForwardCalls(handlers, StepsOf(dag, ids), w)| <= 11 * |dag.steps|
  {
    FirstPathIsDistinct(dag, ids);
    StepsOfLimits(dag, ids);
    ForwardCallsBounded(handlers, StepsOf(dag, ids), w);
  }

  // ---------- the executor ----------

  /** How a run that passed the linter ended, for the ids it visited. */
  ghost predicate RunOf<W>(
    handlers: Handlers<W>, comps: Handlers<W>, dag: Dag, w: W,
    ids: seq<string>, world: W, outcome: Outcome, calls: seq<Call>)
    requires ids != []
  {
    var lastId := ids[|ids| - 1];
    var done, last := StepsOf(dag, ids[..|ids| - 1]), StepAt(dag, lastId);
    var r := Retry(handlers, last, WorldAfter(handlers, done, w));
    var forward := ForwardCalls(handlers, StepsOf(dag, ids), w);
    && AllSucceed(handlers, done, w)
    && if r.Done? then
         && outcome == Completed && Terminal(dag, lastId)
         && world == r.world && calls == forward
       else
         && outcome == StepFailed(last.id, r.err)
         && world == Unwound(comps, done, r.world)
         && calls == forward + UndoCalls(comps, done)
  }

  /** The executor's loop invariant: everything run so far succeeded. */
  ghost predicate SoFar<W>(
    handlers: Handlers<W>, dag: Dag, w: W, ids: seq<string>, executed: seq<Step>, world: W, calls: seq<Call>)
  {
    && executed == StepsOf(dag, ids)
    && AllSucceed(handlers, executed, w)
    && world == WorldAfter(handlers, executed, w)
    && calls == ForwardCalls(handlers, executed, w)
  }

  lemma StepCompletes<W>(
    handlers: Handlers<W>, comps: Handlers<W>, dag: Dag, w: W,
    ids: seq<string>, executed: seq<Step>, world: W, calls: seq<Call>, id: string, r: Attempt<W>, forward: seq<Call>)
    requires SoFar(handlers, dag, w, ids, executed, world, calls)
    requires r == Retry(handlers, StepAt(dag, id), world) && r.Done?
    requires forward == TryCalls(handlers, StepAt(dag, id), StepAt(dag, id).retryLimit + 1, world)
    ensures SoFar(handlers, dag, w, ids + [id], executed + [StepAt(dag, id)], r.world, calls + forward)
    ensures StepAt(dag, id).next == [] || StepAt(dag, id).next[0] == "" ==>
              RunOf(handlers, comps, dag, w, ids + [id], r.world, Completed, calls + forward)
  {
    assert (ids + [id])[..|ids|] == ids;
    assert (executed + [StepAt(dag, id)])[..|executed|] == executed;
  }

  lemma StepGivesUp<W>(
    handlers: Handlers<W>, comps: Handlers<W>, dag: Dag, w: W,
    ids: seq<string>, executed: seq<Step>, world: W, calls: seq<Call>, id: string, r: Attempt<W>, forward: seq<Call>)
    requires SoFar(handlers, dag, w, ids, executed, world, calls)
    requires r == Retry(handlers, StepAt(dag, id), world) && r.Failed?
    requires forward == TryCalls(handlers, StepAt(dag, id), StepAt(dag, id).retryLimit + 1, world)
    ensures RunOf(handlers, comps, dag, w, ids + [id], Unwound(comps, executed, r.world),
                  StepFailed(StepAt(dag, id).id, r.err), calls + forward + UndoCalls(comps, executed))
  {
    assert (ids + [id])[..|ids|] == ids;
    assert (executed + [StepAt(dag, id)])[..|executed|] == executed;
  }

  lemma FirstPathExtends(dag: Dag, ids: seq<string>, next: string)
    requires Clean(dag) && ids != [] && FirstPath(dag, ids)
    requires var s := StepAt(dag, ids[|ids| - 1]); s.next != [] && s.next[0] == next
    ensures next != "" ==> FirstPath(dag, ids + [next])
  {
    assert StepClean(dag, ids[|ids| - 1]);
    assert (ids + [next])[..|ids|] == ids;
  }

  /** Before the first step. */
  lemma WalkStart<W>(handlers: Handlers<W>, dag: Dag, w: W)
    requires Clean(dag)
    ensures dag.start != "" && FirstPath(dag, [dag.start]) && SoFar(handlers, dag, w, [], [], w, [])
  {
  }

  class Executor<W> {
    var handlers: Handlers<W>
    var compensations: Handlers<W>

    constructor ()
      ensures handlers == map[] && compensations == map[]
    {
      handlers := map[];
      compensations := map[];
    }

    method RunStep(step: Step, w: W) returns (r: Attempt<W>, ghost calls: seq<Call>)
      ensures r == Retry(handlers, step, w)
      ensures calls == TryCalls(handlers, step, step.retryLimit + 1, w)
    {
      var attempts := step.retryLimit + 1;
      r := Done(w);
      calls := [];
      var a := 0;
      while a < attempts
        invariant 0 <= a
        invariant a == 0 ==> r == Done(w) && calls == []
        invariant a > 0 ==> r.Failed?
        invariant a >= attempts ==> r == Retry(handlers, step, w) && calls == TryCalls(handlers, step, attempts, w)
        invariant a < attempts ==>
                    && Retry(handlers, step, w) == Tries(handlers, step, attempts - a, r.world)
                    && TryCalls(handlers, step, attempts, w) == calls + TryCalls(handlers, step, attempts - a, r.world)
      {
        r := Handle(handlers, step, r.world);
        calls := calls + [Forward(step)];
        if r.Done? {
          break;
        }
        a := a + 1;
      }
    }

    method Compensate(done: seq<Step>, w: W) returns (world: W, ghost calls: seq<Call>)
      ensures world == Unwound(compensations, done, w)
      ensures calls == UndoCalls(compensations, done)
    {
      world := w;
      calls := [];
      var i := |done|;
      assert done[..i] == done && done[..0] == [];
      while i > 0
        invariant 0 <= i <= |done|
        invariant Unwound(compensations, done[..i], world) == Unwound(compensations, done, w)
        invariant calls + UndoCalls(compensations, done[..i]) == UndoCalls(compensations, done)
      {
        hide Unwound, UndoCalls;
        i := i - 1;
        var prev := done[i];
        UndoNext(compensations, done, i, world);
        if Compensable(compensations, prev) {
          world := compensations[prev.compensation](world, prev).world;
          calls := calls + [Undo(prev)];
        }
      }
    }

    /** Walks first successors until a terminal step or a failure. */
    method WalkSteps(dag: Dag, w: W)
      returns (world: W, outcome: Outcome, ghost ids: seq<string>, ghost calls: seq<Call>)
      requires Clean(dag)
      ensures FirstPath(dag, ids) && RunOf(handlers, compensations, dag, w, ids, world, outcome, calls)
    {
      world := w;
      ids := [];
      calls := [];
      var executed: seq<Step> := [];
      var currId := dag.start;
      WalkStart(handlers, dag, w);
      hide *;
      assert ids + [currId] == [dag.start];
      while currId != ""
        invariant currId != "" ==> FirstPath(dag, ids + [currId])
        invariant currId == "" ==>
                    FirstPath(dag, ids) && RunOf(handlers, compensations, dag, w, ids, world, Completed, calls)
        invariant |ids| <= |dag.steps|
        invariant SoFar(handlers, dag, w, ids, executed, world, calls)
        decreases |dag.steps| - |ids|
      {
        var step := StepAt(dag, currId);
        var r, forward := RunStep(step, world);
        FirstPathIsDistinct(dag, ids + [currId]);
        if r.Failed? {
          StepGivesUp(handlers, compensations, dag, w, ids, executed, world, calls, currId, r, forward);
          ghost var undo;
          world, undo := Compensate(executed, r.world);
          ids, calls := ids + [currId], calls + forward + undo;
          outcome := StepFailed(step.id, r.err);
          return;
        }
        StepCompletes(handlers, compensations, dag, w, ids, executed, world, calls, currId, r, forward);
        ids, calls := ids + [currId], calls + forward;
        world := r.world;
        executed := executed + [step];
        if |step.next| > 0 {
          FirstPathExtends(dag, ids, step.next[0]);
          currId := step.next[0];
        } else {
          currId := "";
        }
      }
      outcome := Completed;
    }

    /** Runs the recipe. Termination rests on what the linter's search established. */
    method Execute(dag: Dag, w: W) returns (world: W, outcome: Outcome, ghost ids: seq<string>, ghost calls: seq<Call>)
      ensures outcome.Invalid? <==> !Clean(dag)
      ensures outcome.Invalid? ==> world == w && calls == []
      ensures !outcome.Invalid? ==>
                && FirstPath(dag, ids) && Distinct(ids)
                && |ForwardCalls(handlers, StepsOf(dag, ids), w)| <= 11 * |dag.steps|
                && RunOf(handlers, compensations, dag, w, ids, world, outcome, calls)
    {
      var findings, _ := LintRecipeDag(dag);
      if |findings| > 0 {
        world, outcome, ids, calls := w, Invalid(findings[0]), [], [];
      } else {
        world, outcome, ids, calls := WalkSteps(dag, w);
        FirstPathFits(handlers, dag, ids, w);
      }
    }
  }

  // ---------- what a failed run leaves behind ----------

  /** A destructive step whose compensation has a handler. */
  ghost predicate Registered<W>(comps: Handlers<W>, step: Step) {
    step.sideEffects == DESTRUCTIVE && step.compensation in comps
  }

  ghost function RegisteredSteps<W>(comps: Handlers<W>, steps: seq<Step>): seq<Step> {
    if steps == [] then []
    else (if Registered(comps, steps[0]) then [steps[0]] else []) + RegisteredSteps(comps, steps[1..])
  }

  ghost function Reversed<T>(s: seq<T>): seq<T> {
    seq(|s|, i requires 0 <= i < |s| => s[|s| - 1 - i])
  }

  ghost function Undos(steps: seq<Step>): seq<Call> {
    seq(|steps|, i requires 0 <= i < |steps| => Undo(steps[i]))
  }

  lemma RegisteredLast<W>(comps: Handlers<W>, done: seq<Step>)
    requires done != []
    ensures var rest := Undos(RegisteredSteps(comps, Reversed(done[..|done| - 1])));
            Undos(RegisteredSteps(comps, Reversed(done))) ==
            if Registered(comps, done[|done| - 1]) then [Undo(done[|done| - 1])] + rest else rest
  {
    assert Reversed(done)[1..] == Reversed(done[..|done| - 1]);
    hide Registered;
  }

  lemma UndoCallsLast<W>(comps: Handlers<W>, done: seq<Step>)
    requires done != []
    requires done[|done| - 1].sideEffects == DESTRUCTIVE ==> done[|done| - 1].compensation != ""
    ensures var rest := UndoCalls(comps, done[..|done| - 1]);
            UndoCalls(comps, done) ==
            if Registered(comps, done[|done| - 1]) then [Undo(done[|done| - 1])] + rest else rest
  {
  }

  /** The compensation calls are the completed destructive steps with a registered handler,
      each once, in reverse: on a clean recipe the executor's extra test for an empty
      compensation name never drops one. */
  lemma {:induction false} UndoCallsAreReverse<W>(comps: Handlers<W>, done: seq<Step>)
    requires forall s | s in done :: s.sideEffects == DESTRUCTIVE ==> s.compensation != ""
    ensures UndoCalls(comps, done) == Undos(RegisteredSteps(comps, Reversed(done)))
  {
    if done != [] {
      hide *;
      UndoCallsAreReverse(comps, done[..|done| - 1]);
      UndoCallsLast(comps, done);
      RegisteredLast(comps, done);
    }
  }

  /** Seen through `view`, attempts that fail change nothing, and neither do steps that nothing
      compensates. What `view` leaves out, an attempt may change: it can fail now and succeed
      on a retry. */
  ghost predicate OthersInert<W(!new), V>(
    view: W -> V, handlers: Handlers<W>, comps: Handlers<W>, steps: seq<Step>)
  {
    && (forall s, w | s in steps && Handle(handlers, s, w).Failed? :: view(Handle(handlers, s, w).world) == view(w))
    && (forall s, w | s in steps && !Registered(comps, s) :: view(Handle(handlers, s, w).world) == view(w))
  }

  /** Run on what looks like the world its step left, a compensation restores what the step saw. */
  ghost predicate CompensationsUndo<W(!new), V>(
    view: W -> V, handlers: Handlers<W>, comps: Handlers<W>, steps: seq<Step>)
  {
    forall s, w, w' | s in steps && Registered(comps, s) && Handle(handlers, s, w).Done? &&
                      view(w') == view(Handle(handlers, s, w).world) ::
      view(comps[s.compensation](w', s).world) == view(w)
  }

  /** The outcome of several attempts is that of one of them, on a world with the same view. */
  lemma {:induction false} TriesAreOneAttempt<W(!new), V>(
    view: W -> V, handlers: Handlers<W>, comps: Handlers<W>, steps: seq<Step>, s: Step, attempts: int, w: W)
    returns (w0: W)
    requires OthersInert(view, handlers, comps, steps) && s in steps && attempts >= 1
    ensures Tries(handlers, s, attempts, w) == Handle(handlers, s, w0) && view(w0) == view(w)
    decreases attempts
  {
    var r := Handle(handlers, s, w);
    w0 := w;
    if !r.Done? && attempts != 1 {
      w0 := TriesAreOneAttempt(view, handlers, comps, steps, s, attempts - 1, r.world);
    }
  }

  lemma UnwoundSnoc<W>(comps: Handlers<W>, init: seq<Step>, last: Step, w: W)
    requires last.sideEffects == DESTRUCTIVE ==> last.compensation != ""
    ensures Unwound(comps, init + [last], w) ==
            Unwound(comps, init, if Registered(comps, last) then comps[last.compensation](w, last).world else w)
  {
    assert (init + [last])[..|init|] == init;
  }

  /** Undoing one completed step, whatever else the view does not show has changed since. */
  lemma StepUndone<W(!new), V>(
    view: W -> V, handlers: Handlers<W>, comps: Handlers<W>, steps: seq<Step>, s: Step, w: W, w': W)
    requires OthersInert(view, handlers, comps, steps) && CompensationsUndo(view, handlers, comps, steps)
    requires s in steps && s.retryLimit >= 0 && Retry(handlers, s, w).Done?
    requires view(w') == view(Retry(handlers, s, w).world)
    ensures view(if Registered(comps, s) then comps[s.compensation](w', s).world else w') == view(w)
  {
    var w0 := TriesAreOneAttempt(view, handlers, comps, steps, s, s.retryLimit + 1, w);
  }

  lemma {:induction false} UnwindingCompleted<W(!new), V>(
    view: W -> V, handlers: Handlers<W>, comps: Handlers<W>, steps: seq<Step>, done: seq<Step>, w: W, w': W)
    requires OthersInert(view, handlers, comps, steps) && CompensationsUndo(view, handlers, comps, steps)
    requires forall s | s in done :: s in steps && s.retryLimit >= 0
    requires forall s | s in done :: s.sideEffects == DESTRUCTIVE ==> s.compensation != ""
    requires AllSucceed(handlers, done, w) && view(w') == view(WorldAfter(handlers, done, w))
    ensures view(Unwound(comps, done, w')) == view(w)
  {
    if done != [] {
      var init, last := done[..|done| - 1], done[|done| - 1];
      assert done == init + [last] && AllSucceed(handlers, init, w);
      var before := WorldAfter(handlers, init, w);
      assert WorldAfter(handlers, done, w) == Retry(handlers, last, before).world;
      hide OthersInert, CompensationsUndo, Unwound, Retry, Registered, WorldAfter, AllSucceed;
      StepUndone(view, handlers, comps, steps, last, before, w');
      UnwoundSnoc(comps, init, last, w');
      UnwindingCompleted(view, handlers, comps, steps, init, w,
                         if Registered(comps, last) then comps[last.compensation](w', last).world else w');
    }
  }

  lemma UnwindingFailed<W(!new), V>(
    view: W -> V, handlers: Handlers<W>, comps: Handlers<W>, steps: seq<Step>, done: seq<Step>, last: Step, w: W)
    requires OthersInert(view, handlers, comps, steps) && CompensationsUndo(view, handlers, comps, steps)
    requires last in steps && forall s | s in done :: s in steps
    requires forall s | s in steps :: s.retryLimit >= 0 && (s.sideEffects == DESTRUCTIVE ==> s.compensation != "")
    requires AllSucceed(handlers, done, w) && Retry(handlers, last, WorldAfter(handlers, done, w)).Failed?
    ensures view(Unwound(comps, done, Retry(handlers, last, WorldAfter(handlers, done, w)).world)) == view(w)
  {
    var before := WorldAfter(handlers, done, w);
    var _ := TriesAreOneAttempt(view, handlers, comps, steps, last, last.retryLimit + 1, before);
    UnwindingCompleted(view, handlers, comps, steps, done, w, Retry(handlers, last, before).world);
  }

  /** A failed run compensates exactly the steps completed before the failing one, in strict
      reverse. */
  lemma FailedRunCompensates<W>(
    handlers: Handlers<W>, comps: Handlers<W>, dag: Dag, w: W,
    ids: seq<string>, world: W, outcome: Outcome, calls: seq<Call>)
    requires Clean(dag) && FirstPath(dag, ids)
    requires outcome.StepFailed? && RunOf(handlers, comps, dag, w, ids, world, outcome, calls)
    ensures var done := StepsOf(dag, ids[..|ids| - 1]);
            calls == ForwardCalls(handlers, StepsOf(dag, ids), w) + Undos(RegisteredSteps(comps, Reversed(done)))
  {
    StepsOfLimits(dag, ids[..|ids| - 1]);
    UndoCallsAreReverse(comps, StepsOf(dag, ids[..|ids| - 1]));
  }

  /** What can be seen of the world is restored by a failed run when compensations undo, in
      that view, what their steps did, and nothing else changes the view. Retries may fail and
      then succeed anywhere on the way. */
  lemma FailedRunRestores<W(!new), V>(
    view: W -> V, handlers: Handlers<W>, comps: Handlers<W>, dag: Dag, w: W,
    ids: seq<string>, world: W, outcome: Outcome, calls: seq<Call>)
    requires Clean(dag) && FirstPath(dag, ids)
    requires outcome.StepFailed? && RunOf(handlers, comps, dag, w, ids, world, outcome, calls)
    requires OthersInert(view, handlers, comps, StepsOf(dag, ids))
    requires CompensationsUndo(view, handlers, comps, StepsOf(dag, ids))
    ensures view(world) == view(w)
  {
    var done, last := StepsOf(dag, ids[..|ids| - 1]), StepAt(dag, ids[|ids| - 1]);
    StepsOfLimits(dag, ids);
    assert StepsOf(dag, ids) == done + [last];
    hide OthersInert, CompensationsUndo, StepsOf, Clean, Retry, WorldAfter, AllSucceed, Unwound;
    UnwindingFailed(view, handlers, comps, StepsOf(dag, ids), done, last, w);
  }

  /** With everything in view, the whole world is handed back. */
  lemma FailedRunRestoresWorld<W(!new)>(
    handlers: Handlers<W>, comps: Handlers<W>, dag: Dag, w: W,
    ids: seq<string>, world: W, outcome: Outcome, calls: seq<Call>)
    requires Clean(dag) && FirstPath(dag, ids)
    requires outcome.StepFailed? && RunOf(handlers, comps, dag, w, ids, world, outcome, calls)
    requires forall s, v | s in StepsOf(dag, ids) && (Handle(handlers, s, v).Failed? || !Registered(comps, s)) ::
               Handle(handlers, s, v).world == v
    requires forall s, v | s in StepsOf(dag, ids) && Registered(comps, s) && Handle(handlers, s, v).Done? ::
               comps[s.compensation](Handle(handlers, s, v).world, s).world == v
    ensures world == w
  {
    hide RunOf, Clean, FirstPath, Handle, Registered, StepsOf;
    var view := (v: W) => v;
    assert OthersInert(view, handlers, comps, StepsOf(dag, ids));
    assert CompensationsUndo(view, handlers, comps, StepsOf(dag, ids));
    FailedRunRestores(view, handlers, comps, dag, w, ids, world, outcome, calls);
  }

  // ---------- runs ----------

  /** Where a run went, told by the recipe alone: from the start, and from each step to its
      first successor. */
  lemma {:induction false} PathFollowsFirst(dag: Dag, ids: seq<string>, i: nat)
    requires FirstPath(dag, ids) && i < |ids|
    ensures ids[0] == dag.start && ids[i] in dag.steps
    ensures i + 1 < |ids| ==> dag.steps[ids[i]].next != [] && dag.steps[ids[i]].next[0] == ids[i + 1]
  {
    if |ids| > 1 {
      PathFollowsFirst(dag, ids[..|ids| - 1], if i == |ids| - 1 then i - 1 else i);
    }
  }

  /** A run completes only where there is no successor, and fails at the step it reached. */
  lemma CompletedAtTheEnd<W>(
    handlers: Handlers<W>, comps: Handlers<W>, dag: Dag, w: W,
    ids: seq<string>, world: W, outcome: Outcome, calls: seq<Call>)
    requires FirstPath(dag, ids) && RunOf(handlers, comps, dag, w, ids, world, outcome, calls)
    ensures var last := dag.steps[ids[|ids| - 1]];
            && (outcome == Completed ==> last.next == [] || last.next[0] == "")
            && (outcome.StepFailed? ==> outcome.stepId == last.id)
  {
    hide Retry, WorldAfter, ForwardCalls, StepsOf, Unwound, UndoCalls, AllSucceed;
  }

  /** Where no capability has a handler a sound recipe runs through and touches nothing. */
  lemma {:induction false} NothingHandled<W>(steps: seq<Step>, w: W)
    requires forall s | s in steps :: s.retryLimit >= 0
    ensures AllSucceed(map[], steps, w) && WorldAfter(map[], steps, w) == w
  {
    if steps != [] {
      NothingHandled(steps[..|steps| - 1], w);
    }
  }

  lemma UnhandledRecipeCompletes<W>(
    comps: Handlers<W>, dag: Dag, w: W, ids: seq<string>, world: W, outcome: Outcome, calls: seq<Call>)
    requires Clean(dag) && FirstPath(dag, ids) && RunOf(map[], comps, dag, w, ids, world, outcome, calls)
    ensures outcome == Completed && world == w
  {
    var done, last := StepsOf(dag, ids[..|ids| - 1]), StepAt(dag, ids[|ids| - 1]);
    StepsOfLimits(dag, ids);
    assert StepsOf(dag, ids) == done + [last];
    NothingHandled(done, w);
    hide Clean, FirstPath, StepsOf;
    assert Retry(map[], last, w) == Done(w);
  }

  /** A recipe of one step that may be retried once. */
  const ONE_STEP := Step("s", "owner", "work", "", 1, "", [])

  /** It fails on an idle world, but leaves it busy, and succeeds on a busy one. */
  function BusyOnce(): Handlers<int> {
    map["work" := (w: int, s: Step) => if w == 0 then Failed(1, "busy") else Done(w + 1)]
  }

  lemma BusyThenDone()
    ensures Retry(BusyOnce(), ONE_STEP, 0) == Done(2)
    ensures TryCalls(BusyOnce(), ONE_STEP, 2, 0) == [Forward(ONE_STEP), Forward(ONE_STEP)]
  {
    assert Handle(BusyOnce(), ONE_STEP, 0) == Failed(1, "busy") && Handle(BusyOnce(), ONE_STEP, 1) == Done(2);
    hide Handle;
    assert Tries(BusyOnce(), ONE_STEP, 1, 1) == Done(2);
    assert TryCalls(BusyOnce(), ONE_STEP, 1, 1) == [Forward(ONE_STEP)];
  }

  lemma OneStepRecipe()
    ensures var dag := Dag(map["s" := ONE_STEP], "s");
            Clean(dag) && FirstPath(dag, ["s"]) && Terminal(dag, "s") && StepAt(dag, "s") == ONE_STEP
  {
    OrderedIsAcyclic(Dag(map["s" := ONE_STEP], "s"), ["s"]);
  }

  lemma OneStepRun<W>(handlers: Handlers<W>, dag: Dag, w: W, id: string)
    ensures StepsOf(dag, [id][..0]) == [] && AllSucceed(handlers, [], w) && WorldAfter(handlers, [], w) == w
    ensures ForwardCalls(handlers, StepsOf(dag, [id]), w) ==
            TryCalls(handlers, StepAt(dag, id), StepAt(dag, id).retryLimit + 1, w)
  {
    var step := StepAt(dag, id);
    assert [id][..0] == [] && [step][..0] == [] && StepsOf(dag, []) == [] && [] + [step] == [step];
    assert StepsOf(dag, [id]) == [step];
    var calls := TryCalls(handlers, step, step.retryLimit + 1, w);
    hide TryCalls;
    assert ForwardCalls(handlers, [], w) == [] && [] + calls == calls;
  }

  /** A retry starts from what the failed attempt left, so the run fails once and completes. */
  lemma RetryCompletes(world: int, outcome: Outcome, calls: seq<Call>)
    ensures var dag := Dag(map["s" := ONE_STEP], "s");
            && Clean(dag) && FirstPath(dag, ["s"])
            && (RunOf(BusyOnce(), map[], dag, 0, ["s"], world, outcome, calls) <==>
                outcome == Completed && world == 2 && calls == [Forward(ONE_STEP), Forward(ONE_STEP)])
  {
    var dag := Dag(map["s" := ONE_STEP], "s");
    OneStepRecipe();
    BusyThenDone();
    OneStepRun(BusyOnce(), dag, 0, "s");
    assert ONE_STEP.retryLimit + 1 == 2;
    hide StepAt, Retry, TryCalls, ForwardCalls, Clean, FirstPath, StepsOf, Terminal, AllSucceed, WorldAfter, BusyOnce;
  }
}
