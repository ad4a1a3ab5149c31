/** The recipe linter of internal/automation/recipe_dag.go: step checks and the
    three-colour depth-first search for cycles. */
module RecipeLint {

  /** One node of a recipe; the descriptive fields that no branch reads are left out. */
  datatype Step = Step(
    id: string, actor: string, capability: string, sideEffects: string,
    retryLimit: int, compensation: string, next: seq<string>)

  datatype Dag = Dag(steps: map<string, Step>, start: string)

  /** A lint finding: its kind with the data its message is formatted from. */
  datatype Finding =
    | EmptyDag
    | InvalidStart(start: string)
    | MissingOwner(stepId: string)
    | InfiniteRetry(stepId: string, limit: int)
    | MissingCompensation(stepId: string)
    | DanglingTransition(stepId: string, nextId: string)
    | CycleDetected(path: seq<string>, back: string)

  const DESTRUCTIVE := "destructive"

  // ---------- the transition graph ----------

  ghost predicate Edge(dag: Dag, u: string, v: string) {
    u in dag.steps && v in dag.steps[u].next
  }

  ghost predicate Walk(dag: Dag, p: seq<string>) {
    forall i, j | 0 <= i && j == i + 1 && j < |p| :: Edge(dag, p[i], p[j])
  }

  ghost predicate ClosedWalk(dag: Dag, p: seq<string>) {
    |p| >= 2 && Walk(dag, p) && p[0] == p[|p| - 1]
  }

  ghost predicate Cyclic(dag: Dag) {
    exists p :: ClosedWalk(dag, p)
  }

  /** A report is genuine when its path is a walk whose last node points back into it. */
  ghost predicate GenuineCycle(dag: Dag, path: seq<string>, back: string) {
    path != [] && Walk(dag, path) && back in path && Edge(dag, path[|path| - 1], back)
  }

  lemma GenuineCycleIsCyclic(dag: Dag, path: seq<string>, back: string)
    requires GenuineCycle(dag, path, back)
    ensures Cyclic(dag)
  {
    var k :| 0 <= k < |path| && path[k] == back;
    assert ClosedWalk(dag, path[k..] + [back]);
  }

  /** Every edge that leaves a listed node ends in a node listed earlier. */
  ghost predicate Ordered(dag: Dag, order: seq<string>) {
    forall i, v | 0 <= i < |order| && Edge(dag, order[i], v) :: v in order[..i]
  }

  lemma OrderedSnoc(dag: Dag, order: seq<string>, u: string)
    requires Ordered(dag, order)
    requires forall v | Edge(dag, u, v) :: v in order
    ensures Ordered(dag, order + [u])
  {
    var longer := order + [u];
    forall i, v | 0 <= i < |longer| && Edge(dag, longer[i], v) ensures v in longer[..i] {
      assert i < |order| ==> longer[..i] == order[..i];
      assert i == |order| ==> longer[..i] == order;
    }
  }

  lemma {:induction false} WalkDescends(dag: Dag, order: seq<string>, p: seq<string>, n: nat)
    requires Ordered(dag, order) && Walk(dag, p) && p != []
    requires n < |order| && p[0] == order[n]
    ensures forall k | 1 <= k < |p| :: p[k] in order[..n]
    decreases |p|
  {
    if |p| > 1 {
      assert Edge(dag, p[0], p[1]);
      var m :| 0 <= m < n && order[m] == p[1];
      WalkDescends(dag, order, p[1..], m);
      forall k | 1 <= k < |p| ensures p[k] in order[..n] {
        assert p[k] == p[1..][k - 1];
      }
    }
  }

  lemma {:induction false} NoClosedWalk(dag: Dag, order: seq<string>, p: seq<string>, n: nat)
    requires Ordered(dag, order) && ClosedWalk(dag, p)
    requires n < |order| && p[0] == order[n]
    ensures false
    decreases n
  {
    WalkDescends(dag, order, p, n);
    var m :| 0 <= m < n && order[m] == p[0];
    NoClosedWalk(dag, order, p, m);
  }

  /** A finishing order that lists every step leaves no room for a cycle. */
  lemma OrderedIsAcyclic(dag: Dag, order: seq<string>)
    requires Ordered(dag, order)
    requires forall u | u in dag.steps :: u in order
    ensures !Cyclic(dag)
  {
    forall p | ClosedWalk(dag, p) ensures false {
      assert Edge(dag, p[0], p[1]);
      var n :| 0 <= n < |order| && order[n] == p[0];
      NoClosedWalk(dag, order, p, n);
    }
  }

  // ---------- the search ----------

  /** The ids the search can meet: the steps and everything they name as a successor. */
  ghost function Universe(dag: Dag): set<string> {
    dag.steps.Keys + set id, v | id in dag.steps && v in dag.steps[id].next :: v
  }

  lemma WalkSnoc(dag: Dag, path: seq<string>, v: string)
    requires Walk(dag, path) && path != [] && Edge(dag, path[|path| - 1], v)
    ensures Walk(dag, path + [v])
    ensures v in path ==> GenuineCycle(dag, path, v)
  {
  }

  lemma WalkInit(dag: Dag, path: seq<string>, u: string)
    requires Walk(dag, path + [u])
    ensures Walk(dag, path)
  {
    assert forall i | 0 <= i < |path| :: (path + [u])[i] == path[i];
  }

  /** Grey ids (1) are exactly the current path, black ids (2) the finishing order. */
  ghost predicate Coloured(visited: map<string, int>, path: seq<string>, finished: seq<string>) {
    && (forall u | u in visited :: visited[u] == 1 || visited[u] == 2)
    && (forall u :: u in visited && visited[u] == 1 <==> u in path)
    && (forall u :: u in visited && visited[u] == 2 <==> u in finished)
  }

  lemma ColourMeans(visited: map<string, int>, path: seq<string>, finished: seq<string>, v: string)
    requires Coloured(visited, path, finished)
    ensures v in path <==> v in visited && visited[v] == 1
    ensures v in finished <==> v in visited && visited[v] != 1
  {
  }

  lemma TurnsGrey(visited: map<string, int>, path: seq<string>, finished: seq<string>, u: string)
    requires Coloured(visited, path, finished) && u !in visited
    ensures Coloured(visited[u := 1], path + [u], finished) && u !in path
  {
  }

  lemma TurnsBlack(visited: map<string, int>, path: seq<string>, finished: seq<string>, u: string)
    requires Coloured(visited, path + [u], finished) && u !in path
    ensures Coloured(visited[u := 2], path, finished + [u])
  {
  }

  /** The variables the search closure captures; a missing id is unvisited. */
  class CycleSearch {
    const dag: Dag
    var visited: map<string, int>
    var hasCycle: bool
    var cyclePath: seq<string>
    var cycleBack: string
    ghost var finished: seq<string>

    constructor (dag: Dag)
      ensures this.dag == dag && Valid([]) && !hasCycle && visited == map[]
    {
      this.dag := dag;
      visited := map[];
      hasCycle := false;
      finished := [];
      cyclePath := [];
      cycleBack := "";
    }

    ghost predicate Valid(path: seq<string>)
      reads this
    {
      Coloured(visited, path, finished) && Ordered(dag, finished) && Walk(dag, path)
    }

    /** Explores `u`, reached along `path`: a genuine cycle is found, or `u` ends black. */
    method Visit(u: string, path: seq<string>)
      requires !hasCycle && Valid(path) && Walk(dag, path + [u])
      requires u !in visited && u in Universe(dag)
      modifies this
      ensures hasCycle ==> GenuineCycle(dag, cyclePath, cycleBack)
      ensures !hasCycle ==> Valid(path) && u in finished && old(visited).Keys <= visited.Keys
      ensures !hasCycle ==> old(finished) <= finished
      decreases Universe(dag) - visited.Keys
    {
      hide Ordered, Walk, GenuineCycle, Coloured;
      TurnsGrey(visited, path, finished, u);
      visited := visited[u := 1];
      var currPath := path + [u];
      if u in dag.steps {
        var next := dag.steps[u].next;
        var i := 0;
        while i < |next|
          invariant 0 <= i <= |next|
          invariant !hasCycle && Valid(currPath)
          invariant old(visited).Keys + {u} <= visited.Keys && old(finished) <= finished
          invariant forall k | 0 <= k < i :: next[k] in finished
        {
          var v := next[i];
          WalkSnoc(dag, currPath, v);
          ColourMeans(visited, currPath, finished, v);
          if v in visited && visited[v] == 1 {
            hasCycle := true;
            cyclePath := currPath;
            cycleBack := v;
            return;
          }
          if v !in visited {
            assert v in Universe(dag);
            Visit(v, currPath);
            if hasCycle {
              return;
            }
          }
          i := i + 1;
        }
      }
      OrderedSnoc(dag, finished, u);
      TurnsBlack(visited, path, finished, u);
      WalkInit(dag, path, u);
      visited := visited[u := 2];
      finished := finished + [u];
    }
  }

  // ---------- the linter ----------

  function StartFindings(dag: Dag): seq<Finding> {
    if dag.start == "" || dag.start !in dag.steps || dag.steps[dag.start].id == ""
    then [InvalidStart(dag.start)] else []
  }

  function DanglingFindings(dag: Dag, id: string, next: seq<string>): seq<Finding> {
    if next == [] then []
    else DanglingFindings(dag, id, next[..|next| - 1]) +
         (if next[|next| - 1] in dag.steps then [] else [DanglingTransition(id, next[|next| - 1])])
  }

  function FindingsOf(dag: Dag, id: string): seq<Finding>
    requires id in dag.steps
  {
    var s := dag.steps[id];
    (if s.actor == "" then [MissingOwner(id)] else []) +
    (if s.retryLimit < 0 || s.retryLimit > 10 then [InfiniteRetry(id, s.retryLimit)] else []) +
    (if s.sideEffects == DESTRUCTIVE && s.compensation == "" then [MissingCompensation(id)] else []) +
    DanglingFindings(dag, id, s.next)
  }

  /** The step-level findings when the step map is ranged over in `order`. */
  function StepFindings(dag: Dag, order: seq<string>): seq<Finding>
    requires forall id | id in order :: id in dag.steps
  {
    if order == [] then []
    else StepFindings(dag, order[..|order| - 1]) + FindingsOf(dag, order[|order| - 1])
  }

  ghost predicate Distinct<T>(s: seq<T>) {
    forall i, j | 0 <= i < j < |s| :: s[i] != s[j]
  }

  /** `order` lists the keys of the step map, each once. */
  ghost predicate Enumerates(order: seq<string>, ids: set<string>) {
    Distinct(order) && forall id :: id in order <==> id in ids
  }

  ghost predicate CycleFindings(dag: Dag, fs: seq<Finding>) {
    if Cyclic(dag)
    then |fs| == 1 && fs[0].CycleDetected? && GenuineCycle(dag, fs[0].path, fs[0].back)
    else fs == []
  }

  lemma DanglingNext(dag: Dag, id: string, next: seq<string>, i: nat)
    requires i < |next|
    ensures DanglingFindings(dag, id, next[..i + 1]) ==
            DanglingFindings(dag, id, next[..i]) +
            (if next[i] in dag.steps then [] else [DanglingTransition(id, next[i])])
  {
    assert next[..i + 1][..i] == next[..i];
  }

  method CheckStep(dag: Dag, id: string) returns (findings: seq<Finding>)
    requires id in dag.steps
    ensures findings == FindingsOf(dag, id)
  {
    findings := [];
    var step := dag.steps[id];
    if step.actor == "" {
      findings := findings + [MissingOwner(id)];
    }
    if step.retryLimit < 0 || step.retryLimit > 10 {
      findings := findings + [InfiniteRetry(id, step.retryLimit)];
    }
    if step.sideEffects == DESTRUCTIVE && step.compensation == "" {
      findings := findings + [MissingCompensation(id)];
    }
    ghost var before := findings;
    assert DanglingFindings(dag, id, []) == [];
    assert step.next[..0] == [] && before + [] == before;
    hide DanglingFindings;
    for i := 0 to |step.next|
      invariant findings == before + DanglingFindings(dag, id, step.next[..i])
    {
      DanglingNext(dag, id, step.next, i);
      if step.next[i] !in dag.steps {
        findings := findings + [DanglingTransition(id, step.next[i])];
      }
    }
    assert step.next[..|step.next|] == step.next;
  }

  /** Looks for a cycle, ranging over the steps in an arbitrary order. */
  method DetectCycle(dag: Dag) returns (findings: seq<Finding>)
    ensures CycleFindings(dag, findings)
  {
    findings := [];
    var search := new CycleSearch(dag);
    var remaining := dag.steps.Keys;
    while remaining != {}
      invariant findings == [] && !search.hasCycle && search.Valid([])
      invariant search.dag == dag && remaining <= dag.steps.Keys
      invariant forall id | id in dag.steps && id !in remaining :: id in search.finished
    {
      var id :| id in remaining;
      remaining := remaining - {id};
      if id !in search.visited {
        search.Visit(id, []);
        if search.hasCycle {
          findings := [CycleDetected(search.cyclePath, search.cycleBack)];
          GenuineCycleIsCyclic(dag, search.cyclePath, search.cycleBack);
          return;
        }
      }
    }
    OrderedIsAcyclic(dag, search.finished);
  }

  /** The step checks, ranging over the step map in an arbitrary order. */
  method CheckSteps(dag: Dag) returns (findings: seq<Finding>, ghost order: seq<string>)
    ensures Enumerates(order, dag.steps.Keys)
    ensures findings == StepFindings(dag, order)
  {
    findings, order := [], [];
    var remaining := dag.steps.Keys;
    while remaining != {}
      invariant remaining <= dag.steps.Keys
      invariant Enumerates(order, dag.steps.Keys - remaining)
      invariant findings == StepFindings(dag, order)
    {
      var id :| id in remaining;
      remaining := remaining - {id};
      var stepFindings := CheckStep(dag, id);
      findings := findings + stepFindings;
      order := order + [id];
      assert order[..|order| - 1] + [id] == order;
    }
  }

  /** The whole linter; `order` is the iteration order of the step checks. */
  method LintRecipeDag(dag: Dag) returns (findings: seq<Finding>, ghost order: seq<string>)
    ensures dag.steps == map[] ==> findings == [EmptyDag]
    ensures dag.steps != map[] ==>
              && Enumerates(order, dag.steps.Keys)
              && var prefix := StartFindings(dag) + StepFindings(dag, order);
                 prefix <= findings && CycleFindings(dag, findings[|prefix|..])
    ensures findings == [] <==> Clean(dag)
    ensures (exists f :: f in findings && f.CycleDetected?) <==> Cyclic(dag)
    ensures forall f | f in findings :: Defect(dag, f)
    ensures forall f: Finding | !f.CycleDetected? && Defect(dag, f) :: f in findings
  {
    order := [];
    if |dag.steps| == 0 {
      findings := [EmptyDag];
      OrderedIsAcyclic(dag, []);
      return;
    }
    var stepFindings;
    stepFindings, order := CheckSteps(dag);
    var cycle := DetectCycle(dag);
    findings := StartFindings(dag) + stepFindings + cycle;
    LintMeaning(dag, order, cycle);
    hide Defect, StepFindings, StartFindings, Clean, Cyclic, CycleFindings, Enumerates;
    forall f: Finding
      ensures (f in findings ==> Defect(dag, f)) && (!f.CycleDetected? && Defect(dag, f) ==> f in findings)
    {
      FindingsMean(dag, order, cycle, f);
    }
  }

  // ---------- what a clean report means ----------

  ghost predicate StepClean(dag: Dag, id: string)
    requires id in dag.steps
  {
    var s := dag.steps[id];
    && s.actor != ""
    && 0 <= s.retryLimit <= 10
    && (s.sideEffects == DESTRUCTIVE ==> s.compensation != "")
    && forall v | v in s.next :: v in dag.steps
  }

  /** The structural invariants the linter enforces, stated without the linter. */
  ghost predicate Clean(dag: Dag) {
    && dag.start != "" && dag.start in dag.steps && dag.steps[dag.start].id != ""
    && (forall id | id in dag.steps :: StepClean(dag, id))
    && !Cyclic(dag)
  }

  lemma {:induction false} DanglingFindingsEmpty(dag: Dag, id: string, next: seq<string>)
    ensures DanglingFindings(dag, id, next) == [] <==> forall k | 0 <= k < |next| :: next[k] in dag.steps
  {
    if next != [] {
      var init := next[..|next| - 1];
      DanglingFindingsEmpty(dag, id, init);
      assert forall k | 0 <= k < |init| :: init[k] == next[k];
    }
  }

  lemma {:induction false} DanglingFindingsKind(dag: Dag, id: string, next: seq<string>)
    ensures forall f | f in DanglingFindings(dag, id, next) :: f.DanglingTransition?
  {
    if next != [] {
      DanglingFindingsKind(dag, id, next[..|next| - 1]);
    }
  }

  lemma FindingsOfEmpty(dag: Dag, id: string)
    requires id in dag.steps
    ensures FindingsOf(dag, id) == [] <==> StepClean(dag, id)
  {
    var next := dag.steps[id].next;
    DanglingFindingsEmpty(dag, id, next);
    if forall k | 0 <= k < |next| :: next[k] in dag.steps {
      forall v | v in next ensures v in dag.steps {}
    }
  }

  lemma {:induction false} StepFindingsEmpty(dag: Dag, order: seq<string>)
    requires forall id | id in order :: id in dag.steps
    ensures StepFindings(dag, order) == [] <==> forall k | 0 <= k < |order| :: StepClean(dag, order[k])
  {
    if order != [] {
      var init, last := order[..|order| - 1], order[|order| - 1];
      StepFindingsEmpty(dag, init);
      FindingsOfEmpty(dag, last);
      hide StepClean, FindingsOf;
      assert forall k | 0 <= k < |init| :: init[k] == order[k];
    }
  }

  lemma {:induction false} NoCycleAmongStepFindings(dag: Dag, order: seq<string>)
    requires forall id | id in order :: id in dag.steps
    ensures forall f | f in StepFindings(dag, order) :: !f.CycleDetected?
  {
    if order != [] {
      var last := order[|order| - 1];
      NoCycleAmongStepFindings(dag, order[..|order| - 1]);
      DanglingFindingsKind(dag, last, dag.steps[last].next);
    }
  }

  lemma NoStartCycle(dag: Dag)
    ensures forall f | f in StartFindings(dag) :: !f.CycleDetected?
    ensures StartFindings(dag) == [] <==> dag.start != "" && dag.start in dag.steps && dag.steps[dag.start].id != ""
  {
  }

  /** Only the search reports cycles. */
  lemma CycleReported(dag: Dag, prefix: seq<Finding>, cycle: seq<Finding>)
    requires CycleFindings(dag, cycle) && forall f | f in prefix :: !f.CycleDetected?
    ensures (exists f :: f in prefix + cycle && f.CycleDetected?) <==> Cyclic(dag)
    ensures cycle == [] <==> !Cyclic(dag)
  {
    hide GenuineCycle, Cyclic;
    if Cyclic(dag) {
      assert (prefix + cycle)[|prefix|] == cycle[0];
    }
  }

  lemma AllStepsClean(dag: Dag, order: seq<string>)
    requires Enumerates(order, dag.steps.Keys)
    ensures StepFindings(dag, order) == [] <==> forall id | id in dag.steps :: StepClean(dag, id)
  {
    StepFindingsEmpty(dag, order);
    hide StepFindings, StepClean, Distinct;
    if forall k | 0 <= k < |order| :: StepClean(dag, order[k]) {
      forall id | id in dag.steps ensures StepClean(dag, id) {
        assert id in order;
      }
    }
    if forall id | id in dag.steps :: StepClean(dag, id) {
      forall k | 0 <= k < |order| ensures StepClean(dag, order[k]) {
        assert order[k] in order;
      }
    }
  }

  /** What the assembled findings say about the recipe. */
  lemma LintMeaning(dag: Dag, order: seq<string>, cycle: seq<Finding>)
    requires Enumerates(order, dag.steps.Keys) && CycleFindings(dag, cycle)
    ensures var prefix := StartFindings(dag) + StepFindings(dag, order);
            var findings := prefix + cycle;
            && prefix <= findings && findings[|prefix|..] == cycle
            && (findings == [] <==> Clean(dag))
            && ((exists f :: f in findings && f.CycleDetected?) <==> Cyclic(dag))
  {
    NoStartCycle(dag);
    NoCycleAmongStepFindings(dag, order);
    AllStepsClean(dag, order);
    hide StartFindings, StepFindings, StepClean, Cyclic, CycleFindings, Enumerates;
    var prefix := StartFindings(dag) + StepFindings(dag, order);
    CycleReported(dag, prefix, cycle);
    assert (prefix + cycle)[|prefix|..] == cycle;
  }

  // ---------- what each finding means ----------

  /** The defect a finding names, stated without the linter. */
  ghost predicate Defect(dag: Dag, f: Finding) {
    match f
    case EmptyDag => dag.steps == map[]
    case InvalidStart(s) =>
      dag.steps != map[] && s == dag.start && (s == "" || s !in dag.steps || dag.steps[s].id == "")
    case MissingOwner(id) => id in dag.steps && dag.steps[id].actor == ""
    case InfiniteRetry(id, limit) =>
      id in dag.steps && limit == dag.steps[id].retryLimit && (limit < 0 || limit > 10)
    case MissingCompensation(id) =>
      id in dag.steps && dag.steps[id].sideEffects == "destructive" && dag.steps[id].compensation == ""
    case DanglingTransition(id, next) => id in dag.steps && next in dag.steps[id].next && next !in dag.steps
    case CycleDetected(path, back) => GenuineCycle(dag, path, back)
  }

  /** The finding is one of the step checks, about this step. */
  predicate About(f: Finding, id: string) {
    (f.MissingOwner? || f.InfiniteRetry? || f.MissingCompensation? || f.DanglingTransition?) && f.stepId == id
  }

  lemma {:induction false} DanglingMeans(dag: Dag, id: string, next: seq<string>, f: Finding)
    ensures f in DanglingFindings(dag, id, next) <==>
            f.DanglingTransition? && f.stepId == id && f.nextId in next && f.nextId !in dag.steps
  {
    if next != [] {
      var init, last := next[..|next| - 1], next[|next| - 1];
      assert next == init + [last];
      DanglingMeans(dag, id, init, f);
    }
  }

  lemma FindingsOfMeans(dag: Dag, id: string, f: Finding)
    requires id in dag.steps
    ensures f in FindingsOf(dag, id) <==> About(f, id) && Defect(dag, f)
  {
    DanglingMeans(dag, id, dag.steps[id].next, f);
    hide GenuineCycle, DanglingFindings;
  }

  lemma StepFindingsNext(dag: Dag, init: seq<string>, last: string, f: Finding)
    requires forall id | id in init + [last] :: id in dag.steps
    ensures last in dag.steps && forall id | id in init :: id in dag.steps
    ensures f in StepFindings(dag, init + [last]) <==> f in StepFindings(dag, init) || f in FindingsOf(dag, last)
  {
    assert last in init + [last] && forall id | id in init :: id in init + [last];
    assert (init + [last])[..|init|] == init;
    hide FindingsOf;
  }

  /** One of the listed steps is what the finding is about. */
  ghost predicate AboutOne(f: Finding, order: seq<string>) {
    exists k :: 0 <= k < |order| && About(f, order[k])
  }

  lemma AboutOneNext(f: Finding, init: seq<string>, last: string)
    ensures AboutOne(f, init + [last]) <==> AboutOne(f, init) || About(f, last)
  {
    hide About;
    assert forall k | 0 <= k < |init| :: (init + [last])[k] == init[k];
    assert (init + [last])[|init|] == last;
  }

  lemma {:induction false} StepFindingsMean(dag: Dag, order: seq<string>, f: Finding)
    requires forall id | id in order :: id in dag.steps
    ensures f in StepFindings(dag, order) <==> Defect(dag, f) && AboutOne(f, order)
  {
    if order != [] {
      hide *;
      var init, last := order[..|order| - 1], order[|order| - 1];
      assert order == init + [last];
      StepFindingsNext(dag, init, last, f);
      StepFindingsMean(dag, init, f);
      FindingsOfMeans(dag, last, f);
      AboutOneNext(f, init, last);
    }
  }

  lemma StartFindingsMean(dag: Dag, f: Finding)
    requires dag.steps != map[]
    ensures f in StartFindings(dag) <==> f.InvalidStart? && Defect(dag, f)
  {
  }

  lemma CycleFindingsMean(dag: Dag, cycle: seq<Finding>, f: Finding)
    requires CycleFindings(dag, cycle) && f in cycle
    ensures f.CycleDetected? && Defect(dag, f)
  {
    hide GenuineCycle, Cyclic;
  }

  lemma AboutListed(dag: Dag, order: seq<string>, f: Finding)
    requires Enumerates(order, dag.steps.Keys) && Defect(dag, f)
    requires !f.EmptyDag? && !f.InvalidStart? && !f.CycleDetected?
    ensures AboutOne(f, order)
  {
    assert f.stepId in order;
    var k :| 0 <= k < |order| && order[k] == f.stepId;
    assert About(f, order[k]);
  }

  /** Every finding names a defect of the recipe, and every defect but further cycles is found. */
  lemma FindingsMean(dag: Dag, order: seq<string>, cycle: seq<Finding>, f: Finding)
    requires dag.steps != map[] && Enumerates(order, dag.steps.Keys) && CycleFindings(dag, cycle)
    ensures var findings := StartFindings(dag) + StepFindings(dag, order) + cycle;
            && (f in findings ==> Defect(dag, f))
            && (!f.CycleDetected? && Defect(dag, f) ==> f in findings)
  {
    assert f.EmptyDag? ==> !Defect(dag, f);
    StepFindingsMean(dag, order, f);
    StartFindingsMean(dag, f);
    hide *;
    if f in cycle {
      CycleFindingsMean(dag, cycle, f);
    }
    if Defect(dag, f) && !f.EmptyDag? && !f.InvalidStart? && !f.CycleDetected? {
      AboutListed(dag, order, f);
    }
  }
}
