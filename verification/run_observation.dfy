/** The polling client of archive/tui/session.go and archive/tui/app.go: a status read and an
    event read per poll, a timeline fed with what is new, and a reconnect that replays. */
module RunObservation {
  import opened Text
  import opened Timelines

  datatype Result<+T> = Success(value: T) | Failure(error: string)

  datatype RunStatus = RunStatus(status: string, pendingPermissions: seq<string>)

  /** A status other than these two ends the session. */
  predicate Terminal(status: RunStatus) {
    status.status != "running" && status.status != "awaiting_approval"
  }

  datatype PollResult = PollResult(events: seq<Event>, status: RunStatus, finished: bool)

  /** The mutable fields of a session as a value. */
  datatype SessionState = SessionState(cursor: nat, status: RunStatus, pending: string, finished: bool)

  /** A session before its first poll. */
  function FreshSession(): SessionState {
    SessionState(0, RunStatus("", []), "", false)
  }

  /** What a reconnect leaves of a session. */
  function Rewound(state: SessionState): SessionState {
    state.(cursor := 0)
  }

  /** What a poll that read `status` and `events` hands over: everything past the cursor, or
      the whole log when it is shorter than the cursor. */
  function PollOf(cursor: nat, status: RunStatus, events: seq<Event>): PollResult {
    PollResult(events[if cursor > |events| then 0 else cursor..], status, Terminal(status))
  }

  function Polled(status: RunStatus, events: seq<Event>): SessionState {
    SessionState(
      |events|, status,
      if |status.pendingPermissions| > 0 then status.pendingPermissions[0] else "",
      Terminal(status))
  }

  class Session {
    var cursor: nat
    var status: RunStatus
    var pending: string
    var finished: bool

    constructor ()
      ensures State() == FreshSession()
    {
      cursor, status, pending, finished := 0, RunStatus("", []), "", false;
    }

    function State(): SessionState
      reads this
    {
      SessionState(cursor, status, pending, finished)
    }

    /** The two reads are the transport's answers, in the order they were asked for; a failed
        read leaves the session as it was. */
    method Poll(statusRead: Result<RunStatus>, eventsRead: Result<seq<Event>>) returns (r: Result<PollResult>)
      modifies this
      ensures statusRead.Failure? ==> r == Failure(statusRead.error) && State() == old(State())
      ensures statusRead.Success? && eventsRead.Failure? ==> r == Failure(eventsRead.error) && State() == old(State())
      ensures statusRead.Success? && eventsRead.Success? ==>
                && r == Success(PollOf(old(cursor), statusRead.value, eventsRead.value))
                && State() == Polled(statusRead.value, eventsRead.value)
                && (old(cursor) > |eventsRead.value| ==> r.value.events == eventsRead.value)
      ensures statusRead.Success? && eventsRead.Success? ==>
                var asked := statusRead.value.pendingPermissions;
                && cursor == |eventsRead.value| && status == statusRead.value
                && (asked == [] ==> pending == "") && (asked != [] ==> pending == asked[0])
                && (finished <==> status.status !in {"running", "awaiting_approval"})
    {
      if statusRead.Failure? {
        return Failure(statusRead.error);
      }
      if eventsRead.Failure? {
        return Failure(eventsRead.error);
      }
      var events := eventsRead.value;
      if cursor > |events| {
        cursor := 0;
      }
      var unseen := events[cursor..];
      cursor := |events|;
      status := statusRead.value;
      if |status.pendingPermissions| > 0 {
        pending := status.pendingPermissions[0];
      } else {
        pending := "";
      }
      finished := status.status != "running" && status.status != "awaiting_approval";
      return Success(PollResult(unseen, status, finished));
    }
  }

  // ---------- the view over the session ----------

  datatype Stage = Watching | Evidence

  /** The view's side of the protocol: its timeline and its stage. */
  datatype Screen = Screen(view: View, stage: Stage)

  function FreshScreen(): Screen {
    Screen(NewView(DEFAULT_CAPACITY), Watching)
  }

  function Delivered(screen: Screen, result: PollResult): Screen
    requires screen.view.capacity > 0
  {
    Screen(AppendedAll(screen.view, result.events), if result.finished then Evidence else screen.stage)
  }

  class App {
    var session: Session
    var timeline: Timeline
    var stage: Stage

    /** A session message: a new session starts on an empty timeline. */
    constructor (session: Session)
      ensures this.session == session && Valid() && Shown() == FreshScreen()
      ensures fresh(timeline)
    {
      this.session := session;
      timeline := new Timeline(DEFAULT_CAPACITY);
      stage := Watching;
    }

    ghost predicate Valid()
      reads this, timeline
    {
      timeline.capacity > 0
    }

    function Shown(): Screen
      reads this, timeline
    {
      Screen(timeline.Current(), stage)
    }

    /** A poll message: the new events are appended, and a finished run shows its evidence. */
    method OnPoll(result: PollResult)
      requires Valid()
      modifies this, timeline
      ensures Valid() && Shown() == Delivered(old(Shown()), result)
      ensures session == old(session) && timeline == old(timeline)
    {
      var events := result.events;
      for i := 0 to |events|
        invariant timeline == old(timeline) && session == old(session) && stage == old(stage) && Valid()
        invariant timeline.Current() == AppendedAll(old(timeline.Current()), events[..i])
      {
        assert events[..i + 1][..i] == events[..i];
        timeline.Append(events[i]);
      }
      assert events[..|events|] == events;
      if result.finished {
        stage := Evidence;
      }
    }

    /** Reconnecting drops the rows and rewinds the cursor, so the next poll replays the log. */
    method Reconnect()
      requires Valid()
      modifies this, session
      ensures Valid() && Shown() == FreshScreen() && fresh(timeline)
      ensures session == old(session) && session.State() == Rewound(old(session.State()))
    {
      timeline := new Timeline(DEFAULT_CAPACITY);
      session.cursor := 0;
      stage := Watching;
    }
  }

  // ---------- daemon and client as interleaved steps ----------

  datatype Daemon = Daemon(log: seq<Event>, status: RunStatus)

  datatype Phase =
    | Idle
    | StatusRead(status: RunStatus)
    | EventsRead(events: seq<Event>)
    | Delivering(result: PollResult)

  /** `received` is what was delivered since the last connect. */
  datatype System = System(
    daemon: Daemon, session: SessionState, phase: Phase, screen: Screen, received: seq<Event>)

  /** Which of a poll's two reads comes first. */
  datatype Order = StatusFirst | EventsFirst

  ghost predicate Init(s: System) {
    s.session == FreshSession() && s.phase == Idle && s.screen == FreshScreen() && s.received == []
  }

  /** The daemon only appends, and it appends the last event before it records an ending. */
  ghost predicate DaemonStep(d: Daemon, d': Daemon) {
    d.log <= d'.log && (Terminal(d.status) ==> d'.log == d.log && Terminal(d'.status))
  }

  /** A poll begins, gets its second answer, or is abandoned on a failed read. */
  ghost predicate PollStep(order: Order, s: System, s': System) {
    || (s.phase == Idle && order == StatusFirst && s' == s.(phase := StatusRead(s.daemon.status)))
    || (s.phase.StatusRead? && s' == s.(session := Polled(s.phase.status, s.daemon.log),
                                        phase := Delivering(PollOf(s.session.cursor, s.phase.status, s.daemon.log))))
    || (s.phase == Idle && order == EventsFirst && s' == s.(phase := EventsRead(s.daemon.log)))
    || (s.phase.EventsRead? && s' == s.(session := Polled(s.daemon.status, s.phase.events),
                                        phase := Delivering(PollOf(s.session.cursor, s.daemon.status, s.phase.events))))
    || ((s.phase.StatusRead? || s.phase.EventsRead?) && s' == s.(phase := Idle))
  }

  /** The view takes in a poll's result. */
  ghost function Received(s: System, result: PollResult): System
    requires s.screen.view.capacity > 0
  {
    s.(screen := Delivered(s.screen, result), received := s.received + result.events)
  }

  ghost predicate DeliverStep(s: System, s': System) {
    s.phase.Delivering? && s.screen.view.capacity > 0 && s' == Received(s, s.phase.result).(phase := Idle)
  }

  /** A fresh screen, a rewound cursor, and no poll to wait for. */
  ghost function Reconnected(s: System): System {
    s.(session := Rewound(s.session), phase := Idle, screen := FreshScreen(), received := [])
  }

  /** One step of the client, with at most one poll in flight. */
  ghost predicate ClientStep(order: Order, s: System, s': System) {
    || PollStep(order, s, s')
    || DeliverStep(s, s')
    || (s.phase == Idle && s' == Reconnected(s))
  }

  ghost predicate Next(order: Order, s: System, s': System) {
    || (DaemonStep(s.daemon, s'.daemon) && s' == s.(daemon := s'.daemon))
    || ClientStep(order, s, s')
  }

  ghost predicate Run(order: Order, run: seq<System>) {
    && run != [] && Init(run[0])
    && forall i, j | 0 <= i && j == i + 1 && j < |run| :: Next(order, run[i], run[j])
  }

  /** Everything the log says, in order, and nothing else. */
  ghost predicate Complete(s: System) {
    s.received == s.daemon.log && s.screen.view == Window(DEFAULT_CAPACITY, s.daemon.log)
  }

  /** The part of the log handed out so far, the poll being delivered included. */
  ghost function HandedOut(s: System): seq<Event> {
    if s.phase.Delivering? then s.received + s.phase.result.events else s.received
  }

  ghost predicate Invariant(s: System) {
    && s.session.cursor <= |s.daemon.log| && HandedOut(s) == s.daemon.log[..s.session.cursor]
    && s.screen.view == Window(DEFAULT_CAPACITY, s.received)
    && !s.phase.EventsRead?
    && (s.phase.StatusRead? && Terminal(s.phase.status) ==> Terminal(s.daemon.status))
    && (s.session.finished ==> Terminal(s.daemon.status))
    && (s.phase.Delivering? && s.phase.result.finished ==>
          Terminal(s.daemon.status) && s.session.cursor == |s.daemon.log|)
    && (s.screen.stage == Evidence ==> Terminal(s.daemon.status) && s.received == s.daemon.log)
  }

  lemma InvariantKept(s: System, s': System)
    requires Invariant(s) && Next(StatusFirst, s, s')
    ensures Invariant(s')
  {
    if s.phase.Delivering? {
      AppendAllSlides(DEFAULT_CAPACITY, s.received, s.phase.result.events);
    }
    NewViewIsWindow(DEFAULT_CAPACITY);
  }

  lemma {:induction false} InvariantHolds(run: seq<System>, k: nat)
    requires Run(StatusFirst, run) && k < |run|
    ensures Invariant(run[k])
  {
    if k == 0 {
      NewViewIsWindow(DEFAULT_CAPACITY);
    } else {
      InvariantHolds(run, k - 1);
      InvariantKept(run[k - 1], run[k]);
    }
  }

  /** Whatever the interleaving, the timeline is at every moment the window on a prefix of
      the log, reconnects included. */
  lemma ViewIsWindowOnPrefix(run: seq<System>, k: nat)
    requires Run(StatusFirst, run) && k < |run|
    ensures run[k].received <= run[k].daemon.log
    ensures run[k].screen.view == Window(DEFAULT_CAPACITY, run[k].received)
  {
    InvariantHolds(run, k);
  }

  /** When the evidence is shown nothing was lost or repeated, and nothing is written later. */
  lemma {:induction false} FinishedIsComplete(run: seq<System>, k: nat, m: nat)
    requires Run(StatusFirst, run) && k <= m < |run|
    requires run[k].screen.stage == Evidence
    ensures Complete(run[k]) && run[m].daemon.log == run[k].daemon.log
    decreases m
  {
    InvariantHolds(run, k);
    if k < m {
      FinishedIsComplete(run, k, m - 1);
      StaysTerminal(run, k, m - 1);
      assert Next(StatusFirst, run[m - 1], run[m]);
    }
  }

  lemma {:induction false} StaysTerminal(run: seq<System>, k: nat, m: nat)
    requires Run(StatusFirst, run) && k <= m < |run| && Terminal(run[k].daemon.status)
    ensures Terminal(run[m].daemon.status)
    decreases m
  {
    if k < m {
      StaysTerminal(run, k, m - 1);
      assert Next(StatusFirst, run[m - 1], run[m]);
    }
  }

  /** The moment a poll first reports the end, the polls since the last connect add up to the
      whole log. */
  lemma FinishingPollIsLast(run: seq<System>, k: nat)
    requires Run(StatusFirst, run) && k < |run|
    requires run[k].phase.Delivering? && run[k].phase.result.finished
    ensures run[k].received + run[k].phase.result.events == run[k].daemon.log
  {
    InvariantHolds(run, k);
  }

  /** Delivering what lies past the cursor turns a window on a prefix into one on the log. */
  lemma DeliveryCompletes(screen: Screen, cursor: nat, status: RunStatus, log: seq<Event>)
    requires cursor <= |log| && screen.view == Window(DEFAULT_CAPACITY, log[..cursor])
    ensures Delivered(screen, PollOf(cursor, status, log)).view == Window(DEFAULT_CAPACITY, log)
  {
    AppendAllSlides(DEFAULT_CAPACITY, log[..cursor], log[cursor..]);
    assert log[..cursor] + log[cursor..] == log;
  }

  /** A reconnect followed by one undisturbed poll shows what a client that had polled all
      along would show. */
  lemma ReconnectRebuilds(s: System)
    requires Invariant(s) && s.phase == Idle
    ensures Delivered(FreshScreen(), PollOf(0, s.daemon.status, s.daemon.log)).view ==
            Delivered(s.screen, PollOf(s.session.cursor, s.daemon.status, s.daemon.log)).view
  {
    NewViewIsWindow(DEFAULT_CAPACITY);
    DeliveryCompletes(FreshScreen(), 0, s.daemon.status, s.daemon.log);
    DeliveryCompletes(s.screen, s.session.cursor, s.daemon.status, s.daemon.log);
  }

  /** A run that has ended is shown as ended: one undisturbed poll brings the rest of the log
      and the evidence. */
  lemma PollFinishes(s: System) returns (asked: System, read: System, shown: System)
    requires Invariant(s) && s.phase == Idle && Terminal(s.daemon.status)
    ensures Next(StatusFirst, s, asked) && Next(StatusFirst, asked, read) && Next(StatusFirst, read, shown)
    ensures shown.phase == Idle && shown.screen.stage == Evidence && Complete(shown)
    ensures shown.session.finished && shown.session.cursor == |s.daemon.log|
  {
    var log := s.daemon.log;
    asked := s.(phase := StatusRead(s.daemon.status));
    read := asked.(session := Polled(s.daemon.status, log),
                   phase := Delivering(PollOf(s.session.cursor, s.daemon.status, log)));
    shown := Received(read, read.phase.result).(phase := Idle);
    InvariantKept(s, asked);
    InvariantKept(asked, read);
    InvariantKept(read, shown);
    assert log == log[..|log|];
  }

  // ---------- several polls by one session ----------

  /** What a session hands over in polls that found these logs, one after the other. */
  ghost function HandedOver(state: SessionState, found: seq<Daemon>): seq<Event>
    decreases |found|
  {
    if found == [] then []
    else PollOf(state.cursor, found[0].status, found[0].log).events +
         HandedOver(Polled(found[0].status, found[0].log), found[1..])
  }

  ghost predicate Growing(found: seq<Daemon>) {
    forall i, j | 0 <= i && j == i + 1 && j < |found| :: found[i].log <= found[j].log
  }

  /** However a log grows between its polls, what they hand over is the last log found, from the
      cursor before the first poll on: no event twice, none left out. */
  lemma {:induction false} PollsAddUp(state: SessionState, found: seq<Daemon>)
    requires found != [] && Growing(found) && state.cursor <= |found[0].log|
    ensures state.cursor <= |found[|found| - 1].log|
    ensures HandedOver(state, found) == found[|found| - 1].log[state.cursor..]
    decreases |found|
  {
    var first, rest := found[0], found[1..];
    var unseen := first.log[state.cursor..];
    if rest == [] {
      assert HandedOver(state, found) == unseen + [] == unseen;
    } else {
      assert found[0].log <= found[1].log;
      assert Growing(rest) by {
        forall i, j | 0 <= i && j == i + 1 && j < |rest| ensures rest[i].log <= rest[j].log {
          assert found[j].log <= found[j + 1].log;
        }
      }
      PollsAddUp(Polled(first.status, first.log), rest);
      LogsGrow(rest);
      var last := found[|found| - 1].log;
      assert unseen + last[|first.log|..] == last[state.cursor..];
    }
  }

  lemma {:induction false} LogsGrow(found: seq<Daemon>)
    requires found != [] && Growing(found)
    ensures found[0].log <= found[|found| - 1].log
    decreases |found|
  {
    if |found| > 1 {
      var init := found[..|found| - 1];
      LogsGrow(init);
      assert found[|found| - 2].log <= found[|found| - 1].log;
    }
  }

  // ---------- why the order of the two reads matters ----------

  /** Reading events first, a run that ends between the two reads is declared finished with
      its events unseen. */
  lemma EventsFirstLoses(ev: Event)
    ensures exists run: seq<System> :: Run(EventsFirst, run) && run[|run| - 1].screen.stage == Evidence &&
                          !Complete(run[|run| - 1])
  {
    var running, done := RunStatus("running", []), RunStatus("completed", []);
    var s0 := System(Daemon([], running), FreshSession(), Idle, FreshScreen(), []);
    var s1 := s0.(phase := EventsRead([]));
    var s2 := s1.(daemon := Daemon([ev], done));
    var s3 := s2.(session := Polled(done, []), phase := Delivering(PollOf(0, done, [])));
    var s4 := s3.(phase := Idle, screen := Delivered(s3.screen, s3.phase.result), received := []);
    assert s3.phase.result.events == [];
    assert Next(EventsFirst, s0, s1) && Next(EventsFirst, s1, s2);
    assert Next(EventsFirst, s2, s3) && Next(EventsFirst, s3, s4);
    assert Run(EventsFirst, [s0, s1, s2, s3, s4]);
  }

  /** What every run with the events read first keeps. */
  ghost predicate EventsFirstInvariant(s: System) {
    && s.session.cursor <= |s.daemon.log| && HandedOut(s) == s.daemon.log[..s.session.cursor]
    && !s.phase.StatusRead?
    && (s.phase.EventsRead? ==> s.phase.events <= s.daemon.log && s.session.cursor <= |s.phase.events|)
  }

  lemma EventsFirstInvariantKept(s: System, s': System)
    requires EventsFirstInvariant(s) && Next(EventsFirst, s, s')
    ensures EventsFirstInvariant(s')
  {
    if s.phase.EventsRead? && s'.phase.Delivering? {
      assert s.phase.events == s.phase.events[..s.session.cursor] + s.phase.events[s.session.cursor..];
    }
  }

  lemma {:induction false} EventsFirstInvariantHolds(run: seq<System>, k: nat)
    requires Run(EventsFirst, run) && k < |run|
    ensures EventsFirstInvariant(run[k])
  {
    if k > 0 {
      EventsFirstInvariantHolds(run, k - 1);
      EventsFirstInvariantKept(run[k - 1], run[k]);
    }
  }

  /** Until its second answer comes, a poll holds on to the events it read. */
  lemma {:induction false} EventsHeld(run: seq<System>, j: nat, k: nat)
    requires Run(EventsFirst, run) && j <= k < |run|
    requires forall i | j <= i <= k :: run[i].phase.EventsRead?
    ensures run[k].phase == run[j].phase
    decreases k
  {
    if j < k {
      EventsHeld(run, j, k - 1);
      assert Next(EventsFirst, run[k - 1], run[k]);
    }
  }

  /** In every run with the events read first, at `j`, and the status second, at `k`, a poll that
      reports the end adds up to the whole log exactly when the log did not grow in between. */
  lemma EventsFirstExactly(run: seq<System>, j: nat, k: nat)
    requires Run(EventsFirst, run) && j < k < |run|
    requires run[j].phase == EventsRead(run[j].daemon.log)
    requires forall i | j <= i < k :: run[i].phase.EventsRead?
    requires run[k].phase.Delivering? && run[k].phase.result.finished
    ensures run[k].received + run[k].phase.result.events == run[k].daemon.log <==>
            run[k].daemon.log == run[j].daemon.log
  {
    EventsHeld(run, j, k - 1);
    EventsFirstInvariantHolds(run, k - 1);
    EventsFirstInvariantHolds(run, k);
    assert Next(EventsFirst, run[k - 1], run[k]);
  }

  // ---------- reconnecting before a poll was delivered ----------

  /** A system whose user may also reconnect while a poll is still to be delivered. Its result
      is not lost: it stays in the queue ahead of the replay. `stale` is what the queue held at
      the last reconnect. */
  datatype Crossing = Crossing(system: System, queued: seq<PollResult>, stale: seq<Event>)

  ghost function EventsOf(results: seq<PollResult>): seq<Event> {
    if results == [] then [] else results[0].events + EventsOf(results[1..])
  }

  /** Results are delivered in the order they were queued. */
  ghost predicate CrossingNext(c: Crossing, c': Crossing) {
    var s, s' := c.system, c'.system;
    || (DaemonStep(s.daemon, s'.daemon) && s' == s.(daemon := s'.daemon) && c' == c.(system := s'))
    || (PollStep(StatusFirst, s, s') && c' == c.(system := s'))
    || (c.queued == [] && DeliverStep(s, s') && c' == c.(system := s'))
    || (c.queued != [] && s.screen.view.capacity > 0 &&
        c' == c.(system := Received(s, c.queued[0]), queued := c.queued[1..]))
    || (s.phase == Idle && c' == Crossing(Reconnected(s), c.queued, EventsOf(c.queued)))
    || (s.phase.Delivering? &&
        c' == Crossing(Reconnected(s), c.queued + [s.phase.result], EventsOf(c.queued + [s.phase.result])))
  }

  ghost predicate CrossingRun(run: seq<Crossing>) {
    && run != [] && Init(run[0].system) && run[0].queued == [] && run[0].stale == []
    && forall i, j | 0 <= i && j == i + 1 && j < |run| :: CrossingNext(run[i], run[j])
  }

  ghost function Undelivered(s: System): seq<Event> {
    if s.phase.Delivering? then s.phase.result.events else []
  }

  ghost predicate CrossingInvariant(c: Crossing) {
    var s := c.system;
    && s.session.cursor <= |s.daemon.log|
    && s.received + EventsOf(c.queued) + Undelivered(s) == c.stale + s.daemon.log[..s.session.cursor]
    && s.screen.view == Window(DEFAULT_CAPACITY, s.received)
    && !s.phase.EventsRead?
  }

  /** Taking in a result moves its events from what is to be delivered to what is shown. */
  lemma TakenIn(s: System, result: PollResult)
    requires s.screen.view == Window(DEFAULT_CAPACITY, s.received)
    ensures Received(s, result).screen.view == Window(DEFAULT_CAPACITY, Received(s, result).received)
  {
    AppendAllSlides(DEFAULT_CAPACITY, s.received, result.events);
  }

  lemma PollKeepsCrossing(c: Crossing, s': System)
    requires CrossingInvariant(c) && PollStep(StatusFirst, c.system, s')
    ensures CrossingInvariant(c.(system := s'))
  {
    var s := c.system;
    var shown := s.received + EventsOf(c.queued);
    assert shown + [] == shown;
    if s'.phase.Delivering? {
      var log := s.daemon.log;
      assert log == log[..s.session.cursor] + log[s.session.cursor..] && log[..|log|] == log;
      Assoc(c.stale, log[..s.session.cursor], log[s.session.cursor..]);
    }
  }

  lemma DeliveryKeepsCrossing(c: Crossing)
    requires CrossingInvariant(c) && c.queued == [] && c.system.phase.Delivering?
    ensures CrossingInvariant(c.(system := Received(c.system, c.system.phase.result).(phase := Idle)))
  {
    var s := c.system;
    TakenIn(s, s.phase.result);
    var received := s.received + s.phase.result.events;
    assert s.received + [] == s.received && received + [] + [] == received;
  }

  lemma QueueKeepsCrossing(c: Crossing)
    requires CrossingInvariant(c) && c.queued != []
    ensures CrossingInvariant(c.(system := Received(c.system, c.queued[0]), queued := c.queued[1..]))
  {
    TakenIn(c.system, c.queued[0]);
    Assoc(c.system.received, c.queued[0].events, EventsOf(c.queued[1..]));
  }

  lemma ReconnectStartsCrossing(s: System, queued: seq<PollResult>)
    ensures CrossingInvariant(Crossing(Reconnected(s), queued, EventsOf(queued)))
  {
    NewViewIsWindow(DEFAULT_CAPACITY);
    assert [] + EventsOf(queued) + [] == EventsOf(queued) + s.daemon.log[..0];
  }

  lemma CrossingInvariantKept(c: Crossing, c': Crossing)
    requires CrossingInvariant(c) && CrossingNext(c, c')
    ensures CrossingInvariant(c')
  {
    hide PollStep, EventsOf, Window, PollOf;
    var s, s' := c.system, c'.system;
    if PollStep(StatusFirst, s, s') && c' == c.(system := s') {
      PollKeepsCrossing(c, s');
    } else if c.queued == [] && DeliverStep(s, s') && c' == c.(system := s') {
      DeliveryKeepsCrossing(c);
    } else if c.queued != [] && s.screen.view.capacity > 0 &&
              c' == c.(system := Received(s, c.queued[0]), queued := c.queued[1..]) {
      QueueKeepsCrossing(c);
    } else if s' == Reconnected(s) && c'.stale == EventsOf(c'.queued) {
      ReconnectStartsCrossing(s, c'.queued);
    }
  }

  lemma {:induction false} CrossingInvariantHolds(run: seq<Crossing>, k: nat)
    requires CrossingRun(run) && k < |run|
    ensures CrossingInvariant(run[k])
  {
    if k == 0 {
      NewViewIsWindow(DEFAULT_CAPACITY);
    } else {
      CrossingInvariantHolds(run, k - 1);
      CrossingInvariantKept(run[k - 1], run[k]);
    }
  }

  /** Windows of one capacity are equal only on logs of one length. */
  lemma WindowShowsLength(capacity: int, a: seq<Event>, b: seq<Event>)
    requires capacity > 0 && Window(capacity, a) == Window(capacity, b)
    ensures |a| == |b|
  {
    assert |Window(capacity, a).entries| == |Window(capacity, b).entries|;
  }

  /** In every run, once the queue is delivered, the view is the window on what was read of the
      log exactly when the polls the last reconnect overtook carried no events; otherwise their
      events stand in front of the log a second time. */
  lemma ReconnectDuringDelivery(run: seq<Crossing>, k: nat)
    requires CrossingRun(run) && k < |run|
    requires run[k].queued == [] && !run[k].system.phase.Delivering?
    ensures var s, stale := run[k].system, run[k].stale;
            && s.session.cursor <= |s.daemon.log| && s.received == stale + s.daemon.log[..s.session.cursor]
            && (s.screen.view == Window(DEFAULT_CAPACITY, s.daemon.log[..s.session.cursor]) <==> stale == [])
  {
    CrossingInvariantHolds(run, k);
    var s, stale := run[k].system, run[k].stale;
    var seen := s.daemon.log[..s.session.cursor];
    assert s.received == s.received + [] + [] == stale + seen;
    if s.screen.view == Window(DEFAULT_CAPACITY, seen) {
      WindowShowsLength(DEFAULT_CAPACITY, s.received, seen);
    }
    if stale == [] {
      assert stale + seen == seen;
    }
  }

  /** A poll of a log of one event, up to its delivery. */
  lemma PollsOne(c: Crossing, ev: Event) returns (asked: Crossing, read: Crossing)
    requires c.system.phase == Idle && c.system.session.cursor == 0
    requires c.system.daemon == Daemon([ev], RunStatus("running", []))
    ensures CrossingNext(c, asked) && CrossingNext(asked, read)
    ensures read.system ==
            c.system.(session := Polled(RunStatus("running", []), [ev]),
                      phase := Delivering(PollResult([ev], RunStatus("running", []), false)))
    ensures read.queued == c.queued && read.stale == c.stale && read.system.session.cursor == 1
  {
    var running := RunStatus("running", []);
    var result := PollResult([ev], running, false);
    assert PollOf(0, running, [ev]) == result by {
      assert [ev][0..] == [ev];
    }
    asked := c.(system := c.system.(phase := StatusRead(running)));
    read := asked.(system := asked.system.(session := Polled(running, [ev]), phase := Delivering(result)));
  }

  /** A reconnect overtakes the poll of an otherwise empty client, and the poll comes in. */
  lemma ReconnectOvertakes(c: Crossing, ev: Event, result: PollResult) returns (again: Crossing, shown: Crossing)
    requires c.queued == [] && c.system.phase == Delivering(result) && result.events == [ev]
    ensures CrossingNext(c, again) && CrossingNext(again, shown)
    ensures shown.queued == [] && shown.stale == [ev] && shown.system.received == [ev]
    ensures shown.system.daemon == c.system.daemon && shown.system.session.cursor == 0 && shown.system.phase == Idle
    ensures shown.system.screen.view.capacity > 0
  {
    assert [] + [result] == [result] && [result][1..] == [];
    assert EventsOf([result]) == [ev] by {
      assert EventsOf([result][1..]) == [] && [ev] + [] == [ev];
    }
    again := Crossing(Reconnected(c.system), [result], [ev]);
    shown := Crossing(Received(again.system, result), [], [ev]);
    assert [] + [ev] == [ev];
  }

  lemma DeliversOne(c: Crossing, result: PollResult) returns (shown: Crossing)
    requires c.queued == [] && c.system.phase == Delivering(result) && c.system.screen.view.capacity > 0
    ensures CrossingNext(c, shown) && shown.queued == c.queued && shown.stale == c.stale
    ensures shown.system.phase == Idle && shown.system.received == c.system.received + result.events
    ensures shown.system.daemon == c.system.daemon && shown.system.session == c.system.session
  {
    shown := c.(system := Received(c.system, result).(phase := Idle));
  }

  lemma RunSnoc(run: seq<Crossing>, c: Crossing)
    requires CrossingRun(run) && CrossingNext(run[|run| - 1], c)
    ensures CrossingRun(run + [c])
  {
    hide CrossingNext;
  }

  lemma Connects(daemon: Daemon) returns (c: Crossing)
    ensures CrossingRun([c]) && c.system.daemon == daemon && c.system.session.cursor == 0
    ensures c.system.phase == Idle && c.queued == [] && c.stale == [] && c.system.screen == FreshScreen()
  {
    c := Crossing(System(daemon, FreshSession(), Idle, FreshScreen(), []), [], []);
  }

  /** One event, read by a poll that a reconnect overtakes and read again by the replay. */
  lemma ReadTwice(ev: Event) returns (run: seq<Crossing>)
    ensures CrossingRun(run)
    ensures var last := run[|run| - 1];
            && last.queued == [] && last.stale == [ev] && last.system.phase == Idle
            && last.system.daemon.log == [ev] && last.system.received == [ev, ev] && last.system.session.cursor == 1
  {
    hide *;
    var result := PollResult([ev], RunStatus("running", []), false);
    var c0 := Connects(Daemon([ev], RunStatus("running", [])));
    var c1, c2 := PollsOne(c0, ev);
    RunSnoc([c0], c1);
    RunSnoc([c0] + [c1], c2);
    var c3, c4 := ReconnectOvertakes(c2, ev, result);
    RunSnoc([c0] + [c1] + [c2], c3);
    RunSnoc([c0] + [c1] + [c2] + [c3], c4);
    var c5, c6 := PollsOne(c4, ev);
    RunSnoc([c0] + [c1] + [c2] + [c3] + [c4], c5);
    RunSnoc([c0] + [c1] + [c2] + [c3] + [c4] + [c5], c6);
    var c7 := DeliversOne(c6, result);
    RunSnoc([c0] + [c1] + [c2] + [c3] + [c4] + [c5] + [c6], c7);
    run := [c0] + [c1] + [c2] + [c3] + [c4] + [c5] + [c6] + [c7];
  }

  /** So an undisturbed log of one event is shown as two. */
  lemma ReconnectRepeats(ev: Event)
    ensures exists run: seq<Crossing> ::
              && CrossingRun(run) && run[|run| - 1].queued == []
              && var last := run[|run| - 1].system;
                 last.phase == Idle && last.daemon.log == [ev] && last.received == [ev, ev] &&
                 last.screen.view != Window(DEFAULT_CAPACITY, last.daemon.log)
  {
    var run := ReadTwice(ev);
    ReconnectDuringDelivery(run, |run| - 1);
    assert [ev][..1] == [ev];
  }
}
