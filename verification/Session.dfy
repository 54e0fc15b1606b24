/** A whole session of the engine: what a client gets, what the log says, and what stays allocated. */
module Session {
  import opened Bytes
  import opened LogFormat
  import opened Recording
  import opened EventQueue
  import opened Replay
  import opened RunProperties
  import opened ActivityLog
  import opened Engine
  import Sched = Scheduler

  /** The log clock of call `i`. */
  function ClockOf(clock: (nat, nat) -> nat, i: nat): nat -> nat {
    k => clock(i, k)
  }

  /** A call with the log-clock readings the engine takes during it. */
  function LoggedCall(tape: seq<Recorded>, call: Call, tid: nat, clock: nat -> nat): (r: Logged)
    ensures Stamped(tape, r)
  {
    if call.Start? && IsRequest(call.copType, call.data) then
      var n := |ActivityLog.Answer(tape, RequestId(call.data.value), RequestUds(call.data.value))|;
      Logged(call, tid, seq(1 + n, k requires 0 <= k => clock(k)))
    else Logged(call, tid, [])
  }

  lemma RequestLines(tape: seq<Recorded>, call: Call, events: seq<Event>, tid: nat, clock: nat -> nat)
    requires call.Start? && IsRequest(call.copType, call.data)
    requires var answer := AnswerTo(tape, LoggedCall(tape, call, tid, clock));
             |events| == |answer| && forall k :: 0 <= k < |events| ==> events[k].payload == ReplyPayload(answer[k])
    ensures StartLines(events, call.copType, call.data, tid, clock) == CallLines(tape, LoggedCall(tape, call, tid, clock))
  {
    var logged := LoggedCall(tape, call, tid, clock);
    var a, b := StartLines(events, call.copType, call.data, tid, clock), CallLines(tape, logged);
    assert |a| == |b| == 1 + |events|;
    forall k | 0 <= k < |a| ensures a[k] == b[k] {
      assert logged.ms[k] == clock(k);
    }
  }

  /** The engine writes exactly the lines the re-conversion is about. */
  lemma StartLinesAreCallLines(tape: seq<Recorded>, c: Timed, hCop: U32, tid: nat, clock: nat -> nat)
    requires c.call.Start?
    ensures var Start(link, copType, data, tag) := c.call;
            StartLines(Scheduled(tape, c.tick, link, copType, data, tag, hCop), copType, data, tid, clock)
            == CallLines(tape, LoggedCall(tape, c.call, tid, clock))
  {
    var Start(link, copType, data, tag) := c.call;
    if IsRequest(copType, data) {
      ScheduledIsAnswer(tape, LoggedCall(tape, c.call, tid, clock), c.tick, hCop);
      RequestLines(tape, c.call, Scheduled(tape, c.tick, link, copType, data, tag, hCop), tid, clock);
    }
  }

  /** The session a sequence of calls makes in the log, call `i` on thread `tid(i)` reading the log clock `clock(i, .)`. */
  function LoggedSession(tape: seq<Recorded>, calls: seq<Timed>, n: nat, tid: nat -> nat, clock: (nat, nat) -> nat): (r: seq<Logged>)
    requires n <= |calls|
    ensures |r| == n && AllStamped(tape, r)
  {
    if n == 0 then []
    else LoggedSession(tape, calls, n - 1, tid, clock) + [LoggedCall(tape, calls[n - 1].call, tid(n - 1), ClockOf(clock, n - 1))]
  }

  lemma {:induction false} SessionLinesSnoc(tape: seq<Recorded>, session: seq<Logged>, c: Logged)
    requires AllStamped(tape, session) && Stamped(tape, c) && AllStamped(tape, session + [c])
    ensures SessionLines(tape, session + [c]) == SessionLines(tape, session) + CallLines(tape, c)
  {
    var all := session + [c];
    if session == [] {
      assert all[0] == c && all[1..] == [];
    } else {
      assert all[0] == session[0] && all[1..] == session[1..] + [c];
      SessionLinesSnoc(tape, session[1..], c);
    }
  }

  lemma LogTextAppend(a: seq<LogLine>, b: seq<LogLine>)
    ensures LogText(a + b) == LogText(a) + LogText(b)
  {
    assert PrintAll(a + b) == PrintAll(a) + PrintAll(b);
    JoinAppend(PrintAll(a), PrintAll(b));
  }

  lemma LogTextOver(a: seq<LogLine>, b: seq<LogLine>, c: seq<LogLine>)
    ensures LogText(a + (b + c)) == LogText(a + b) + LogText(c)
  {
    assert a + (b + c) == (a + b) + c;
    LogTextAppend(a + b, c);
  }

  /** What the log holds after the first `n` calls: the preamble and the lines of the session so far. */
  ghost function LogAfter(tape: seq<Recorded>, calls: seq<Timed>, n: nat, tid: nat -> nat, clock: (nat, nat) -> nat, path: string): string
    requires n <= |calls|
  {
    LogText(Preamble(path) + SessionLines(tape, LoggedSession(tape, calls, n, tid, clock)))
  }

  lemma LogAdvances(tape: seq<Recorded>, calls: seq<Timed>, n: nat, tid: nat -> nat, clock: (nat, nat) -> nat, path: string)
    requires n < |calls|
    ensures LogAfter(tape, calls, n + 1, tid, clock, path)
         == LogAfter(tape, calls, n, tid, clock, path)
            + LogText(CallLines(tape, LoggedCall(tape, calls[n].call, tid(n), ClockOf(clock, n))))
  {
    var session, c := LoggedSession(tape, calls, n, tid, clock), LoggedCall(tape, calls[n].call, tid(n), ClockOf(clock, n));
    SessionLinesSnoc(tape, session, c);
    LogTextOver(Preamble(path), SessionLines(tape, session), CallLines(tape, c));
  }

  /** The items among what was returned. */
  ghost function ItemsOf(received: seq<EventItem?>): set<object> {
    if received == [] then {}
    else
      var last := received[|received| - 1];
      ItemsOf(received[..|received| - 1]) + One(last)
  }

  predicate DistinctItems(received: seq<EventItem?>) {
    forall i, j :: 0 <= i < j < |received| && received[i] != null ==> received[i] != received[j]
  }

  lemma {:induction false} ItemsOfMember(received: seq<EventItem?>, i: nat)
    requires i < |received| && received[i] != null
    ensures received[i] in ItemsOf(received)
  {
    if i < |received| - 1 {
      ItemsOfMember(received[..|received| - 1], i);
    }
  }

  /** What a call returns to the client: the delivered event as an item, or nothing. */
  ghost predicate Hands(outcome: Outcome, item: EventItem?, tick: U64) {
    match outcome
    case Delivered(e) => item != null && Carries(item, e, tick)
    case _ => item == null
  }

  function Outcomes(tape: seq<Recorded>, calls: seq<Timed>): seq<Outcome> {
    seq(|calls|, i requires 0 <= i < |calls| => OutcomeAt(tape, calls, i))
  }

  /** The first calls, as many as there are entries in `received`, handed these to the client. */
  ghost predicate Got(outcomes: seq<Outcome>, calls: seq<Timed>, received: seq<EventItem?>) {
    |received| <= |calls| == |outcomes| &&
    forall i :: 0 <= i < |received| ==> Hands(outcomes[i], received[i], calls[i].tick)
  }

  ghost function One(item: EventItem?): set<object> {
    if item == null then {} else {item}
  }

  /** Perform one call on the engine: it takes exactly the step of the model. */
  method Perform(engine: PlaybackEngine, c: Timed, tid: nat, clock: nat -> nat) returns (item: EventItem?)
    requires engine.Valid()
    modifies engine, engine.heap, engine.scheduler, engine.scheduler.spine, engine.log
    ensures engine.Valid() && fresh(engine.scheduler.spine - old(engine.scheduler.spine))
    ensures engine.Model() == Step(engine.tape, old(engine.Model()), c).0
    ensures Hands(Step(engine.tape, old(engine.Model()), c).1, item, c.tick)
    ensures engine.items == old(engine.items) + One(item) && fresh(One(item))
    ensures engine.log.text == old(engine.log.text) + LogText(CallLines(engine.tape, LoggedCall(engine.tape, c.call, tid, clock)))
  {
    item := null;
    match c.call
    case Start(link, copType, data, tag) =>
      var hCop := engine.StartComPrimitive(link, copType, data, tag, c.tick, tid, clock);
      StartLinesAreCallLines(engine.tape, c, hCop, tid, clock);
    case Poll(link) =>
      var status;
      status, item := engine.GetEventItem(link, true, c.tick);
      assert engine.log.text + LogText([]) == engine.log.text;
    case Cancel(hCop) =>
      engine.CancelComPrimitive(hCop);
      assert engine.log.text + LogText([]) == engine.log.text;
  }

  lemma GotNext(received: seq<EventItem?>, item: EventItem?)
    requires DistinctItems(received) && (item != null ==> item !in ItemsOf(received))
    ensures DistinctItems(received + [item])
    ensures ItemsOf(received + [item]) == ItemsOf(received) + One(item)
  {
    var all := received + [item];
    assert all[..|received|] == received;
    forall i, j | 0 <= i < j < |all| && all[i] != null ensures all[i] != all[j] {
      ItemsOfMember(received, i);
    }
  }

  lemma GotMore(outcomes: seq<Outcome>, calls: seq<Timed>, before: seq<EventItem?>, item: EventItem?)
    requires |before| < |calls| && Got(outcomes, calls, before)
    requires Hands(outcomes[|before|], item, calls[|before|].tick)
    ensures Got(outcomes, calls, before + [item])
  {
  }

  /** The engine has served the first `n` calls. */
  ghost predicate Served(engine: PlaybackEngine, calls: seq<Timed>, n: nat, received: seq<EventItem?>, tid: nat -> nat,
                         clock: (nat, nat) -> nat, path: string)
    requires n <= |calls|
    reads engine, engine.scheduler, engine.log
  {
    && engine.Model() == Run(engine.tape, calls, n)
    && |received| == n && Got(Outcomes(engine.tape, calls), calls, received)
    && engine.items == ItemsOf(received) && DistinctItems(received)
    && engine.log.text == LogAfter(engine.tape, calls, n, tid, clock, path)
  }

  method ServeNext(engine: PlaybackEngine, calls: seq<Timed>, n: nat, before: seq<EventItem?>, tid: nat -> nat,
                   clock: (nat, nat) -> nat, ghost path: string) returns (received: seq<EventItem?>)
    requires n < |calls| && engine.Valid() && Served(engine, calls, n, before, tid, clock, path)
    modifies engine, engine.heap, engine.scheduler, engine.scheduler.spine, engine.log
    ensures engine.Valid() && fresh(engine.scheduler.spine - old(engine.scheduler.spine))
    ensures Served(engine, calls, n + 1, received, tid, clock, path)
  {
    LogAdvances(engine.tape, calls, n, tid, clock, path);
    RunStep(engine.tape, calls, n);
    ghost var items := ItemsOf(before);
    var item := Perform(engine, calls[n], tid(n), ClockOf(clock, n));
    assert item != null ==> item in One(item);
    GotNext(before, item);
    GotMore(Outcomes(engine.tape, calls), calls, before, item);
    received := before + [item];
  }

  /** Serve any sequence of calls: every poll hands out what the model delivers, and the log holds the session. */
  method Serve(engine: PlaybackEngine, calls: seq<Timed>, tid: nat -> nat, clock: (nat, nat) -> nat, ghost path: string)
    returns (received: seq<EventItem?>)
    requires engine.Valid() && engine.Model() == INITIAL && engine.items == {}
    requires engine.log.text == LogText(Preamble(path))
    modifies engine, engine.heap, engine.scheduler, engine.scheduler.spine, engine.log
    ensures engine.Valid() && fresh(engine.scheduler.spine - old(engine.scheduler.spine))
    ensures Served(engine, calls, |calls|, received, tid, clock, path)
  {
    received := [];
    assert Preamble(path) + [] == Preamble(path);
    for n := 0 to |calls|
      invariant engine.Valid() && fresh(engine.scheduler.spine - old(engine.scheduler.spine))
      invariant Served(engine, calls, n, received, tid, clock, path)
    {
      received := ServeNext(engine, calls, n, received, tid, clock, path);
    }
  }

  /** Taking the last item away leaves the items before it. */
  lemma DestroyNext(received: seq<EventItem?>)
    requires received != [] && DistinctItems(received)
    ensures var last := received[|received| - 1];
            && (last != null ==> last in ItemsOf(received))
            && ItemsOf(received) - {last} == ItemsOf(received[..|received| - 1])
  {
    var init, last := received[..|received| - 1], received[|received| - 1];
    if last != null && last in ItemsOf(init) {
      var i := ItemIndex(init, last);
    }
  }

  lemma {:induction false} ItemIndex(received: seq<EventItem?>, item: EventItem) returns (i: nat)
    requires item in ItemsOf(received)
    ensures i < |received| && received[i] == item
  {
    if received[|received| - 1] == item {
      i := |received| - 1;
    } else {
      i := ItemIndex(received[..|received| - 1], item);
    }
  }

  /** Destroy every received item. */
  method DestroyAll(engine: PlaybackEngine, received: seq<EventItem?>)
    requires engine.Valid() && engine.items == ItemsOf(received) && DistinctItems(received)
    modifies engine, engine.heap
    ensures engine.Valid() && engine.items == {}
  {
    var n := |received|;
    assert received[..n] == received;
    while n > 0
      invariant 0 <= n <= |received| && engine.Valid()
      invariant engine.items == ItemsOf(received[..n])
    {
      DestroyNext(received[..n]);
      n := n - 1;
      assert received[..n + 1][..n] == received[..n];
      engine.DestroyItem(received[n]);
    }
  }

  /** A complete session: serve the calls, destroy every received item, shut the engine down.
      Afterwards nothing is allocated any more, and nothing was freed twice. */
  method CompleteSession(heap: Sched.Heap, tape: seq<Recorded>, calls: seq<Timed>, tid: nat -> nat, clock: (nat, nat) -> nat, path: string)
    returns (received: seq<EventItem?>, log: string)
    requires heap.live == {}
    modifies heap
    ensures |received| == |calls| && Got(Outcomes(tape, calls), calls, received)
    ensures log == LogAfter(tape, calls, |calls|, tid, clock, path)
    ensures heap.live == {}
  {
    var engine := new PlaybackEngine(heap, tape, path);
    received := Serve(engine, calls, tid, clock, path);
    log := engine.log.text;
    DestroyAll(engine, received);
    engine.Shutdown();
  }
}
