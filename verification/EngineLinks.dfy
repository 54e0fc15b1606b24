/** Engine runs seen as scheduler operations: links stay apart in every run. */
module EngineLinks {
  import opened Bytes
  import opened EventQueue
  import opened Recording
  import opened Replay
  import opened RunProperties
  import opened LinkRefinement

  function Pushes(events: seq<Event>): seq<Op> {
    seq(|events|, i requires 0 <= i < |events| => Push(events[i]))
  }

  /** The scheduler operations call `i` of a run performs. */
  function OpsOf(tape: seq<Recorded>, calls: seq<Timed>, i: nat): seq<Op>
    requires i < |calls|
  {
    match calls[i].call
    case Start(_, _, _, _) => Pushes(ScheduledBy(tape, calls, i))
    case Poll(link) => [PopOp(link, NowUs(calls[i].tick))]
    case Cancel(hCop) => [CancelOp(hCop)]
  }

  function AllOps(tape: seq<Recorded>, calls: seq<Timed>, n: nat): seq<Op>
    requires n <= |calls|
  {
    if n == 0 then [] else AllOps(tape, calls, n - 1) + OpsOf(tape, calls, n - 1)
  }

  lemma {:induction false} PollsAppend(q: seq<Event>, a: seq<Op>, b: seq<Op>, link: Link)
    ensures QueueAfter(q, a + b) == QueueAfter(QueueAfter(q, a), b)
    ensures PollsOf(q, a + b, link) == PollsOf(q, a, link) + PollsOf(QueueAfter(q, a), b, link)
    decreases |a|
  {
    if a == [] {
      assert a + b == b;
    } else {
      PollsAppend(Apply(q, a[0]).0, a[1..], b, link);
      assert (a + b)[0] == a[0] && (a + b)[1..] == a[1..] + b;
    }
  }

  lemma {:induction false} PushesAppend(q: seq<Event>, events: seq<Event>, link: Link)
    ensures QueueAfter(q, Pushes(events)) == q + events
    ensures PollsOf(q, Pushes(events), link) == []
    decreases |events|
  {
    if events != [] {
      PushesAppend(q + [events[0]], events[1..], link);
      assert Pushes(events)[0] == Push(events[0]) && Pushes(events)[1..] == Pushes(events[1..]);
      assert q + [events[0]] + events[1..] == q + events;
    }
  }

  /** What call `i` returned, when it polls the link. */
  function AnswerAt(tape: seq<Recorded>, calls: seq<Timed>, i: nat, link: Link): seq<Option<Event>>
    requires i < |calls|
  {
    if calls[i].call != Poll(link) then []
    else [match OutcomeAt(tape, calls, i) case Delivered(e) => Some(e) case _ => None]
  }

  /** What the polls of a link returned during a run. */
  function Answers(tape: seq<Recorded>, calls: seq<Timed>, n: nat, link: Link): seq<Option<Event>>
    requires n <= |calls|
  {
    if n == 0 then [] else Answers(tape, calls, n - 1, link) + AnswerAt(tape, calls, n - 1, link)
  }

  lemma OneCall(tape: seq<Recorded>, calls: seq<Timed>, i: nat, link: Link)
    requires i < |calls|
    ensures QueueAfter(Run(tape, calls, i).queue, OpsOf(tape, calls, i)) == Run(tape, calls, i + 1).queue
    ensures PollsOf(Run(tape, calls, i).queue, OpsOf(tape, calls, i), link) == AnswerAt(tape, calls, i, link)
  {
    var q, ops := Run(tape, calls, i).queue, OpsOf(tape, calls, i);
    if calls[i].call.Start? {
      PushesAppend(q, ScheduledBy(tape, calls, i), link);
    } else {
      assert ops[1..] == [];
    }
  }

  /** A run of calls is the run of its scheduler operations. */
  lemma {:induction false} RunIsOps(tape: seq<Recorded>, calls: seq<Timed>, n: nat, link: Link)
    requires n <= |calls|
    ensures QueueAfter([], AllOps(tape, calls, n)) == Run(tape, calls, n).queue
    ensures PollsOf([], AllOps(tape, calls, n), link) == Answers(tape, calls, n, link)
  {
    if n > 0 {
      var m := n - 1;
      RunIsOps(tape, calls, m, link);
      OneCall(tape, calls, m, link);
      Chain([], AllOps(tape, calls, m), OpsOf(tape, calls, m), link, Run(tape, calls, m).queue,
            Run(tape, calls, m + 1).queue, Answers(tape, calls, m, link), AnswerAt(tape, calls, m, link));
    }
  }

  lemma Chain(q: seq<Event>, before: seq<Op>, ops: seq<Op>, link: Link, mid: seq<Event>, last: seq<Event>,
              said: seq<Option<Event>>, more: seq<Option<Event>>)
    requires QueueAfter(q, before) == mid && PollsOf(q, before, link) == said
    requires QueueAfter(mid, ops) == last && PollsOf(mid, ops, link) == more
    ensures QueueAfter(q, before + ops) == last && PollsOf(q, before + ops, link) == said + more
  {
    PollsAppend(q, before, ops, link);
  }

  /** In every run what a link's polls return is what they would return if the scheduler had seen nothing but that
      link's pushes, its polls, and the cancels of handles given to its starts. */
  lemma LinksStayApart(tape: seq<Recorded>, calls: seq<Timed>, link: Link)
    ensures var ops := AllOps(tape, calls, |calls|);
            Answers(tape, calls, |calls|, link) == PollsOf([], Own(ops, link, HandlesOf(ops, link)), link)
  {
    var ops := AllOps(tape, calls, |calls|);
    RunIsOps(tape, calls, |calls|, link);
    Noninterference([], [], ops, link, HandlesOf(ops, link));
  }

  /** Call `i` is a start on the event's link that was given the event's handle. */
  ghost predicate StartOf(tape: seq<Recorded>, calls: seq<Timed>, i: nat, e: Event)
    requires i < |calls|
  {
    calls[i].call.Start? && calls[i].call.link == e.link && HandleOf(tape, calls, i) == e.hCop
  }

  lemma PushOfCall(tape: seq<Recorded>, calls: seq<Timed>, i: nat, e: Event)
    requires i < |calls| && Push(e) in OpsOf(tape, calls, i)
    ensures StartOf(tape, calls, i, e)
  {
    var Start(link, copType, data, tag) := calls[i].call;
    var events := ScheduledBy(tape, calls, i);
    ScheduledShape(tape, calls[i].tick, link, copType, data, tag, HandleOf(tape, calls, i));
    var k :| 0 <= k < |events| && Pushes(events)[k] == Push(e);
    assert events[k] == e;
  }

  lemma InEither<T>(x: T, a: seq<T>, b: seq<T>)
    requires x in a + b
    ensures x in a || x in b
  {
  }

  /** The call an operation of the run belongs to. */
  lemma {:induction false} PerformedBy(tape: seq<Recorded>, calls: seq<Timed>, n: nat, op: Op)
    requires n <= |calls| && op in AllOps(tape, calls, n)
    ensures exists i :: 0 <= i < n && op in OpsOf(tape, calls, i)
  {
    var before, last := AllOps(tape, calls, n - 1), OpsOf(tape, calls, n - 1);
    InEither(op, before, last);
    if op !in last {
      PerformedBy(tape, calls, n - 1, op);
    }
  }

  /** Every push of a run bears the handle of a start on the pushed event's link. */
  lemma PushOrigin(tape: seq<Recorded>, calls: seq<Timed>, n: nat, e: Event) returns (i: nat)
    requires n <= |calls| && Push(e) in AllOps(tape, calls, n)
    ensures i < n && StartOf(tape, calls, i, e)
  {
    PerformedBy(tape, calls, n, Push(e));
    i :| 0 <= i < n && Push(e) in OpsOf(tape, calls, i);
    PushOfCall(tape, calls, i, e);
  }

  /** And no handle is used by two links, so a cancel concerns one link at most. */
  lemma HandlesBelongToOneLink(tape: seq<Recorded>, calls: seq<Timed>, a: Link, b: Link)
    requires a != b && Starts(calls, |calls|) < TWO32
    ensures var ops := AllOps(tape, calls, |calls|); HandlesOf(ops, a) !! HandlesOf(ops, b)
  {
    var ops := AllOps(tape, calls, |calls|);
    forall h | h in HandlesOf(ops, a) && h in HandlesOf(ops, b) ensures false {
      var k :| 0 <= k < |ops| && ops[k].Push? && ops[k].event.link == a && ops[k].event.hCop == h;
      var l :| 0 <= l < |ops| && ops[l].Push? && ops[l].event.link == b && ops[l].event.hCop == h;
      var i := PushOrigin(tape, calls, |calls|, ops[k].event);
      var j := PushOrigin(tape, calls, |calls|, ops[l].event);
      assert i != j;
      if i < j {
        HandlesDistinct(tape, calls, i, j);
      } else {
        HandlesDistinct(tape, calls, j, i);
      }
    }
  }
}
