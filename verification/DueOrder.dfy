/** Delivery takes due events in insertion order: when that is due order, and that it need not be. */
module DueOrder {
  import opened Bytes
  import opened Seqs
  import opened EventQueue
  import opened Recording
  import opened Replay
  import opened RunProperties

  function IsReady(link: Link, now: U64): Event -> bool {
    (e: Event) => Ready(e, link, now)
  }

  /** A poll takes the first of the ready events and leaves the others ready. */
  lemma PopTakesReady(q: seq<Event>, link: Link, now: U64)
    ensures var (e, rest) := Pop(q, link, now);
            Filter(IsReady(link, now), q)
            == match e case Some(x) => [x] + Filter(IsReady(link, now), rest) case None => []
  {
    var i := FirstReady(q, link, now, 0);
    if i < |q| {
      FilterNone(IsReady(link, now), q[..i]);
      AroundAt(q, i);
      FilterAround(IsReady(link, now), q[..i], q[i], q[i + 1..]);
    } else {
      FilterNone(IsReady(link, now), q);
    }
  }

  /** Calls `n` to `m` poll the link at one clock reading. */
  predicate Polling(calls: seq<Timed>, n: nat, m: nat, link: Link, tick: U64)
    requires m <= |calls|
  {
    forall j :: n <= j < m ==> calls[j] == Timed(tick, Poll(link))
  }

  lemma PollDelivers(tape: seq<Recorded>, calls: seq<Timed>, n: nat, link: Link, tick: U64)
    requires n < |calls| && calls[n] == Timed(tick, Poll(link))
    ensures var (e, rest) := Pop(Run(tape, calls, n).queue, link, NowUs(tick));
            && Run(tape, calls, n + 1).queue == rest
            && Books(tape, calls, n + 1).delivered
               == Books(tape, calls, n).delivered + (match e case Some(x) => [x] case None => [])
  {
    assert Books(tape, calls, n + 1) == Enter(tape, Books(tape, calls, n), calls[n]);
  }

  /** What was delivered by call `n`, followed by what is ready on the link then. */
  function DeliveredOrReady(tape: seq<Recorded>, calls: seq<Timed>, n: nat, link: Link, now: U64): seq<Event>
    requires n <= |calls|
  {
    Books(tape, calls, n).delivered + Filter(IsReady(link, now), Run(tape, calls, n).queue)
  }

  lemma OnePoll(tape: seq<Recorded>, calls: seq<Timed>, n: nat, link: Link, tick: U64)
    requires n < |calls| && calls[n] == Timed(tick, Poll(link))
    ensures DeliveredOrReady(tape, calls, n + 1, link, NowUs(tick)) == DeliveredOrReady(tape, calls, n, link, NowUs(tick))
  {
    var q, past := Run(tape, calls, n).queue, Books(tape, calls, n).delivered;
    var (e, rest) := Pop(q, link, NowUs(tick));
    PollDelivers(tape, calls, n, link, tick);
    PopTakesReady(q, link, NowUs(tick));
    if e.Some? {
      MoveOver(past, e.value, Filter(IsReady(link, NowUs(tick)), rest));
    }
  }

  lemma MoveOver<T>(a: seq<T>, x: T, b: seq<T>)
    ensures (a + [x]) + b == a + ([x] + b)
  {
  }

  /** While a link is polled, what was delivered and what is still ready make up what was ready. */
  lemma {:induction false} PollingTakesReady(tape: seq<Recorded>, calls: seq<Timed>, n: nat, m: nat, link: Link, tick: U64)
    requires n <= m <= |calls| && Polling(calls, n, m, link, tick)
    ensures DeliveredOrReady(tape, calls, m, link, NowUs(tick)) == DeliveredOrReady(tape, calls, n, link, NowUs(tick))
    decreases m
  {
    if n < m {
      PollingTakesReady(tape, calls, n, m - 1, link, tick);
      OnePoll(tape, calls, m - 1, link, tick);
    }
  }

  /** Polling a link at one clock reading, with no other call between, until nothing comes delivers exactly its ready
      events, in queue order. */
  lemma DrainAtOnceDelivers(tape: seq<Recorded>, calls: seq<Timed>, n: nat, m: nat, link: Link, tick: U64)
    requires n <= m < |calls| && Polling(calls, n, m + 1, link, tick) && OutcomeAt(tape, calls, m).QueueEmpty?
    ensures Books(tape, calls, m).delivered
         == Books(tape, calls, n).delivered + Filter(IsReady(link, NowUs(tick)), Run(tape, calls, n).queue)
  {
    PollingTakesReady(tape, calls, n, m, link, tick);
    PopTakesReady(Run(tape, calls, m).queue, link, NowUs(tick));
  }

  /** No ready event stands behind one that is due later. */
  predicate ReadyInDueOrder(q: seq<Event>, link: Link, now: U64) {
    forall i, j :: 0 <= i < j < |q| && Ready(q[i], link, now) && Ready(q[j], link, now) ==> q[i].due <= q[j].due
  }

  lemma SortedTail(x: Event, s: seq<Event>)
    requires SortedByDue([x] + s)
    ensures SortedByDue(s) && forall e :: e in s ==> x.due <= e.due
  {
    var all := [x] + s;
    forall i, j | 0 <= i < j < |s| ensures s[i].due <= s[j].due {
      assert all[i + 1] == s[i] && all[j + 1] == s[j];
    }
    forall e | e in s ensures x.due <= e.due {
      var k :| 0 <= k < |s| && s[k] == e;
      assert all[0] == x && all[k + 1] == e;
    }
  }

  lemma SortedCons(x: Event, s: seq<Event>)
    requires SortedByDue(s) && forall e :: e in s ==> x.due <= e.due
    ensures SortedByDue([x] + s)
  {
    var all := [x] + s;
    forall i, j | 0 <= i < j < |all| ensures all[i].due <= all[j].due {
      assert all[j] == s[j - 1] && s[j - 1] in s;
      assert i > 0 ==> all[i] == s[i - 1];
    }
  }

  lemma ReadyCons(q: seq<Event>, link: Link, now: U64)
    requires q != []
    ensures ReadyInDueOrder(q, link, now) <==>
            && ReadyInDueOrder(q[1..], link, now)
            && (Ready(q[0], link, now) ==> forall e :: e in q[1..] && Ready(e, link, now) ==> q[0].due <= e.due)
  {
    var s := q[1..];
    if ReadyInDueOrder(q, link, now) {
      forall i, j | 0 <= i < j < |s| && Ready(s[i], link, now) && Ready(s[j], link, now) ensures s[i].due <= s[j].due {
        assert s[i] == q[i + 1] && s[j] == q[j + 1];
      }
      forall e | Ready(q[0], link, now) && e in s && Ready(e, link, now) ensures q[0].due <= e.due {
        var k :| 0 <= k < |s| && s[k] == e;
        assert e == q[k + 1];
      }
    } else {
      var i, j :| 0 <= i < j < |q| && Ready(q[i], link, now) && Ready(q[j], link, now) && q[i].due > q[j].due;
      assert q[j] == s[j - 1] && q[j] in s;
      assert i > 0 ==> q[i] == s[i - 1];
    }
  }

  lemma {:induction false} ReadySortedIff(q: seq<Event>, link: Link, now: U64)
    ensures SortedByDue(Filter(IsReady(link, now), q)) <==> ReadyInDueOrder(q, link, now)
  {
    if q != [] {
      var ready := Filter(IsReady(link, now), q[1..]);
      ReadySortedIff(q[1..], link, now);
      ReadyCons(q, link, now);
      forall e ensures e in ready <==> e in q[1..] && Ready(e, link, now) {
        FilterMember(IsReady(link, now), q[1..], e);
      }
      if Ready(q[0], link, now) {
        if SortedByDue([q[0]] + ready) {
          SortedTail(q[0], ready);
        } else if ReadyInDueOrder(q, link, now) {
          SortedCons(q[0], ready);
        }
      }
    }
  }

  /** What such a drain delivers is in due order exactly when, before the first poll, no ready event of the link stood in
      the queue behind one due later. */
  lemma DrainAtOnceInOrderIff(tape: seq<Recorded>, calls: seq<Timed>, n: nat, m: nat, link: Link, tick: U64)
    requires n <= m < |calls| && Polling(calls, n, m + 1, link, tick) && OutcomeAt(tape, calls, m).QueueEmpty?
    ensures var before, after := Books(tape, calls, n).delivered, Books(tape, calls, m).delivered;
            && before <= after
            && (SortedByDue(after[|before|..]) <==> ReadyInDueOrder(Run(tape, calls, n).queue, link, NowUs(tick)))
  {
    DrainAtOnceDelivers(tape, calls, n, m, link, tick);
    ReadySortedIff(Run(tape, calls, n).queue, link, NowUs(tick));
    var before, after := Books(tape, calls, n).delivered, Books(tape, calls, m).delivered;
    assert after[|before|..] == Filter(IsReady(link, NowUs(tick)), Run(tape, calls, n).queue);
  }

  // ---- draining while the clock moves and other calls happen -----------------------------------

  /** Call `k` polls the link and is handed an event. */
  predicate DeliversAt(tape: seq<Recorded>, calls: seq<Timed>, k: nat, link: Link)
    requires k < |calls|
  {
    calls[k].call == Poll(link) && OutcomeAt(tape, calls, k).Delivered?
  }

  function EventAt(tape: seq<Recorded>, calls: seq<Timed>, k: nat): Event
    requires k < |calls| && OutcomeAt(tape, calls, k).Delivered?
  {
    OutcomeAt(tape, calls, k).event
  }

  /** Call `c` cancels the event before any poll from call `k` on delivers it. */
  ghost predicate CancelsFirst(tape: seq<Recorded>, calls: seq<Timed>, k: nat, c: nat, g: Event)
    requires c < |calls|
  {
    calls[c].call == Call.Cancel(g.hCop) && forall j :: k <= j < c ==> OutcomeAt(tape, calls, j) != Delivered(g)
  }

  ghost predicate CanceledFirst(tape: seq<Recorded>, calls: seq<Timed>, k: nat, m: nat, g: Event)
    requires m <= |calls|
  {
    exists c :: k <= c < m && CancelsFirst(tape, calls, k, c, g)
  }

  lemma StaysUnlessTaken(tape: seq<Recorded>, calls: seq<Timed>, k: nat, g: Event)
    requires k < |calls| && g in Run(tape, calls, k).queue
    requires calls[k].call != Call.Cancel(g.hCop) && OutcomeAt(tape, calls, k) != Delivered(g)
    ensures g in Run(tape, calls, k + 1).queue
  {
    var q := Run(tape, calls, k).queue;
    RunStep(tape, calls, k);
    match calls[k].call
    case Start(_, _, _, _) =>
    case Poll(link) => PopLeaves(q, link, NowUs(calls[k].tick), g);
    case Cancel(hCop) => FilterMember(KeepsCop(hCop), q, g);
  }

  lemma PopLeaves(q: seq<Event>, link: Link, now: U64, g: Event)
    requires g in q && Pop(q, link, now).0 != Some(g)
    ensures g in Pop(q, link, now).1
  {
    var i := FirstReady(q, link, now, 0);
    var j :| 0 <= j < |q| && q[j] == g;
    if i < |q| {
      assert Without(q, i)[if j < i then j else j - 1] == g;
    }
  }

  /** An event that no poll delivers and no cancel takes stays queued. */
  lemma {:induction false} StaysUntil(tape: seq<Recorded>, calls: seq<Timed>, k: nat, m: nat, g: Event)
    requires k <= m <= |calls| && g in Run(tape, calls, k).queue && !CanceledFirst(tape, calls, k, m, g)
    requires forall j :: k <= j < m ==> OutcomeAt(tape, calls, j) != Delivered(g)
    ensures g in Run(tape, calls, m).queue
    decreases m
  {
    if k < m {
      assert !CancelsFirst(tape, calls, k, m - 1, g);
      assert forall c :: k <= c < m - 1 ==> !CancelsFirst(tape, calls, k, c, g);
      StaysUntil(tape, calls, k, m - 1, g);
      StaysUnlessTaken(tape, calls, m - 1, g);
    }
  }

  /** When a poll of the link comes back empty, every event of the link that was queued at an earlier call and is due by
      now has been delivered since, unless a cancel took it first; whatever else was called and however the clock went. */
  lemma DrainDeliversDue(tape: seq<Recorded>, calls: seq<Timed>, k: nat, m: nat, g: Event) returns (j: nat)
    requires k <= m < |calls| && calls[m].call == Poll(g.link) && OutcomeAt(tape, calls, m).QueueEmpty?
    requires g in Run(tape, calls, k).queue && g.due <= NowUs(calls[m].tick) && !CanceledFirst(tape, calls, k, m, g)
    ensures k <= j < m && OutcomeAt(tape, calls, j) == Delivered(g)
  {
    if forall l :: k <= l < m ==> OutcomeAt(tape, calls, l) != Delivered(g) {
      StaysUntil(tape, calls, k, m, g);
      DueIsServed(tape, calls, m, g);
      assert false;
    }
    j :| k <= j < m && OutcomeAt(tape, calls, j) == Delivered(g);
  }

  /** At call `k` the event is queued, ready, and due before the one handed out. */
  ghost predicate Undercuts(tape: seq<Recorded>, calls: seq<Timed>, k: nat, g: Event)
    requires k < |calls| && OutcomeAt(tape, calls, k).Delivered?
  {
    && g in Run(tape, calls, k).queue
    && Ready(g, EventAt(tape, calls, k).link, NowUs(calls[k].tick))
    && g.due < EventAt(tape, calls, k).due
  }

  /** The poll at call `k` passes over `g`: it is ready and due before the event handed out, and no cancel before call
      `m` takes it undelivered. */
  ghost predicate PassesOver(tape: seq<Recorded>, calls: seq<Timed>, k: nat, m: nat, g: Event)
    requires k < |calls| && m <= |calls| && OutcomeAt(tape, calls, k).Delivered?
  {
    Undercuts(tape, calls, k, g) && !CanceledFirst(tape, calls, k, m, g)
  }

  lemma DeliveredFrom(tape: seq<Recorded>, calls: seq<Timed>, k: nat)
    requires k < |calls| && OutcomeAt(tape, calls, k).Delivered?
    ensures var e := EventAt(tape, calls, k);
            calls[k].call == Poll(e.link) && e in Run(tape, calls, k).queue && e.due <= NowUs(calls[k].tick)
  {
    var q := Run(tape, calls, k).queue;
    assert calls[k].call.Poll?;
    var i := FirstReady(q, calls[k].call.link, NowUs(calls[k].tick), 0);
    assert EventAt(tape, calls, k) == q[i];
  }

  lemma CancelEmpties(tape: seq<Recorded>, calls: seq<Timed>, c: nat, g: Event)
    requires c < |calls| && calls[c].call == Call.Cancel(g.hCop)
    ensures g !in Run(tape, calls, c + 1).queue
  {
    RunStep(tape, calls, c);
    FilterMember(KeepsCop(g.hCop), Run(tape, calls, c).queue, g);
  }

  /** An event due before what call `i` handed out and delivered at call `j` was not canceled in between. */
  lemma NotCanceledBetween(tape: seq<Recorded>, calls: seq<Timed>, i: nat, j: nat, c: nat, f: Event)
    requires i < c < j < |calls| && Timely(tape, calls) && f.due < NowUs(calls[i].tick)
    requires f in Run(tape, calls, j).queue
    ensures calls[c].call != Call.Cancel(f.hCop)
  {
    if calls[c].call == Call.Cancel(f.hCop) {
      CancelEmpties(tape, calls, c, f);
      QueuedEarlierOrDueLater(tape, calls, c + 1, j, f);
      ClockMonotone(tape, calls, i, c + 1);
    }
  }

  /** Two deliveries of a link out of due order: the first passed over the second. */
  lemma InversionPassesOver(tape: seq<Recorded>, calls: seq<Timed>, i: nat, j: nat, m: nat)
    requires i < j < m <= |calls| && Timely(tape, calls)
    requires OutcomeAt(tape, calls, i).Delivered? && OutcomeAt(tape, calls, j).Delivered?
    requires var e, f := EventAt(tape, calls, i), EventAt(tape, calls, j); e.link == f.link && f.due < e.due
    ensures PassesOver(tape, calls, i, m, EventAt(tape, calls, j))
  {
    var f := EventAt(tape, calls, j);
    DeliveredFrom(tape, calls, i);
    DeliveredFrom(tape, calls, j);
    QueuedEarlierOrDueLater(tape, calls, i, j, f);
    forall c | i <= c < m ensures !CancelsFirst(tape, calls, i, c, f) {
      if i < c < j {
        NotCanceledBetween(tape, calls, i, j, c, f);
      }
    }
  }

  /** The deliveries of the link by the calls from `n` to `m` come in due order. */
  predicate DeliversInOrder(tape: seq<Recorded>, calls: seq<Timed>, n: nat, m: nat, link: Link)
    requires m <= |calls|
  {
    forall i, j :: n <= i < j < m && DeliversAt(tape, calls, i, link) && DeliversAt(tape, calls, j, link) ==>
      EventAt(tape, calls, i).due <= EventAt(tape, calls, j).due
  }

  /** No delivering poll of the link passes over an event. */
  ghost predicate PassesOverNone(tape: seq<Recorded>, calls: seq<Timed>, n: nat, m: nat, link: Link)
    requires m <= |calls|
  {
    forall k, g :: n <= k < m && DeliversAt(tape, calls, k, link) ==> !PassesOver(tape, calls, k, m, g)
  }

  /** On a nondecreasing clock, with any starts, polls and cancels of any link between the polls: what a link delivers up
      to an empty poll is in due order exactly when no delivering poll passed over a ready event that is due before the
      one it handed out and is not canceled first. */
  lemma DrainInDueOrderIff(tape: seq<Recorded>, calls: seq<Timed>, n: nat, m: nat, link: Link)
    requires n <= m < |calls| && Timely(tape, calls)
    requires calls[m].call == Poll(link) && OutcomeAt(tape, calls, m).QueueEmpty?
    ensures DeliversInOrder(tape, calls, n, m, link) <==> PassesOverNone(tape, calls, n, m, link)
  {
    if !DeliversInOrder(tape, calls, n, m, link) {
      var i, j :| n <= i < j < m && DeliversAt(tape, calls, i, link) && DeliversAt(tape, calls, j, link)
                  && EventAt(tape, calls, i).due > EventAt(tape, calls, j).due;
      DeliveredFrom(tape, calls, i);
      DeliveredFrom(tape, calls, j);
      InversionPassesOver(tape, calls, i, j, m);
    }
    if !PassesOverNone(tape, calls, n, m, link) {
      var k, g :| n <= k < m && DeliversAt(tape, calls, k, link) && PassesOver(tape, calls, k, m, g);
      DeliveredFrom(tape, calls, k);
      ClockMonotone(tape, calls, k, m);
      var j := DrainDeliversDue(tape, calls, k, m, g);
      DeliveredFrom(tape, calls, j);
      assert j != k && DeliversAt(tape, calls, j, link);
    }
  }

  /** Without cancels: exactly when every delivering poll hands out an earliest-due one of the link's ready events. */
  lemma DrainWithoutCancels(tape: seq<Recorded>, calls: seq<Timed>, n: nat, m: nat, link: Link)
    requires n <= m < |calls| && Timely(tape, calls)
    requires calls[m].call == Poll(link) && OutcomeAt(tape, calls, m).QueueEmpty?
    requires forall c :: n <= c < m ==> !calls[c].call.Cancel?
    ensures DeliversInOrder(tape, calls, n, m, link) <==>
            forall k :: n <= k < m && DeliversAt(tape, calls, k, link) ==> HandsOutEarliest(tape, calls, k)
  {
    DrainInDueOrderIff(tape, calls, n, m, link);
    forall k | n <= k < m && DeliversAt(tape, calls, k, link)
      ensures HandsOutEarliest(tape, calls, k) <==> forall g :: !PassesOver(tape, calls, k, m, g)
    {
      forall g ensures PassesOver(tape, calls, k, m, g) <==> Undercuts(tape, calls, k, g) {
        assert forall c :: k <= c < m ==> !CancelsFirst(tape, calls, k, c, g);
      }
    }
  }

  ghost predicate HandsOutEarliest(tape: seq<Recorded>, calls: seq<Timed>, k: nat)
    requires k < |calls| && OutcomeAt(tape, calls, k).Delivered?
  {
    forall g :: !Undercuts(tape, calls, k, g)
  }

  // ---- an inversion is reachable ------------------------------------------------------------------

  const SLOW: seq<Byte> := [0, 0, 7, 0xE0, 0x3E]
  const FAST: seq<Byte> := [0, 0, 7, 0xE0, 0x3F]

  /** One request answered after 5 ms, another after 3 ms. */
  const TWO_SPEEDS: seq<Recorded> := [
    Recorded(0x7E0, [0x3E], [Response(0x7E8, [0x7E], 5)]), Recorded(0x7E0, [0x3F], [Response(0x7E8, [0x7F], 3)])]

  /** Both are asked at once, the slower one first, and polled for 10 ms later. */
  const TWO_REQUESTS: seq<Timed> := [
    Timed(0, Start(Link(1, 1), SENDRECV, Some(SLOW), 0)), Timed(0, Start(Link(1, 1), SENDRECV, Some(FAST), 0)),
    Timed(10, Poll(Link(1, 1))), Timed(10, Poll(Link(1, 1)))]

  const SLOW_EVENT := Event(5000, Link(1, 1), FIRST_COP + 1, 0, IT_RESULT, BigEndian(0x7E8) + [0x7E])
  const FAST_EVENT := Event(3000, Link(1, 1), FIRST_COP + 2, 0, IT_RESULT, BigEndian(0x7E8) + [0x7F])

  lemma SlowScheduled()
    ensures Scheduled(TWO_SPEEDS, 0, Link(1, 1), SENDRECV, Some(SLOW), 0, FIRST_COP + 1) == [SLOW_EVENT]
  {
    assert SLOW[4..] == [0x3E];
    LookupDetermined(TWO_SPEEDS, 0x7E0, [0x3E], 0);
    assert CumulativeUs(TWO_SPEEDS[0].responses, 1) == 5000;
  }

  lemma FastScheduled()
    ensures Scheduled(TWO_SPEEDS, 0, Link(1, 1), SENDRECV, Some(FAST), 0, FIRST_COP + 2) == [FAST_EVENT]
  {
    assert FAST[4..] == [0x3F];
    LookupDetermined(TWO_SPEEDS, 0x7E0, [0x3F], 1);
    assert CumulativeUs(TWO_SPEEDS[1].responses, 1) == 3000;
  }

  lemma BothQueued()
    ensures Run(TWO_SPEEDS, TWO_REQUESTS, 2) == State([SLOW_EVENT, FAST_EVENT], FIRST_COP + 2)
  {
    assert Run(TWO_SPEEDS, TWO_REQUESTS, 0) == INITIAL;
    SlowScheduled();
    RunStep(TWO_SPEEDS, TWO_REQUESTS, 0);
    FastScheduled();
    RunStep(TWO_SPEEDS, TWO_REQUESTS, 1);
  }

  lemma SlowFirst()
    ensures OutcomeAt(TWO_SPEEDS, TWO_REQUESTS, 2) == Delivered(SLOW_EVENT)
    ensures Run(TWO_SPEEDS, TWO_REQUESTS, 3).queue == [FAST_EVENT]
  {
    BothQueued();
    RunStep(TWO_SPEEDS, TWO_REQUESTS, 2);
  }

  lemma FastSecond()
    ensures OutcomeAt(TWO_SPEEDS, TWO_REQUESTS, 3) == Delivered(FAST_EVENT)
  {
    SlowFirst();
    RunStep(TWO_SPEEDS, TWO_REQUESTS, 3);
  }

  /** A timely run in which an event is delivered before one of its link that is due earlier. */
  lemma InversionReachable()
    ensures Timely(TWO_SPEEDS, TWO_REQUESTS)
    ensures OutcomeAt(TWO_SPEEDS, TWO_REQUESTS, 2) == Delivered(SLOW_EVENT)
    ensures OutcomeAt(TWO_SPEEDS, TWO_REQUESTS, 3) == Delivered(FAST_EVENT)
    ensures SLOW_EVENT.link == FAST_EVENT.link && FAST_EVENT.due < SLOW_EVENT.due
  {
    SlowFirst();
    FastSecond();
    TwoRequestsTimely();
  }

  lemma TwoRequestsTimely()
    ensures Timely(TWO_SPEEDS, TWO_REQUESTS)
  {
    TwoSpeedsFit();
  }

  lemma TwoSpeedsFit()
    ensures Fits(TWO_SPEEDS, 0)
  {
    assert TotalDelayMs(TWO_SPEEDS[0].responses, 1) == 5 && TotalDelayMs(TWO_SPEEDS[1].responses, 1) == 3;
  }

  // ---- and a clock that moves breaks what held at the first poll ------------------------------------

  /** One request answered after 1 ms and 5 ms, another after 3 ms. */
  const SPREAD: seq<Recorded> := [
    Recorded(0x7E0, [0x3E], [Response(0x7E8, [0x7E], 1), Response(0x7E8, [0x7E], 4)]),
    Recorded(0x7E0, [0x3F], [Response(0x7E8, [0x7F], 3)])]

  const ASKED_AT_ONCE: seq<Timed> := [
    Timed(0, Start(Link(1, 1), SENDRECV, Some(SLOW), 0)), Timed(0, Start(Link(1, 1), SENDRECV, Some(FAST), 0)),
    Timed(1, Poll(Link(1, 1))), Timed(10, Poll(Link(1, 1))), Timed(10, Poll(Link(1, 1))), Timed(10, Poll(Link(1, 1)))]

  const FIRST_EVENT := Event(1000, Link(1, 1), FIRST_COP + 1, 0, IT_RESULT, BigEndian(0x7E8) + [0x7E])

  lemma SpreadScheduled()
    ensures Scheduled(SPREAD, 0, Link(1, 1), SENDRECV, Some(SLOW), 0, FIRST_COP + 1) == [FIRST_EVENT, SLOW_EVENT]
  {
    assert SLOW[4..] == [0x3E];
    LookupDetermined(SPREAD, 0x7E0, [0x3E], 0);
    assert CumulativeUs(SPREAD[0].responses, 1) == 1000;
    assert CumulativeUs(SPREAD[0].responses, 2) == 5000;
  }

  lemma BetweenScheduled()
    ensures Scheduled(SPREAD, 0, Link(1, 1), SENDRECV, Some(FAST), 0, FIRST_COP + 2) == [FAST_EVENT]
  {
    assert FAST[4..] == [0x3F];
    LookupDetermined(SPREAD, 0x7E0, [0x3F], 1);
    assert CumulativeUs(SPREAD[1].responses, 1) == 3000;
  }

  lemma AllQueued()
    ensures Run(SPREAD, ASKED_AT_ONCE, 2) == State([FIRST_EVENT, SLOW_EVENT, FAST_EVENT], FIRST_COP + 2)
  {
    assert Run(SPREAD, ASKED_AT_ONCE, 0) == INITIAL;
    SpreadScheduled();
    RunStep(SPREAD, ASKED_AT_ONCE, 0);
    BetweenScheduled();
    RunStep(SPREAD, ASKED_AT_ONCE, 1);
  }

  lemma FirstPolled()
    ensures OutcomeAt(SPREAD, ASKED_AT_ONCE, 2) == Delivered(FIRST_EVENT)
    ensures Run(SPREAD, ASKED_AT_ONCE, 3).queue == [SLOW_EVENT, FAST_EVENT]
  {
    AllQueued();
    RunStep(SPREAD, ASKED_AT_ONCE, 2);
  }

  lemma SlowPolled()
    ensures OutcomeAt(SPREAD, ASKED_AT_ONCE, 3) == Delivered(SLOW_EVENT)
    ensures Run(SPREAD, ASKED_AT_ONCE, 4).queue == [FAST_EVENT]
  {
    FirstPolled();
    RunStep(SPREAD, ASKED_AT_ONCE, 3);
  }

  lemma FastPolled()
    ensures OutcomeAt(SPREAD, ASKED_AT_ONCE, 4) == Delivered(FAST_EVENT)
    ensures Run(SPREAD, ASKED_AT_ONCE, 5).queue == []
  {
    SlowPolled();
    RunStep(SPREAD, ASKED_AT_ONCE, 4);
  }

  lemma SpreadTimely()
    ensures Timely(SPREAD, ASKED_AT_ONCE)
  {
    var a, b := SPREAD[0].responses, SPREAD[1].responses;
    assert TotalDelayMs(a, 1) == 1 && TotalDelayMs(a, 2) == 5 && TotalDelayMs(b, 1) == 3;
    assert Fits(SPREAD, 0);
  }

  lemma ReadyAtFirst()
    ensures ReadyInDueOrder(Run(SPREAD, ASKED_AT_ONCE, 2).queue, Link(1, 1), NowUs(1))
  {
    AllQueued();
    assert NowUs(1) == 1000;
  }

  /** A timely run in which, before the first poll, no ready event stands behind one due later; yet the polls, the clock
      moving between them, deliver what is due at 1, 5 and 3 ms, in this order, before one finds nothing. */
  lemma MovingClockInverts()
    ensures Timely(SPREAD, ASKED_AT_ONCE)
    ensures ReadyInDueOrder(Run(SPREAD, ASKED_AT_ONCE, 2).queue, Link(1, 1), NowUs(1))
    ensures OutcomeAt(SPREAD, ASKED_AT_ONCE, 2) == Delivered(FIRST_EVENT)
    ensures OutcomeAt(SPREAD, ASKED_AT_ONCE, 3) == Delivered(SLOW_EVENT)
    ensures OutcomeAt(SPREAD, ASKED_AT_ONCE, 4) == Delivered(FAST_EVENT)
    ensures OutcomeAt(SPREAD, ASKED_AT_ONCE, 5).QueueEmpty?
    ensures !DeliversInOrder(SPREAD, ASKED_AT_ONCE, 2, 5, Link(1, 1))
  {
    SpreadTimely();
    ReadyAtFirst();
    FirstPolled();
    SlowPolled();
    FastPolled();
    assert DeliversAt(SPREAD, ASKED_AT_ONCE, 3, Link(1, 1)) && DeliversAt(SPREAD, ASKED_AT_ONCE, 4, Link(1, 1));
    assert EventAt(SPREAD, ASKED_AT_ONCE, 3).due == 5000 && EventAt(SPREAD, ASKED_AT_ONCE, 4).due == 3000;
  }
}
