/** What holds over every run of the replay engine. */
module RunProperties {
  import opened Bytes
  import opened Seqs
  import opened EventQueue
  import opened Recording
  import opened Replay

  /** One more call is one step. */
  lemma RunStep(tape: seq<Recorded>, calls: seq<Timed>, n: nat)
    requires n < |calls|
    ensures (Run(tape, calls, n + 1), OutcomeAt(tape, calls, n)) == Step(tape, Run(tape, calls, n), calls[n])
  {
  }

  // ---- conservation ---------------------------------------------------------------------------

  lemma {:induction false} FilterSplit<T>(p: T -> bool, q: T -> bool, s: seq<T>)
    requires forall x :: p(x) <==> !q(x)
    ensures multiset(s) == multiset(Filter(p, s)) + multiset(Filter(q, s))
  {
    if s != [] {
      FilterSplit(p, q, s[1..]);
      assert s == [s[0]] + s[1..];
    }
  }

  lemma PopConserves(q: seq<Event>, link: Link, now: U64)
    ensures var (e, rest) := Pop(q, link, now);
            multiset(q) == multiset(rest) + (match e case Some(x) => multiset{x} case None => multiset{})
  {
    var i := FirstReady(q, link, now, 0);
    if i < |q| {
      assert q == q[..i] + [q[i]] + q[i + 1..];
    }
  }

  predicate Balanced(l: Ledger) {
    BalancedParts(l.scheduled, l.delivered, l.canceled, l.state.queue)
  }

  predicate BalancedParts(scheduled: seq<Event>, delivered: seq<Event>, canceled: seq<Event>, queue: seq<Event>) {
    multiset(scheduled) == multiset(delivered) + multiset(canceled) + multiset(queue)
  }

  lemma PushBalance(scheduled: seq<Event>, delivered: seq<Event>, canceled: seq<Event>, queue: seq<Event>, events: seq<Event>)
    requires BalancedParts(scheduled, delivered, canceled, queue)
    ensures BalancedParts(scheduled + events, delivered, canceled, queue + events)
  {
  }

  lemma PollBalance(scheduled: seq<Event>, delivered: seq<Event>, canceled: seq<Event>, queue: seq<Event>, link: Link, now: U64)
    requires BalancedParts(scheduled, delivered, canceled, queue)
    ensures var (e, rest) := Pop(queue, link, now);
            BalancedParts(scheduled, delivered + (match e case Some(x) => [x] case None => []), canceled, rest)
  {
    PopConserves(queue, link, now);
  }

  lemma CancelBalance(scheduled: seq<Event>, delivered: seq<Event>, canceled: seq<Event>, queue: seq<Event>, hCop: U32)
    requires BalancedParts(scheduled, delivered, canceled, queue)
    ensures BalancedParts(scheduled, delivered, canceled + Filter(HasCop(hCop), queue), EventQueue.Cancel(queue, hCop))
  {
    FilterSplit(HasCop(hCop), KeepsCop(hCop), queue);
  }

  lemma StepKeepsBalance(tape: seq<Recorded>, l: Ledger, c: Timed)
    requires Balanced(l)
    ensures Balanced(Enter(tape, l, c))
  {
    match c.call
    case Start(link, copType, data, tag) =>
      var events := Scheduled(tape, c.tick, link, copType, data, tag, NextCop(l.state.nextCop));
      PushBalance(l.scheduled, l.delivered, l.canceled, l.state.queue, events);
    case Poll(link) => PollBalance(l.scheduled, l.delivered, l.canceled, l.state.queue, link, NowUs(c.tick));
    case Cancel(hCop) => CancelBalance(l.scheduled, l.delivered, l.canceled, l.state.queue, hCop);
  }

  lemma BooksStep(tape: seq<Recorded>, calls: seq<Timed>, n: nat)
    requires n < |calls|
    ensures Books(tape, calls, n + 1) == Enter(tape, Books(tape, calls, n), calls[n])
  {
  }

  /** Whatever the calls, every scheduled event is delivered once, canceled once, or still queued. */
  lemma {:induction false} Conservation(tape: seq<Recorded>, calls: seq<Timed>, n: nat)
    requires n <= |calls|
    ensures Balanced(Books(tape, calls, n))
  {
    if n > 0 {
      Conservation(tape, calls, n - 1);
      StepKeepsBalance(tape, Books(tape, calls, n - 1), calls[n - 1]);
      BooksStep(tape, calls, n - 1);
    }
  }

  // ---- handles -----------------------------------------------------------------------------------

  function Starts(calls: seq<Timed>, n: nat): (k: nat)
    requires n <= |calls|
    ensures k <= n
  {
    if n == 0 then 0 else Starts(calls, n - 1) + (if calls[n - 1].call.Start? then 1 else 0)
  }

  lemma NextCopCounts(k: nat)
    ensures NextCop((FIRST_COP + k) % TWO32) == (FIRST_COP + k + 1) % TWO32
  {
  }

  lemma StepCounts(tape: seq<Recorded>, s: State, c: Timed)
    ensures Step(tape, s, c).0.nextCop == if c.call.Start? then NextCop(s.nextCop) else s.nextCop
  {
  }

  lemma {:induction false} CounterCountsStarts(tape: seq<Recorded>, calls: seq<Timed>, n: nat)
    requires n <= |calls|
    ensures Run(tape, calls, n).nextCop == (FIRST_COP + Starts(calls, n)) % TWO32
  {
    if n > 0 {
      CounterCountsStarts(tape, calls, n - 1);
      NextCopCounts(Starts(calls, n - 1));
      StepCounts(tape, Run(tape, calls, n - 1), calls[n - 1]);
      RunStep(tape, calls, n - 1);
    }
  }

  lemma {:induction false} StartsMonotone(calls: seq<Timed>, m: nat, n: nat)
    requires m <= n <= |calls|
    ensures Starts(calls, m) <= Starts(calls, n)
    decreases n
  {
    if m < n {
      StartsMonotone(calls, m, n - 1);
    }
  }

  /** The handle call `i` hands out when it is a start. */
  function HandleOf(tape: seq<Recorded>, calls: seq<Timed>, i: nat): U32
    requires i < |calls|
  {
    NextCop(Run(tape, calls, i).nextCop)
  }

  lemma HandleIsCount(tape: seq<Recorded>, calls: seq<Timed>, i: nat)
    requires i < |calls|
    ensures HandleOf(tape, calls, i) == (FIRST_COP + Starts(calls, i) + 1) % TWO32
  {
    CounterCountsStarts(tape, calls, i);
    NextCopCounts(Starts(calls, i));
  }

  lemma StartReports(tape: seq<Recorded>, calls: seq<Timed>, i: nat)
    requires i < |calls| && calls[i].call.Start?
    ensures OutcomeAt(tape, calls, i) == Started(HandleOf(tape, calls, i))
  {
  }

  /** A start is given 0x10000 and the number of starts so far, itself included, in 32 bits. */
  lemma HandleGiven(tape: seq<Recorded>, calls: seq<Timed>, i: nat)
    requires i < |calls| && calls[i].call.Start?
    ensures OutcomeAt(tape, calls, i) == Started((0x10000 + Starts(calls, i) + 1) % 0x1_0000_0000)
  {
    HandleIsCount(tape, calls, i);
    StartReports(tape, calls, i);
  }

  lemma SameResidue(a: nat, b: nat)
    requires a <= b
    ensures a % TWO32 == b % TWO32 <==> (b - a) % TWO32 == 0
  {
    var d := b - a;
    assert b == a / TWO32 * TWO32 + d / TWO32 * TWO32 + (a % TWO32 + d % TWO32);
  }

  /** Two starts get the same handle exactly when a multiple of 2^32 starts lies between them. */
  lemma HandlesCollideIff(tape: seq<Recorded>, calls: seq<Timed>, i: nat, j: nat)
    requires i < j < |calls| && calls[i].call.Start? && calls[j].call.Start?
    ensures HandleOf(tape, calls, i) == HandleOf(tape, calls, j)
       <==> (Starts(calls, j) - Starts(calls, i)) % TWO32 == 0
  {
    HandleIsCount(tape, calls, i);
    HandleIsCount(tape, calls, j);
    StartsMonotone(calls, i, j);
    SameResidue(FIRST_COP + Starts(calls, i) + 1, FIRST_COP + Starts(calls, j) + 1);
  }

  lemma StartsGrow(calls: seq<Timed>, i: nat, j: nat)
    requires i < j <= |calls| && calls[i].call.Start?
    ensures Starts(calls, i) < Starts(calls, j) <= Starts(calls, |calls|)
  {
    assert Starts(calls, i + 1) == Starts(calls, i) + 1;
    StartsMonotone(calls, i + 1, j);
    StartsMonotone(calls, j, |calls|);
  }

  lemma NoMultiple(d: int)
    requires 0 < d < TWO32
    ensures d % TWO32 != 0
  {
  }

  /** So the handles of fewer than 2^32 starts are all different. */
  lemma HandlesDistinct(tape: seq<Recorded>, calls: seq<Timed>, i: nat, j: nat)
    requires i < j < |calls| && calls[i].call.Start? && calls[j].call.Start?
    requires Starts(calls, |calls|) < TWO32
    ensures HandleOf(tape, calls, i) != HandleOf(tape, calls, j)
  {
    HandlesCollideIff(tape, calls, i, j);
    StartsGrow(calls, i, j);
    NoMultiple(Starts(calls, j) - Starts(calls, i));
  }

  // ---- what one start schedules ---------------------------------------------------------------------

  predicate SortedByDue(s: seq<Event>) {
    forall i, j :: 0 <= i < j < |s| ==> s[i].due <= s[j].due
  }

  predicate OfPrimitive(s: seq<Event>, hCop: U32, link: Link) {
    forall i :: 0 <= i < |s| ==> s[i].hCop == hCop && s[i].link == link
  }

  predicate StartsFit(tape: seq<Recorded>, calls: seq<Timed>) {
    forall i :: 0 <= i < |calls| && calls[i].call.Start? ==> Fits(tape, calls[i].tick)
  }

  lemma ScheduledShape(tape: seq<Recorded>, tick: U64, link: Link, copType: U32, data: Option<seq<Byte>>, tag: int, hCop: U32)
    ensures OfPrimitive(Scheduled(tape, tick, link, copType, data, tag, hCop), hCop, link)
  {
  }

  /** One call's events come in due order, none before the call. */
  lemma ScheduledInOrder(tape: seq<Recorded>, tick: U64, link: Link, copType: U32, data: Option<seq<Byte>>, tag: int, hCop: U32)
    requires Fits(tape, tick)
    ensures var s := Scheduled(tape, tick, link, copType, data, tag, hCop);
            SortedByDue(s) && forall i :: 0 <= i < |s| ==> tick * 1000 <= s[i].due
  {
    if IsRequest(copType, data) {
      var canId, uds := RequestId(data.value), RequestUds(data.value);
      var k := FirstMatch(tape, canId, uds, 0);
      if k < |tape| {
        var rs := tape[k].responses;
        var s := ResponseEvents(rs, |rs|, NowUs(tick), link, hCop, tag);
        forall i | 0 <= i < |s| ensures s[i].due == tick * 1000 + TotalDelayMs(rs, i + 1) * 1000 {
          DueTimes(rs, |rs|, i, tick, link, hCop, tag);
        }
        forall i, j | 0 <= i < j < |s| ensures s[i].due <= s[j].due {
          TotalDelayMonotone(rs, i + 1, j + 1);
        }
      } else {
        SumWithoutWrap(tick * 1000, NRC_DELAY_US);
      }
    }
  }

  // ---- order per primitive ----------------------------------------------------------------------------

  function Of(hCop: U32, s: seq<Event>): seq<Event> {
    Filter(HasCop(hCop), s)
  }

  lemma OfAppend(hCop: U32, a: seq<Event>, b: seq<Event>)
    ensures Of(hCop, a + b) == Of(hCop, a) + Of(hCop, b)
  {
    FilterAppend(HasCop(hCop), a, b);
  }

  lemma OfPrimitiveEvents(s: seq<Event>, c: U32, link: Link, hCop: U32)
    requires OfPrimitive(s, c, link)
    ensures Of(hCop, s) == if hCop == c then s else []
  {
    if hCop == c {
      FilterAll(HasCop(hCop), s);
    } else {
      FilterNone(HasCop(hCop), s);
    }
  }

  /** What is known of primitive `h`: its scheduled list, in due order and on one link, is what was delivered,
      then what was canceled, then what is queued; and nothing of it is queued once some of it was canceled. */
  ghost predicate InOrder(scheduled: seq<Event>, delivered: seq<Event>, canceled: seq<Event>, queue: seq<Event>, h: U32) {
    && Of(h, scheduled) == Of(h, delivered) + Of(h, canceled) + Of(h, queue)
    && (Of(h, canceled) != [] ==> Of(h, queue) == [])
    && SortedByDue(Of(h, scheduled))
    && (exists link :: OfPrimitive(Of(h, scheduled), h, link))
  }

  ghost predicate LedgerInOrder(l: Ledger, h: U32) {
    InOrder(l.scheduled, l.delivered, l.canceled, l.state.queue, h)
  }

  lemma NothingOfPrimitiveBefore(q: seq<Event>, i: nat, link: Link, now: U64, h: U32, own: Link)
    requires i < |q| && q[i].hCop == h && Ready(q[i], link, now)
    requires forall j :: 0 <= j < i ==> !Ready(q[j], link, now)
    requires SortedByDue(Of(h, q)) && OfPrimitive(Of(h, q), h, own)
    ensures Of(h, q[..i]) == []
  {
    assert q == q[..i] + q[i..];
    OfAppend(h, q[..i], q[i..]);
    assert q[i..][0] == q[i];
    var m := |Of(h, q[..i])|;
    assert Of(h, q)[m] == q[i];
    if m > 0 {
      var f := Of(h, q)[0];
      FilterMember(HasCop(h), q[..i], f);
      assert Ready(f, link, now);
    }
  }

  /** Taking out the first ready event takes out the first event of its primitive. */
  lemma PopTakesFirst(q: seq<Event>, link: Link, now: U64, h: U32, own: Link)
    requires SortedByDue(Of(h, q)) && OfPrimitive(Of(h, q), h, own)
    ensures var (e, rest) := Pop(q, link, now);
            Of(h, q) == Of(h, match e case Some(x) => [x] case None => []) + Of(h, rest)
  {
    var i := FirstReady(q, link, now, 0);
    if i < |q| {
      var e := q[i];
      if e.hCop == h {
        NothingOfPrimitiveBefore(q, i, link, now, h, own);
      }
      AroundAt(q, i);
      FilterAround(HasCop(h), q[..i], q[i], q[i + 1..]);
      FilterOne(HasCop(h), e);
    }
  }

  lemma CancelByPrimitive(q: seq<Event>, c: U32, h: U32)
    ensures Of(h, EventQueue.Cancel(q, c)) == if h == c then [] else Of(h, q)
    ensures Of(h, Filter(HasCop(c), q)) == if h == c then Of(h, q) else []
  {
    var kept, gone := EventQueue.Cancel(q, c), Filter(HasCop(c), q);
    forall x ensures x in kept ==> x.hCop != c {
      FilterMember(KeepsCop(c), q, x);
    }
    forall x ensures x in gone ==> x.hCop == c {
      FilterMember(HasCop(c), q, x);
    }
    if h == c {
      FilterNone(HasCop(h), kept);
      FilterAll(HasCop(h), gone);
    } else {
      FilterNone(HasCop(h), gone);
      FilterCommutes(HasCop(h), KeepsCop(c), q);
      forall x ensures x in Of(h, q) ==> x.hCop == h {
        FilterMember(HasCop(h), q, x);
      }
      FilterAll(KeepsCop(c), Of(h, q));
    }
  }

  lemma StartKeepsOrder(scheduled: seq<Event>, delivered: seq<Event>, canceled: seq<Event>, queue: seq<Event>,
                        events: seq<Event>, cop: U32, link: Link, h: U32)
    requires InOrder(scheduled, delivered, canceled, queue, h)
    requires Of(cop, scheduled) == [] && OfPrimitive(events, cop, link) && SortedByDue(events)
    ensures InOrder(scheduled + events, delivered, canceled, queue + events, h)
  {
    OfPrimitiveEvents(events, cop, link, h);
    OfAppend(h, scheduled, events);
    OfAppend(h, queue, events);
    var own :| OfPrimitive(Of(h, scheduled), h, own);
    assert OfPrimitive(Of(h, scheduled + events), h, if h == cop then link else own);
  }

  lemma PollKeepsOrder(scheduled: seq<Event>, delivered: seq<Event>, canceled: seq<Event>, queue: seq<Event>,
                       link: Link, now: U64, h: U32)
    requires InOrder(scheduled, delivered, canceled, queue, h)
    ensures var (e, rest) := Pop(queue, link, now);
            InOrder(scheduled, delivered + (match e case Some(x) => [x] case None => []), canceled, rest, h)
  {
    var own :| OfPrimitive(Of(h, scheduled), h, own);
    var past := Of(h, delivered) + Of(h, canceled);
    assert Of(h, queue) == Of(h, scheduled)[|past|..];
    PopTakesFirst(queue, link, now, h, own);
    var (e, rest) := Pop(queue, link, now);
    var taken := match e case Some(x) => [x] case None => [];
    OfAppend(h, delivered, taken);
    if e.Some? {
      FilterOne(HasCop(h), e.value);
    }
    TakeAcross(Of(h, delivered), Of(h, canceled), Of(h, queue), Of(h, taken), Of(h, rest));
  }

  /** A first part may move across an empty one. */
  lemma TakeAcross<T>(a: seq<T>, b: seq<T>, c: seq<T>, taken: seq<T>, rest: seq<T>)
    requires c == taken + rest && (b != [] ==> c == [])
    ensures a + b + c == (a + taken) + b + rest
    ensures b != [] ==> rest == []
  {
  }

  lemma CancelKeepsOrder(scheduled: seq<Event>, delivered: seq<Event>, canceled: seq<Event>, queue: seq<Event>,
                         cop: U32, h: U32)
    requires InOrder(scheduled, delivered, canceled, queue, h)
    ensures InOrder(scheduled, delivered, canceled + Filter(HasCop(cop), queue), EventQueue.Cancel(queue, cop), h)
  {
    CancelByPrimitive(queue, cop, h);
    OfAppend(h, canceled, Filter(HasCop(cop), queue));
    MoveAcross(Of(h, delivered), Of(h, canceled), Of(h, queue));
  }

  /** A last part may move into the part before it. */
  lemma MoveAcross<T>(a: seq<T>, b: seq<T>, c: seq<T>)
    ensures a + b + c == a + (b + c) + [] == a + (b + []) + c
  {
  }

  /** Every scheduled event bears the handle of some earlier start. */
  lemma {:induction false} ScheduledByStart(tape: seq<Recorded>, calls: seq<Timed>, n: nat, e: Event)
    requires n <= |calls| && e in Books(tape, calls, n).scheduled
    ensures exists i :: 0 <= i < n && calls[i].call.Start? && e.hCop == HandleOf(tape, calls, i)
  {
    var before := Books(tape, calls, n - 1).scheduled;
    if e in before {
      ScheduledByStart(tape, calls, n - 1, e);
    } else {
      var Start(link, copType, data, tag) := calls[n - 1].call;
      ScheduledShape(tape, calls[n - 1].tick, link, copType, data, tag, HandleOf(tape, calls, n - 1));
    }
  }

  /** A start's handle is new: nothing was ever scheduled under it. */
  lemma HandleIsNew(tape: seq<Recorded>, calls: seq<Timed>, n: nat)
    requires n < |calls| && calls[n].call.Start?
    requires Starts(calls, |calls|) < TWO32
    ensures Of(HandleOf(tape, calls, n), Books(tape, calls, n).scheduled) == []
  {
    var h := HandleOf(tape, calls, n);
    forall e | e in Books(tape, calls, n).scheduled ensures e.hCop != h {
      ScheduledByStart(tape, calls, n, e);
      var i :| 0 <= i < n && calls[i].call.Start? && e.hCop == HandleOf(tape, calls, i);
      HandlesDistinct(tape, calls, i, n);
    }
    FilterNone(HasCop(h), Books(tape, calls, n).scheduled);
  }

  lemma StepKeepsOrder(tape: seq<Recorded>, l: Ledger, c: Timed, h: U32)
    requires LedgerInOrder(l, h)
    requires c.call.Start? ==> Fits(tape, c.tick) && Of(NextCop(l.state.nextCop), l.scheduled) == []
    ensures LedgerInOrder(Enter(tape, l, c), h)
  {
    var q := l.state.queue;
    match c.call
    case Start(link, copType, data, tag) =>
      var cop := NextCop(l.state.nextCop);
      var events := Scheduled(tape, c.tick, link, copType, data, tag, cop);
      ScheduledShape(tape, c.tick, link, copType, data, tag, cop);
      ScheduledInOrder(tape, c.tick, link, copType, data, tag, cop);
      StartKeepsOrder(l.scheduled, l.delivered, l.canceled, q, events, cop, link, h);
    case Poll(link) => PollKeepsOrder(l.scheduled, l.delivered, l.canceled, q, link, NowUs(c.tick), h);
    case Cancel(cop) => CancelKeepsOrder(l.scheduled, l.delivered, l.canceled, q, cop, h);
  }

  lemma NothingInOrder(h: U32)
    ensures LedgerInOrder(Ledger(INITIAL, [], [], []), h)
  {
    assert OfPrimitive([], h, Link(0, 0));
  }

  ghost predicate OrderedAfter(tape: seq<Recorded>, calls: seq<Timed>, n: nat, h: U32)
    requires n <= |calls|
  {
    LedgerInOrder(Books(tape, calls, n), h)
  }

  lemma OrderStep(tape: seq<Recorded>, calls: seq<Timed>, n: nat, h: U32)
    requires n < |calls| && Starts(calls, |calls|) < TWO32 && StartsFit(tape, calls)
    requires OrderedAfter(tape, calls, n, h)
    ensures OrderedAfter(tape, calls, n + 1, h)
  {
    if calls[n].call.Start? {
      HandleIsNew(tape, calls, n);
    }
    StepKeepsOrder(tape, Books(tape, calls, n), calls[n], h);
    BooksStep(tape, calls, n);
  }

  lemma OrderedAtStart(tape: seq<Recorded>, calls: seq<Timed>, h: U32)
    ensures forall k :: 0 <= k <= 0 ==> OrderedAfter(tape, calls, k, h)
  {
    NothingInOrder(h);
    assert Books(tape, calls, 0) == Ledger(INITIAL, [], [], []);
  }

  lemma OrderStepUpTo(tape: seq<Recorded>, calls: seq<Timed>, n: nat, h: U32)
    requires n < |calls| && Starts(calls, |calls|) < TWO32 && StartsFit(tape, calls)
    requires forall k :: 0 <= k <= n ==> OrderedAfter(tape, calls, k, h)
    ensures forall k :: 0 <= k <= n + 1 ==> OrderedAfter(tape, calls, k, h)
  {
    OrderStep(tape, calls, n, h);
  }

  lemma {:induction false} AlwaysOrdered(tape: seq<Recorded>, calls: seq<Timed>, n: nat, h: U32)
    requires n <= |calls|
    requires Starts(calls, |calls|) < TWO32 && StartsFit(tape, calls)
    ensures forall k :: 0 <= k <= n ==> OrderedAfter(tape, calls, k, h)
  {
    if n == 0 {
      OrderedAtStart(tape, calls, h);
    } else {
      AlwaysOrdered(tape, calls, n - 1, h);
      OrderStepUpTo(tape, calls, n - 1, h);
    }
  }

  /** In every run of fewer than 2^32 starts whose due times fit 64 bits, every primitive is in order. */
  lemma PrimitiveOrder(tape: seq<Recorded>, calls: seq<Timed>, n: nat, h: U32)
    requires n <= |calls|
    requires Starts(calls, |calls|) < TWO32 && StartsFit(tape, calls)
    ensures LedgerInOrder(Books(tape, calls, n), h)
  {
    AlwaysOrdered(tape, calls, n, h);
    assert OrderedAfter(tape, calls, n, h);
  }

  /** So what a caller has received for a primitive is a prefix of what was recorded for it, in due order. */
  lemma DeliveryIsPrefix(tape: seq<Recorded>, calls: seq<Timed>, n: nat, h: U32)
    requires n <= |calls|
    requires Starts(calls, |calls|) < TWO32 && StartsFit(tape, calls)
    ensures var l := Books(tape, calls, n);
            && Of(h, l.delivered) <= Of(h, l.scheduled)
            && SortedByDue(Of(h, l.delivered))
  {
    PrimitiveOrder(tape, calls, n, h);
  }

  // ---- lateness -------------------------------------------------------------------------------------

  predicate Nondecreasing(calls: seq<Timed>) {
    forall i, j :: 0 <= i < j < |calls| ==> calls[i].tick <= calls[j].tick
  }

  /** No event is handed out before its due time. */
  lemma NeverEarly(tape: seq<Recorded>, calls: seq<Timed>, i: nat)
    requires i < |calls| && OutcomeAt(tape, calls, i).Delivered?
    ensures OutcomeAt(tape, calls, i).event.due <= calls[i].tick * 1000 % 0x1_0000_0000_0000_0000
  {
  }

  /** The clock at the last poll of the link among the first `n` calls that found nothing, 0 before any. */
  function LastEmpty(tape: seq<Recorded>, calls: seq<Timed>, n: nat, link: Link): U64
    requires n <= |calls|
  {
    if n == 0 then 0
    else if calls[n - 1].call == Poll(link) && OutcomeAt(tape, calls, n - 1).QueueEmpty? then NowUs(calls[n - 1].tick)
    else LastEmpty(tape, calls, n - 1, link)
  }

  predicate Timely(tape: seq<Recorded>, calls: seq<Timed>) {
    Nondecreasing(calls) && StartsFit(tape, calls) && forall i :: 0 <= i < |calls| ==> calls[i].tick * 1000 < TWO64
  }

  lemma {:induction false} LastEmptyPast(tape: seq<Recorded>, calls: seq<Timed>, n: nat, link: Link, i: nat)
    requires n <= i < |calls| && Timely(tape, calls)
    ensures LastEmpty(tape, calls, n, link) <= NowUs(calls[i].tick)
  {
    if n > 0 {
      LastEmptyPast(tape, calls, n - 1, link, i);
      ClockMonotone(tape, calls, n - 1, i);
    }
  }

  lemma ClockMonotone(tape: seq<Recorded>, calls: seq<Timed>, i: nat, j: nat)
    requires i <= j < |calls| && Timely(tape, calls)
    ensures NowUs(calls[i].tick) <= NowUs(calls[j].tick)
    ensures NowUs(calls[i].tick) == calls[i].tick * 1000
  {
    assert NowUs(calls[i].tick) == calls[i].tick * 1000;
    assert NowUs(calls[j].tick) == calls[j].tick * 1000;
  }

  /** After one call every queued event was queued before it or is due no earlier than the call. */
  lemma StepAddsLater(tape: seq<Recorded>, calls: seq<Timed>, n: nat, e: Event)
    requires n < |calls| && Timely(tape, calls)
    requires e in Run(tape, calls, n + 1).queue
    ensures e in Run(tape, calls, n).queue || (calls[n].call.Start? && NowUs(calls[n].tick) <= e.due)
  {
    var q := Run(tape, calls, n).queue;
    match calls[n].call
    case Start(link, copType, data, tag) =>
      ClockMonotone(tape, calls, n, n);
      ScheduledInOrder(tape, calls[n].tick, link, copType, data, tag, NextCop(Run(tape, calls, n).nextCop));
    case Poll(_) =>
    case Cancel(hCop) => FilterMember(KeepsCop(hCop), q, e);
  }

  /** What an empty poll leaves on its link is due later. */
  lemma EmptyPollLeavesLater(tape: seq<Recorded>, calls: seq<Timed>, i: nat, e: Event)
    requires i < |calls| && calls[i].call == Poll(e.link) && OutcomeAt(tape, calls, i).QueueEmpty?
    requires e in Run(tape, calls, i + 1).queue
    ensures NowUs(calls[i].tick) < e.due
  {
    var q := Run(tape, calls, i).queue;
    PopEmptyIff(q, e.link, NowUs(calls[i].tick));
    assert Run(tape, calls, i + 1).queue == q;
    var k :| 0 <= k < |q| && q[k] == e;
    assert !Ready(q[k], e.link, NowUs(calls[i].tick));
  }

  lemma LastEmptyStep(tape: seq<Recorded>, calls: seq<Timed>, n: nat, link: Link)
    requires n < |calls|
    ensures LastEmpty(tape, calls, n + 1, link) ==
            if calls[n].call == Poll(link) && OutcomeAt(tape, calls, n).QueueEmpty? then NowUs(calls[n].tick)
            else LastEmpty(tape, calls, n, link)
  {
  }

  lemma DueAfterStep(tape: seq<Recorded>, calls: seq<Timed>, n: nat, e: Event)
    requires n < |calls| && Timely(tape, calls)
    requires e in Run(tape, calls, n + 1).queue
    requires e in Run(tape, calls, n).queue ==> LastEmpty(tape, calls, n, e.link) <= e.due
    ensures LastEmpty(tape, calls, n + 1, e.link) <= e.due
  {
    LastEmptyStep(tape, calls, n, e.link);
    LastEmptyPast(tape, calls, n, e.link, n);
    StepAddsLater(tape, calls, n, e);
    if calls[n].call == Poll(e.link) && OutcomeAt(tape, calls, n).QueueEmpty? {
      EmptyPollLeavesLater(tape, calls, n, e);
    }
  }

  /** Every queued event of a link is due no earlier than that link's last empty poll. */
  lemma {:induction false} QueuedAfterLastEmpty(tape: seq<Recorded>, calls: seq<Timed>, n: nat, e: Event)
    requires n <= |calls| && Timely(tape, calls)
    requires e in Run(tape, calls, n).queue
    ensures LastEmpty(tape, calls, n, e.link) <= e.due
  {
    if n > 0 {
      if e in Run(tape, calls, n - 1).queue {
        QueuedAfterLastEmpty(tape, calls, n - 1, e);
      }
      DueAfterStep(tape, calls, n - 1, e);
    }
  }

  /** What is queued at call `j` was queued at call `i` already, or is due no earlier than call `i`. */
  lemma {:induction false} QueuedEarlierOrDueLater(tape: seq<Recorded>, calls: seq<Timed>, i: nat, j: nat, e: Event)
    requires i <= j <= |calls| && i < |calls| && Timely(tape, calls)
    requires e in Run(tape, calls, j).queue
    ensures e in Run(tape, calls, i).queue || NowUs(calls[i].tick) <= e.due
    decreases j
  {
    if i < j {
      StepAddsLater(tape, calls, j - 1, e);
      ClockMonotone(tape, calls, i, j - 1);
      if e in Run(tape, calls, j - 1).queue {
        QueuedEarlierOrDueLater(tape, calls, i, j - 1, e);
      }
    }
  }

  /** Events of a link can be delivered out of due order, but the inversion is bounded by the time since the
      link's last empty poll. */
  lemma BoundedInversion(tape: seq<Recorded>, calls: seq<Timed>, i: nat, j: nat, e: Event, f: Event)
    requires i < j < |calls| && Timely(tape, calls)
    requires OutcomeAt(tape, calls, i) == Delivered(e) && OutcomeAt(tape, calls, j) == Delivered(f)
    requires e.link == f.link && f.due < e.due
    ensures e.due - f.due <= NowUs(calls[i].tick) - LastEmpty(tape, calls, i, e.link)
  {
    var q := Run(tape, calls, j).queue;
    assert f in q;
    QueuedEarlierOrDueLater(tape, calls, i, j, f);
    NeverEarly(tape, calls, i);
    QueuedAfterLastEmpty(tape, calls, i, f);
  }

  /** A due event is never missed: while one of the link is queued and due, a poll delivers something. */
  lemma DueIsServed(tape: seq<Recorded>, calls: seq<Timed>, i: nat, e: Event)
    requires i < |calls| && calls[i].call == Poll(e.link)
    requires e in Run(tape, calls, i).queue && e.due <= calls[i].tick * 1000 % 0x1_0000_0000_0000_0000
    ensures OutcomeAt(tape, calls, i).Delivered?
  {
    var q := Run(tape, calls, i).queue;
    var k :| 0 <= k < |q| && q[k] == e;
    assert Ready(q[k], e.link, NowUs(calls[i].tick));
  }

  // ---- history independence -----------------------------------------------------------------------------

  /** Two starts of the same request schedule the same payloads, shifted by the difference of their clocks,
      whatever was called before and between; only handle, link and tag are their own. */
  lemma HistoryIndependence(tape: seq<Recorded>, calls: seq<Timed>, i: nat, j: nat)
    requires i < |calls| && j < |calls| && calls[i].call.Start? && calls[j].call.Start?
    requires calls[i].call.copType == calls[j].call.copType && calls[i].call.data == calls[j].call.data
    requires StartsFit(tape, calls)
    ensures var a, b := ScheduledBy(tape, calls, i), ScheduledBy(tape, calls, j);
            && |a| == |b|
            && forall k :: 0 <= k < |a| ==>
                 && a[k].payload == b[k].payload && a[k].itemType == b[k].itemType
                 && b[k].due - a[k].due == 1000 * (calls[j].tick - calls[i].tick)
  {
    var data := calls[i].call.data;
    if IsRequest(calls[i].call.copType, data) {
      var x := FirstMatch(tape, RequestId(data.value), RequestUds(data.value), 0);
      forall c | c == i || c == j
        ensures var a := ScheduledBy(tape, calls, c);
                if x < |tape| then
                  var rs := tape[x].responses;
                  |a| == |rs| && forall k :: 0 <= k < |a| ==>
                    a[k].due == calls[c].tick * 1000 + TotalDelayMs(rs, k + 1) * 1000
                else |a| == 1 && a[0].due == calls[c].tick * 1000 + NRC_DELAY_US
      {
        OneStart(tape, calls, c);
      }
    }
  }

  lemma OneStart(tape: seq<Recorded>, calls: seq<Timed>, c: nat)
    requires c < |calls| && calls[c].call.Start? && Fits(tape, calls[c].tick)
    requires IsRequest(calls[c].call.copType, calls[c].call.data)
    ensures var data := calls[c].call.data.value;
            var x := FirstMatch(tape, RequestId(data), RequestUds(data), 0);
            var a := ScheduledBy(tape, calls, c);
            if x < |tape| then
              var rs := tape[x].responses;
              |a| == |rs| && forall k :: 0 <= k < |a| ==>
                a[k].due == calls[c].tick * 1000 + TotalDelayMs(rs, k + 1) * 1000
            else |a| == 1 && a[0].due == calls[c].tick * 1000 + NRC_DELAY_US
  {
    var Start(link, _, d, tag) := calls[c].call;
    var data := d.value;
    var x := FirstMatch(tape, RequestId(data), RequestUds(data), 0);
    if x < |tape| {
      var rs := tape[x].responses;
      forall k | 0 <= k < |rs|
        ensures ScheduledBy(tape, calls, c)[k].due == calls[c].tick * 1000 + TotalDelayMs(rs, k + 1) * 1000
      {
        DueTimes(rs, |rs|, k, calls[c].tick, link, NextCop(Run(tape, calls, c).nextCop), tag);
      }
    } else {
      SumWithoutWrap(calls[c].tick * 1000, NRC_DELAY_US);
    }
  }
}
