/** src/fremsoft.c as a state machine on values: what each API call does to the queue, and runs of calls. */
module Replay {
  import opened Bytes
  import opened Seqs
  import opened EventQueue
  import opened Recording

  const SENDRECV: U32 := 0x8010
  const IT_RESULT: U32 := 0x1300
  const FIRST_COP: U32 := 0x10000
  const NRC_DELAY_US := 50000
  const NEGATIVE_RESPONSE: Byte := 0x7F
  const SERVICE_NOT_SUPPORTED: Byte := 0x11

  // ---- PDUStartComPrimitive -----------------------------------------------------------------

  /** GetTickCount64() * 1000 in 64 bits. */
  function NowUs(tick: U64): U64 {
    tick * 1000 % TWO64
  }

  /** uint64_t addition. */
  function AddUs(a: U64, b: U64): U64 {
    (a + b) % TWO64
  }

  /** The 64-bit accumulator after the first `n` responses. */
  function CumulativeUs(rs: seq<Response>, n: nat): U64
    requires n <= |rs|
  {
    if n == 0 then 0 else AddUs(CumulativeUs(rs, n - 1), rs[n - 1].delayMs * 1000)
  }

  function ResponsePayload(r: Response): seq<Byte> {
    BigEndian(r.canId) + r.uds
  }

  function ResponseEvent(rs: seq<Response>, i: nat, now: U64, link: Link, hCop: U32, tag: int): Event
    requires i < |rs|
  {
    Event(AddUs(now, CumulativeUs(rs, i + 1)), link, hCop, tag, IT_RESULT, ResponsePayload(rs[i]))
  }

  /** The first `n` responses as scheduled events. */
  function ResponseEvents(rs: seq<Response>, n: nat, now: U64, link: Link, hCop: U32, tag: int): (r: seq<Event>)
    requires n <= |rs|
    ensures |r| == n
  {
    seq(n, i requires 0 <= i < n => ResponseEvent(rs, i, now, link, hCop, tag))
  }

  /** The reply CAN-ID of an unknown request, 32-bit wrap included. */
  function ReplyId(canId: U32): U32 {
    (canId + 0x400) % TWO32
  }

  function NegativePayload(canId: U32, sid: Byte): seq<Byte> {
    BigEndian(ReplyId(canId)) + [NEGATIVE_RESPONSE, sid, SERVICE_NOT_SUPPORTED]
  }

  function NegativeEvent(canId: U32, sid: Byte, now: U64, link: Link, hCop: U32, tag: int): Event {
    Event(AddUs(now, NRC_DELAY_US), link, hCop, tag, IT_RESULT, NegativePayload(canId, sid))
  }

  /** Only a SENDRECV of at least five bytes is looked up. */
  predicate IsRequest(copType: U32, data: Option<seq<Byte>>) {
    copType == SENDRECV && data.Some? && |data.value| >= 5
  }

  function RequestId(data: seq<Byte>): U32
    requires |data| >= 5
  {
    FromBigEndian(data[..4])
  }

  function RequestUds(data: seq<Byte>): (r: seq<Byte>)
    requires |data| >= 5
    ensures r != []
  {
    data[4..]
  }

  /** The events one call schedules: the recorded responses, or one negative response, or nothing. */
  function Scheduled(tape: seq<Recorded>, tick: U64, link: Link, copType: U32, data: Option<seq<Byte>>, tag: int,
                     hCop: U32): seq<Event>
  {
    if !IsRequest(copType, data) then []
    else
      var canId, uds := RequestId(data.value), RequestUds(data.value);
      match Lookup(tape, canId, uds)
      case Some(x) => ResponseEvents(x.responses, |x.responses|, NowUs(tick), link, hCop, tag)
      case None => [NegativeEvent(canId, uds[0], NowUs(tick), link, hCop, tag)]
  }

  // ---- calls and runs -------------------------------------------------------------------------

  datatype Call =
    | Start(link: Link, copType: U32, data: Option<seq<Byte>>, tag: int)
    | Poll(link: Link)
    | Cancel(hCop: U32)

  /** A call and the reading of GetTickCount64 during it. */
  datatype Timed = Timed(tick: U64, call: Call)

  datatype State = State(queue: seq<Event>, nextCop: U32)

  /** What a call reports: its handle, the delivered event, EVENT_QUEUE_EMPTY, or nothing. */
  datatype Outcome = Started(hCop: U32) | Delivered(event: Event) | QueueEmpty | Canceled

  const INITIAL := State([], FIRST_COP)

  /** InterlockedIncrement: the handle given out is the incremented counter. */
  function NextCop(hCop: U32): U32 {
    (hCop + 1) % TWO32
  }

  function Step(tape: seq<Recorded>, s: State, c: Timed): (State, Outcome) {
    match c.call
    case Start(link, copType, data, tag) =>
      var hCop := NextCop(s.nextCop);
      (State(s.queue + Scheduled(tape, c.tick, link, copType, data, tag, hCop), hCop), Started(hCop))
    case Poll(link) =>
      var (e, rest) := Pop(s.queue, link, NowUs(c.tick));
      (s.(queue := rest), match e case Some(event) => Delivered(event) case None => QueueEmpty)
    case Cancel(hCop) =>
      (s.(queue := EventQueue.Cancel(s.queue, hCop)), Canceled)
  }

  function HasCop(hCop: U32): Event -> bool {
    (e: Event) => e.hCop == hCop
  }

  /** The state together with everything that was ever scheduled, delivered and canceled, in order. */
  datatype Ledger = Ledger(state: State, scheduled: seq<Event>, delivered: seq<Event>, canceled: seq<Event>)

  function Enter(tape: seq<Recorded>, l: Ledger, c: Timed): Ledger {
    var (s, outcome) := Step(tape, l.state, c);
    match c.call
    case Start(link, copType, data, tag) =>
      l.(state := s,
         scheduled := l.scheduled + Scheduled(tape, c.tick, link, copType, data, tag, NextCop(l.state.nextCop)))
    case Poll(_) =>
      l.(state := s, delivered := l.delivered + (match outcome case Delivered(e) => [e] case _ => []))
    case Cancel(hCop) =>
      l.(state := s, canceled := l.canceled + Filter(HasCop(hCop), l.state.queue))
  }

  /** The ledger after the first `n` calls. */
  function Books(tape: seq<Recorded>, calls: seq<Timed>, n: nat): Ledger
    requires n <= |calls|
  {
    if n == 0 then Ledger(INITIAL, [], [], []) else Enter(tape, Books(tape, calls, n - 1), calls[n - 1])
  }

  function Run(tape: seq<Recorded>, calls: seq<Timed>, n: nat): State
    requires n <= |calls|
  {
    Books(tape, calls, n).state
  }

  function OutcomeAt(tape: seq<Recorded>, calls: seq<Timed>, i: nat): Outcome
    requires i < |calls|
  {
    Step(tape, Run(tape, calls, i), calls[i]).1
  }

  /** The events call `i` scheduled. */
  function ScheduledBy(tape: seq<Recorded>, calls: seq<Timed>, i: nat): seq<Event>
    requires i < |calls|
  {
    match calls[i].call
    case Start(link, copType, data, tag) =>
      Scheduled(tape, calls[i].tick, link, copType, data, tag, NextCop(Run(tape, calls, i).nextCop))
    case _ => []
  }

  // ---- when 64-bit time does not wrap ---------------------------------------------------------------

  function TotalDelayMs(rs: seq<Response>, n: nat): nat
    requires n <= |rs|
  {
    if n == 0 then 0 else TotalDelayMs(rs, n - 1) + rs[n - 1].delayMs
  }

  /** Every due time computed at `tick` fits 64 bits. */
  predicate Fits(tape: seq<Recorded>, tick: U64) {
    && tick * 1000 + NRC_DELAY_US < TWO64
    && forall i :: 0 <= i < |tape| ==>
         tick * 1000 + TotalDelayMs(tape[i].responses, |tape[i].responses|) * 1000 < TWO64
  }

  lemma {:induction false} TotalDelayMonotone(rs: seq<Response>, m: nat, n: nat)
    requires m <= n <= |rs|
    ensures TotalDelayMs(rs, m) <= TotalDelayMs(rs, n)
    decreases n
  {
    if m < n {
      TotalDelayMonotone(rs, m, n - 1);
    }
  }

  lemma {:induction false} CumulativeExact(rs: seq<Response>, n: nat)
    requires n <= |rs| && TotalDelayMs(rs, n) * 1000 < TWO64
    ensures CumulativeUs(rs, n) == TotalDelayMs(rs, n) * 1000
  {
    if n > 0 {
      CumulativeExact(rs, n - 1);
    }
  }

  lemma {:induction false} TotalDelayBound(rs: seq<Response>, n: nat)
    requires n <= |rs|
    ensures TotalDelayMs(rs, n) <= n * (TWO32 - 1)
  {
    if n > 0 {
      TotalDelayBound(rs, n - 1);
    }
  }

  /** At most 2^20 responses per exchange and a clock below 2^63 microseconds are enough. */
  lemma FitsInPractice(tape: seq<Recorded>, tick: U64)
    requires tick * 1000 < TWO64 / 2
    requires forall i :: 0 <= i < |tape| ==> |tape[i].responses| <= 0x10_0000
    ensures Fits(tape, tick)
  {
    forall i | 0 <= i < |tape|
      ensures tick * 1000 + TotalDelayMs(tape[i].responses, |tape[i].responses|) * 1000 < TWO64
    {
      TotalDelayBound(tape[i].responses, |tape[i].responses|);
    }
  }

  /** Without wrap the i-th event is due the sum of the first i+1 delays after the call. */
  lemma DueTimes(rs: seq<Response>, n: nat, i: nat, tick: U64, link: Link, hCop: U32, tag: int)
    requires i < n <= |rs|
    requires tick * 1000 + TotalDelayMs(rs, n) * 1000 < TWO64
    ensures ResponseEvents(rs, n, NowUs(tick), link, hCop, tag)[i].due == tick * 1000 + TotalDelayMs(rs, i + 1) * 1000
  {
    TotalDelayMonotone(rs, i + 1, n);
    CumulativeExact(rs, i + 1);
    SumWithoutWrap(tick * 1000, TotalDelayMs(rs, i + 1) * 1000);
    assert NowUs(tick) == tick * 1000;
  }

  lemma SumWithoutWrap(a: int, b: int)
    requires 0 <= a && 0 <= b && a + b < TWO64
    ensures (a + b) % TWO64 == a + b && a % TWO64 == a
  {
  }

  // ---- what a start schedules, in plain numbers --------------------------------------------------------

  /** The number the first four bytes hold, the first of them weighing most. */
  function Head(b: seq<Byte>): int
    requires |b| >= 4
  {
    (b[0] as int) * 0x100_0000 + (b[1] as int) * 0x1_0000 + (b[2] as int) * 0x100 + b[3] as int
  }

  /** The entry was recorded for this request. */
  predicate Fitting(x: Recorded, data: seq<Byte>)
    requires |data| >= 5
  {
    x.canId == Head(data) && x.uds == data[4..]
  }

  lemma FittingIsKey(x: Recorded, data: seq<Byte>)
    requires |data| >= 5
    ensures HasKey(x, RequestId(data), RequestUds(data)) <==> Fitting(x, data)
  {
    var id := data[..4];
    assert id[0] == data[0] && id[1] == data[1] && id[2] == data[2] && id[3] == data[3];
  }

  /** The payload of a refusal: the request's id plus 0x400 in 32 bits, then 7F, the request's service, and 11. */
  predicate RefusalOf(payload: seq<Byte>, data: seq<Byte>)
    requires |data| >= 5
  {
    && |payload| == 7
    && Head(payload) == (Head(data) + 0x400) % 0x1_0000_0000
    && payload[4] == 0x7F && payload[5] == data[4] && payload[6] == 0x11
  }

  /** A result for the caller of this start. */
  predicate ResultFor(e: Event, link: Link, hCop: U32, tag: int) {
    e.link == link && e.hCop == hCop && e.tag == tag && e.itemType == 0x1300
  }

  /** One refusal of the request, 50 ms after the call in 64-bit microseconds. */
  predicate Refuses(events: seq<Event>, tick: U64, link: Link, data: seq<Byte>, tag: int, hCop: U32)
    requires |data| >= 5
  {
    && |events| == 1 && ResultFor(events[0], link, hCop, tag) && RefusalOf(events[0].payload, data)
    && events[0].due == (tick * 1000 + 50_000) % 0x1_0000_0000_0000_0000
  }

  lemma ModuloSum(a: nat, b: nat)
    ensures (a % TWO64 + b) % TWO64 == (a + b) % TWO64
    ensures (b + a % TWO64) % TWO64 == (b + a) % TWO64
  {
  }

  lemma RefusalPayload(data: seq<Byte>)
    requires |data| >= 5
    ensures RefusalOf(NegativePayload(RequestId(data), RequestUds(data)[0]), data)
  {
    var id := data[..4];
    assert id[0] == data[0] && id[1] == data[1] && id[2] == data[2] && id[3] == data[3];
    BigEndianRoundTrip(ReplyId(RequestId(data)));
  }

  lemma RefusalRefuses(tick: U64, link: Link, data: seq<Byte>, tag: int, hCop: U32)
    requires |data| >= 5
    ensures Refuses([NegativeEvent(RequestId(data), RequestUds(data)[0], NowUs(tick), link, hCop, tag)], tick, link, data,
                    tag, hCop)
  {
    RefusalPayload(data);
    ModuloSum(tick * 1000, 50_000);
  }

  /** A request that no entry of the tape was recorded for is refused. */
  lemma UnknownRefused(tape: seq<Recorded>, tick: U64, link: Link, data: seq<Byte>, tag: int, hCop: U32)
    requires |data| >= 5 && forall i :: 0 <= i < |tape| ==> !Fitting(tape[i], data)
    ensures Refuses(Scheduled(tape, tick, link, 0x8010, Some(data), tag, hCop), tick, link, data, tag, hCop)
  {
    var k := FirstMatch(tape, RequestId(data), RequestUds(data), 0);
    if k < |tape| {
      FittingIsKey(tape[k], data);
    }
    RefusalRefuses(tick, link, data, tag, hCop);
  }

  /** A delay after the call in 64-bit microseconds. */
  function DueIn(tick: U64, delayMs: nat): int {
    (tick * 1000 + delayMs * 1000) % 0x1_0000_0000_0000_0000
  }

  /** The event carries this response, due the delay after the call. */
  predicate Brings(e: Event, r: Response, delayMs: nat, tick: U64) {
    |e.payload| >= 4 && Head(e.payload) == r.canId && e.payload[4..] == r.uds && e.due == DueIn(tick, delayMs)
  }

  lemma {:induction false} CumulativeModulo(rs: seq<Response>, n: nat)
    requires n <= |rs|
    ensures CumulativeUs(rs, n) == TotalDelayMs(rs, n) * 1000 % TWO64
  {
    if n > 0 {
      CumulativeModulo(rs, n - 1);
      ModuloSum(TotalDelayMs(rs, n - 1) * 1000, rs[n - 1].delayMs * 1000);
    }
  }

  lemma DueModulo(rs: seq<Response>, n: nat, tick: U64)
    requires n <= |rs|
    ensures AddUs(NowUs(tick), CumulativeUs(rs, n)) == DueIn(tick, TotalDelayMs(rs, n))
  {
    CumulativeModulo(rs, n);
    ModuloSum(TotalDelayMs(rs, n) * 1000, tick * 1000 % TWO64);
    ModuloSum(tick * 1000, TotalDelayMs(rs, n) * 1000);
  }

  lemma PayloadHead(r: Response)
    ensures var p := ResponsePayload(r); |p| >= 4 && Head(p) == r.canId && p[4..] == r.uds
  {
    var b, p := BigEndian(r.canId), ResponsePayload(r);
    BigEndianRoundTrip(r.canId);
    assert p[0] == b[0] && p[1] == b[1] && p[2] == b[2] && p[3] == b[3];
  }

  lemma EventBrings(e: Event, r: Response, delayMs: nat, tick: U64)
    requires e.payload == ResponsePayload(r) && e.due == DueIn(tick, delayMs)
    ensures Brings(e, r, delayMs, tick)
  {
    PayloadHead(r);
  }

  lemma ResponseBrings(rs: seq<Response>, k: nat, tick: U64, link: Link, hCop: U32, tag: int, e: Event)
    requires k < |rs| && e == ResponseEvent(rs, k, NowUs(tick), link, hCop, tag)
    ensures ResultFor(e, link, hCop, tag) && Brings(e, rs[k], TotalDelayMs(rs, k + 1), tick)
  {
    assert e.due == DueIn(tick, TotalDelayMs(rs, k + 1)) by {
      DueModulo(rs, k + 1, tick);
    }
    EventBrings(e, rs[k], TotalDelayMs(rs, k + 1), tick);
  }

  /** A request is answered from the first entry recorded for it: a result per response, in order, each due the sum of the
      delays so far after the call. */
  lemma KnownAnswered(tape: seq<Recorded>, i: nat, tick: U64, link: Link, data: seq<Byte>, tag: int, hCop: U32)
    requires |data| >= 5 && i < |tape| && Fitting(tape[i], data) && forall j :: 0 <= j < i ==> !Fitting(tape[j], data)
    ensures var events, rs := Scheduled(tape, tick, link, 0x8010, Some(data), tag, hCop), tape[i].responses;
            && |events| == |rs|
            && forall k :: 0 <= k < |rs| ==>
                 ResultFor(events[k], link, hCop, tag) && Brings(events[k], rs[k], TotalDelayMs(rs, k + 1), tick)
  {
    forall j | 0 <= j <= i ensures HasKey(tape[j], RequestId(data), RequestUds(data)) <==> Fitting(tape[j], data) {
      FittingIsKey(tape[j], data);
    }
    assert FirstMatch(tape, RequestId(data), RequestUds(data), 0) == i;
    var rs := tape[i].responses;
    forall k | 0 <= k < |rs|
      ensures var e := ResponseEvents(rs, |rs|, NowUs(tick), link, hCop, tag)[k];
              ResultFor(e, link, hCop, tag) && Brings(e, rs[k], TotalDelayMs(rs, k + 1), tick)
    {
      ResponseBrings(rs, k, tick, link, hCop, tag, ResponseEvents(rs, |rs|, NowUs(tick), link, hCop, tag)[k]);
    }
  }

  /** Any other primitive, and one with fewer than five bytes, schedules nothing. */
  lemma OthersIgnored(tape: seq<Recorded>, tick: U64, link: Link, copType: U32, data: Option<seq<Byte>>, tag: int, hCop: U32)
    requires copType != 0x8010 || data.None? || |data.value| < 5
    ensures Scheduled(tape, tick, link, copType, data, tag, hCop) == []
  {
  }

  /** A poll hands out the first queued event of its link that is due, and takes it out; without one it reports an empty
      queue and leaves everything. */
  lemma PollTakes(tape: seq<Recorded>, s: State, tick: U64, link: Link, i: nat)
    requires i <= |s.queue|
    requires forall j :: 0 <= j < i ==> !(s.queue[j].link == link && s.queue[j].due <= tick * 1000 % 0x1_0000_0000_0000_0000)
    requires i < |s.queue| ==> s.queue[i].link == link && s.queue[i].due <= tick * 1000 % 0x1_0000_0000_0000_0000
    ensures Step(tape, s, Timed(tick, Poll(link)))
         == if i < |s.queue| then (State(s.queue[..i] + s.queue[i + 1..], s.nextCop), Delivered(s.queue[i]))
            else (s, QueueEmpty)
  {
    assert FirstReady(s.queue, link, NowUs(tick), 0) == i;
  }
}
