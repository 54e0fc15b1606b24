/** src/fremsoft.c: the playback data path over the scheduler, with its log and its allocations. */
module Engine {
  import opened Bytes
  import opened LogFormat
  import opened Recording
  import opened EventQueue
  import opened Replay
  import Sched = Scheduler

  const STATUS_NOERROR: U32 := 0
  const ERR_INVALID_PARAMETERS: U32 := 7
  const ERR_EVENT_QUEUE_EMPTY: U32 := 0x18

  /** PDU_EVENT_ITEM with its result data and bytes, one block. */
  class EventItem {
    const itemType: U32
    const hCop: U32
    const tag: int
    const timestamp: U32
    const data: seq<Byte>

    constructor (itemType: U32, hCop: U32, tag: int, timestamp: U32, data: seq<Byte>)
      ensures this.itemType == itemType && this.hCop == hCop && this.tag == tag && this.timestamp == timestamp
      ensures this.data == data
    {
      this.itemType, this.hCop, this.tag, this.timestamp, this.data := itemType, hCop, tag, timestamp, data;
    }
  }

  /** The log text a run of lines adds. */
  function LogText(lines: seq<LogLine>): string {
    JoinLines(PrintAll(lines))
  }

  lemma {:induction false} JoinAppend(a: seq<string>, b: seq<string>)
    ensures JoinLines(a + b) == JoinLines(a) + JoinLines(b)
  {
    if a == [] {
      assert a + b == b;
    } else {
      JoinAppend(a[1..], b);
      assert (a + b)[0] == a[0] && (a + b)[1..] == a[1..] + b;
    }
  }

  lemma LogTextSnoc(lines: seq<LogLine>, l: LogLine)
    ensures LogText(lines + [l]) == LogText(lines) + Print(l) + "\n"
  {
    assert PrintAll(lines + [l]) == PrintAll(lines) + [Print(l)];
    JoinAppend(PrintAll(lines), [Print(l)]);
    assert [Print(l)][1..] == [];
  }

  // Each heading is written in two parts, because a proof sees at most the last 40 characters of one literal.
  const TITLE := "# fremsoft activity log" + " -- same format as cstech2win shim"
  const REQUEST_FORMAT := "# format: ms|tid|HEX|REQ-PDU|" + "len=N|<chipsoft hdr><uds bytes>"
  const RESPONSE_FORMAT := "# format: ms|tid|HEX|RSP-UDS|" + "len=N|<chipsoft hdr><uds bytes>"

  /** The comments open_activity_log starts the file with. */
  function Preamble(logPath: string): seq<LogLine> {
    [Comment(TITLE), Comment(REQUEST_FORMAT), Comment(RESPONSE_FORMAT), Comment("# log file: " + logPath)]
  }

  /** The lines for the first `n` of the scheduled events. */
  function ResponseLines(events: seq<Event>, n: nat, tid: nat, clock: nat -> nat): seq<LogLine>
    requires n <= |events|
  {
    seq(n, k requires 0 <= k < n => Hex(clock(1 + k), tid, RSP_UDS, events[k].payload))
  }

  /** The CAN-ID prefix byte by byte, then the copy of the UDS bytes. */
  method FillPayload(data: array<Byte>, canId: U32, uds: seq<Byte>)
    requires data.Length == 4 + |uds|
    modifies data
    ensures data[..] == BigEndian(canId) + uds
  {
    data[0] := canId / 0x100_0000 % 0x100;
    data[1] := canId / 0x1_0000 % 0x100;
    data[2] := canId / 0x100 % 0x100;
    data[3] := canId % 0x100;
    for i := 0 to |uds|
      invariant data[..4] == BigEndian(canId)
      invariant data[4..4 + i] == uds[..i]
    {
      data[4 + i] := uds[i];
    }
    assert data[..] == data[..4] + data[4..4 + |uds|];
  }

  class PlaybackEngine {
    const heap: Sched.Heap
    const scheduler: Sched.Scheduler
    const log: LogFile
    const tape: seq<Recorded>
    var nextCop: U32
    var unknown: seq<(U32, seq<Byte>)>  // the unknown-request log
    ghost var items: set<object>  // event items handed out and not yet destroyed

    /** Everything allocated belongs to the queue or to the client. */
    ghost predicate Valid()
      reads this, heap, scheduler, scheduler.nodes, Sched.Buffers(scheduler.nodes)
    {
      && scheduler.heap == heap
      && scheduler.Valid()
      && scheduler.Foreign() == items
    }

    ghost function Model(): State
      reads this, scheduler
    {
      State(scheduler.contents, nextCop)
    }

    constructor (heap: Sched.Heap, tape: seq<Recorded>, logPath: string)
      requires heap.live == {}
      ensures Valid() && this.heap == heap && this.tape == tape
      ensures Model() == INITIAL && items == {} && log.text == LogText(Preamble(logPath)) && unknown == []
      ensures fresh(scheduler) && fresh(log) && scheduler.spine == {}
    {
      this.heap := heap;
      this.tape := tape;
      scheduler := new Sched.Scheduler(heap);
      log := new LogFile(LogText(Preamble(logPath)));
      nextCop := FIRST_COP;
      unknown := [];
      items := {};
    }

    /** Allocate a response buffer, fill in the CAN-ID prefix and the UDS bytes, and hand it to the queue. */
    method QueueResponse(due: U64, link: Link, hCop: U32, tag: int, canId: U32, uds: seq<Byte>)
      requires Valid()
      modifies heap, scheduler, scheduler.spine
      ensures Valid() && fresh(scheduler.spine - old(scheduler.spine))
      ensures scheduler.contents
           == old(scheduler.contents) + [Event(due, link, hCop, tag, IT_RESULT, BigEndian(canId) + uds)]
    {
      var data := heap.Malloc(4 + |uds|);
      FillPayload(data, canId, uds);
      scheduler.Push(Sched.SchedEvent(due, link, hCop, tag, IT_RESULT, data));
    }

    /** Schedule one response and log it. */
    method Respond(e: Event, canId: U32, uds: seq<Byte>, tid: nat, ms: nat)
      requires Valid() && e.itemType == IT_RESULT && e.payload == BigEndian(canId) + uds
      modifies heap, scheduler, scheduler.spine, log
      ensures Valid() && fresh(scheduler.spine - old(scheduler.spine))
      ensures scheduler.contents == old(scheduler.contents) + [e]
      ensures log.text == old(log.text) + HexLine(ms, tid, RSP_UDS, e.payload) + "\n"
    {
      QueueResponse(e.due, e.link, e.hCop, e.tag, canId, uds);
      log.LogHex(ms, tid, RSP_UDS, BigEndian(canId) + uds);
    }

    /** Schedule the recorded responses one after another, each logged as it is scheduled. */
    method ScheduleResponses(rs: seq<Response>, now: U64, link: Link, hCop: U32, tag: int, tid: nat, clock: nat -> nat)
      requires Valid()
      modifies heap, scheduler, scheduler.spine, log
      ensures Valid() && fresh(scheduler.spine - old(scheduler.spine))
      ensures var events := ResponseEvents(rs, |rs|, now, link, hCop, tag);
              && scheduler.contents == old(scheduler.contents) + events
              && log.text == old(log.text) + LogText(ResponseLines(events, |rs|, tid, clock))
    {
      var cumulative: U64 := 0;
      ghost var events := ResponseEvents(rs, |rs|, now, link, hCop, tag);
      ghost var queue, text := scheduler.contents, log.text;
      assert queue + events[..0] == queue;
      NoLines(events, tid, clock, text);
      for i := 0 to |rs|
        invariant Valid() && fresh(scheduler.spine - old(scheduler.spine))
        invariant cumulative == CumulativeUs(rs, i)
        invariant scheduler.contents == queue + events[..i]
        invariant log.text == text + LogText(ResponseLines(events, i, tid, clock))
      {
        ResponsesStep(rs, i, now, link, hCop, tag, queue);
        ResponseLinesStep(events, i, tid, clock, text);
        cumulative := AddUs(cumulative, rs[i].delayMs * 1000);
        var e := Event(AddUs(now, cumulative), link, hCop, tag, IT_RESULT, BigEndian(rs[i].canId) + rs[i].uds);
        Respond(e, rs[i].canId, rs[i].uds, tid, clock(1 + i));
      }
      assert events[..|rs|] == events;
    }

    /** fremsoft_PDUStartComPrimitive. `clock(k)` is the log clock at the k-th line written. */
    method StartComPrimitive(link: Link, copType: U32, data: Option<seq<Byte>>, tag: int, tick: U64, tid: nat, clock: nat -> nat)
      returns (hCop: U32)
      requires Valid()
      modifies this, heap, scheduler, scheduler.spine, log
      ensures Valid() && items == old(items) && fresh(scheduler.spine - old(scheduler.spine))
      ensures var c := Timed(tick, Start(link, copType, data, tag));
              (Model(), Started(hCop)) == Step(tape, old(Model()), c)
      ensures log.text == old(log.text)
                + LogText(StartLines(Scheduled(tape, tick, link, copType, data, tag, hCop), copType, data, tid, clock))
      ensures unknown == old(unknown) + Unknown(tape, copType, data)
    {
      hCop := NextCop(nextCop);
      nextCop := hCop;
      if !IsRequest(copType, data) {
        NothingAsked(tape, old(Model()), tick, link, copType, data, tag, tid, clock);
        assert unknown + [] == unknown && log.text + "" == log.text;
      }
      if copType != SENDRECV {
        return;
      }
      if data.None? || |data.value| < 5 {
        return;
      }
      Request(link, data.value, tag, tick, hCop, tid, clock);
    }

    /** Decode and log a request, and answer it. */
    method Request(link: Link, data: seq<Byte>, tag: int, tick: U64, hCop: U32, tid: nat, clock: nat -> nat)
      requires Valid() && |data| >= 5
      modifies this`unknown, heap, scheduler, scheduler.spine, log
      ensures Valid() && fresh(scheduler.spine - old(scheduler.spine))
      ensures var events := Scheduled(tape, tick, link, SENDRECV, Some(data), tag, hCop);
              && scheduler.contents == old(scheduler.contents) + events
              && log.text == old(log.text) + LogText(StartLines(events, SENDRECV, Some(data), tid, clock))
      ensures unknown == old(unknown) + Unknown(tape, SENDRECV, Some(data))
    {
      var canId, uds := FromBigEndian(data[..4]), data[4..];
      StartLinesText(Scheduled(tape, tick, link, SENDRECV, Some(data), tag, hCop), SENDRECV, Some(data), tid, clock, log.text);
      LogRequest(clock(0), tid, data);
      Answer(canId, uds, NowUs(tick), link, hCop, tag, tid, clock);
    }

    /** fremsoft_log_req_pdu. */
    method LogRequest(ms: nat, tid: nat, data: seq<Byte>)
      requires Valid()
      modifies log
      ensures Valid() && log.text == old(log.text) + HexLine(ms, tid, REQ_PDU, data) + "\n"
    {
      log.LogHex(ms, tid, REQ_PDU, data);
    }

    /** Look the request up and schedule its recorded responses, or note it as unknown and schedule the negative one. */
    method Answer(canId: U32, uds: seq<Byte>, now: U64, link: Link, hCop: U32, tag: int, tid: nat, clock: nat -> nat)
      requires Valid() && uds != []
      modifies this`unknown, heap, scheduler, scheduler.spine, log
      ensures Valid() && fresh(scheduler.spine - old(scheduler.spine))
      ensures var found := Lookup(tape, canId, uds);
              var events := match found
                            case Some(x) => ResponseEvents(x.responses, |x.responses|, now, link, hCop, tag)
                            case None => [NegativeEvent(canId, uds[0], now, link, hCop, tag)];
              && scheduler.contents == old(scheduler.contents) + events
              && log.text == old(log.text) + LogText(ResponseLines(events, |events|, tid, clock))
              && unknown == old(unknown) + (if found.None? then [(canId, uds)] else [])
    {
      var found := RecordingLookup(tape, canId, uds);
      if found.Some? {
        ScheduleResponses(found.value.responses, now, link, hCop, tag, tid, clock);
      } else {
        unknown := unknown + [(canId, uds)];
        ScheduleNegative(canId, uds[0], now, link, hCop, tag, tid, clock);
      }
    }

    /** The negative response to an unknown request, 50 ms from now. */
    method ScheduleNegative(canId: U32, sid: Byte, now: U64, link: Link, hCop: U32, tag: int, tid: nat, clock: nat -> nat)
      requires Valid()
      modifies heap, scheduler, scheduler.spine, log
      ensures Valid() && fresh(scheduler.spine - old(scheduler.spine))
      ensures var events := [NegativeEvent(canId, sid, now, link, hCop, tag)];
              && scheduler.contents == old(scheduler.contents) + events
              && log.text == old(log.text) + LogText(ResponseLines(events, 1, tid, clock))
    {
      ghost var events := [NegativeEvent(canId, sid, now, link, hCop, tag)];
      OneLineText(events, tid, clock, log.text);
      var e := Event(AddUs(now, NRC_DELAY_US), link, hCop, tag, IT_RESULT, NegativePayload(canId, sid));
      Respond(e, ReplyId(canId), [NEGATIVE_RESPONSE, sid, SERVICE_NOT_SUPPORTED], tid, clock(1));
    }

    /** fremsoft_PDUGetEventItem: the polled event as one new block, its buffer freed. */
    method GetEventItem(link: Link, hasOut: bool, tick: U64) returns (status: U32, item: EventItem?)
      requires Valid()
      modifies this`items, heap, scheduler, scheduler.spine
      ensures Valid() && scheduler.spine == old(scheduler.spine)
      ensures !hasOut ==> status == 0x07 && item == null && Model() == old(Model()) && items == old(items)
      ensures hasOut ==> Model() == Step(tape, old(Model()), Timed(tick, Poll(link))).0
      ensures hasOut ==> match Step(tape, old(Model()), Timed(tick, Poll(link))).1
                         case Delivered(e) => status == 0 && item != null && fresh(item)
                                              && Carries(item, e, tick) && items == old(items) + {item}
                         case _ => status == 0x18 && item == null && items == old(items)
    {
      item := null;
      if !hasOut {
        return ERR_INVALID_PARAMETERS, null;
      }
      var popped := scheduler.PopDue(link, NowUs(tick));
      if popped.None? {
        return ERR_EVENT_QUEUE_EMPTY, null;
      }
      item := HandOver(popped.value, tick);
      status := STATUS_NOERROR;
    }

    /** Copy the popped event into one new block for the client and free the buffer it came in. */
    method HandOver(e: Sched.SchedEvent, tick: U64) returns (item: EventItem)
      requires scheduler.heap == heap && scheduler.Valid()
      requires e.data !in items && scheduler.Foreign() == items + {e.data}
      modifies this`items, heap
      ensures Valid() && items == old(items) + {item}
      ensures fresh(item) && Carries(item, Sched.View(e), tick)
    {
      LowHalf(tick * 1000);
      item := new EventItem(e.itemType, e.hCop, e.tag, NowUs(tick) % TWO32, e.data[..]);
      Replace(e.data, item);
      items := items + {item};
    }

    /** Account for one new block and free another one that is not the queue's. */
    method Replace(buffer: array<Byte>, item: EventItem)
      requires scheduler.heap == heap && scheduler.Valid() && buffer in scheduler.Foreign()
      requires item !in heap.live && item !in Sched.Owned(scheduler.nodes)
      modifies heap
      ensures scheduler.Valid() && scheduler.Foreign() == old(scheduler.Foreign()) - {buffer} + {item}
    {
      heap.Allocated(item);
      heap.Free(buffer);
    }

    /** fremsoft_PDUDestroyItem. */
    method DestroyItem(item: EventItem?)
      requires Valid() && (item != null ==> item in items)
      modifies this`items, heap
      ensures Valid() && items == old(items) - {item}
    {
      if item != null {
        heap.Free(item);
      }
      items := items - {item};
    }

    /** scheduler_cancel_cop on the engine's queue. */
    method CancelComPrimitive(hCop: U32)
      requires Valid()
      modifies heap, scheduler, scheduler.spine
      ensures Valid() && scheduler.spine == old(scheduler.spine)
      ensures forall tick :: Model() == Step(tape, old(Model()), Timed(tick, Call.Cancel(hCop))).0
    {
      scheduler.CancelCop(hCop);
    }

    /** fremsoft_shutdown: only items still in the client's hands stay allocated. */
    method Shutdown()
      requires Valid()
      modifies heap, scheduler, scheduler.spine
      ensures Valid() && heap.live == items && scheduler.contents == [] && scheduler.spine == old(scheduler.spine)
    {
      scheduler.FreeAll();
    }
  }

  /** An item carries its event, and the low 32 bits of the poll's clock. */
  ghost predicate Carries(item: EventItem, e: Event, tick: U64) {
    && item.itemType == e.itemType && item.hCop == e.hCop && item.tag == e.tag
    && item.timestamp == tick * 1000 % 0x1_0000_0000 && item.data == e.payload
  }

  lemma LowHalf(x: nat)
    ensures x % TWO64 % TWO32 == x % TWO32
  {
    AddMultiple(x % TWO64, x / TWO64 * TWO32);
    assert x == x % TWO64 + x / TWO64 * TWO32 * TWO32;
  }

  lemma AddMultiple(r: nat, k: nat)
    ensures (r + k * TWO32) % TWO32 == r % TWO32
  {
  }

  /** What one start writes to the unknown-request log. */
  function Unknown(tape: seq<Recorded>, copType: U32, data: Option<seq<Byte>>): seq<(U32, seq<Byte>)> {
    if !IsRequest(copType, data) then []
    else
      var canId, uds := RequestId(data.value), RequestUds(data.value);
      if Lookup(tape, canId, uds).None? then [(canId, uds)] else []
  }

  /** Exactly the SENDRECV requests that no entry of the tape was recorded for are noted, with their id and bytes. */
  lemma NotedIff(tape: seq<Recorded>, copType: U32, data: Option<seq<Byte>>)
    ensures Unknown(tape, copType, data) ==
            if copType == 0x8010 && data.Some? && |data.value| >= 5 && forall i :: 0 <= i < |tape| ==> !Fitting(tape[i], data.value)
            then [(Head(data.value), data.value[4..])] else []
  {
    if IsRequest(copType, data) {
      forall i | 0 <= i < |tape|
        ensures HasKey(tape[i], RequestId(data.value), RequestUds(data.value)) <==> Fitting(tape[i], data.value)
      {
        FittingIsKey(tape[i], data.value);
      }
      FittingIsKey(Recorded(RequestId(data.value), RequestUds(data.value), []), data.value);
    }
  }

  /** The activity-log lines of one start: the request, then every scheduled event. */
  function StartLines(events: seq<Event>, copType: U32, data: Option<seq<Byte>>, tid: nat, clock: nat -> nat): seq<LogLine> {
    if !IsRequest(copType, data) then []
    else [Hex(clock(0), tid, REQ_PDU, data.value)] + ResponseLines(events, |events|, tid, clock)
  }

  lemma OneLineText(events: seq<Event>, tid: nat, clock: nat -> nat, text: string)
    requires |events| == 1
    ensures text + LogText(ResponseLines(events, 1, tid, clock)) == text + HexLine(clock(1), tid, RSP_UDS, events[0].payload) + "\n"
  {
    NoLines(events, tid, clock, text);
    ResponseLinesStep(events, 0, tid, clock, text);
  }

  lemma LogTextCons(l: LogLine, rest: seq<LogLine>)
    ensures LogText([l] + rest) == Print(l) + "\n" + LogText(rest)
  {
    var all := PrintAll([l] + rest);
    assert all[0] == Print(l) && all[1..] == PrintAll(rest);
  }

  lemma Reassociate(a: string, b: string, c: string, d: string)
    ensures a + (b + c + d) == a + b + c + d
  {
  }

  lemma StartLinesText(events: seq<Event>, copType: U32, data: Option<seq<Byte>>, tid: nat, clock: nat -> nat, text: string)
    ensures text + LogText(StartLines(events, copType, data, tid, clock)) ==
            if !IsRequest(copType, data) then text
            else text + HexLine(clock(0), tid, REQ_PDU, data.value) + "\n" + LogText(ResponseLines(events, |events|, tid, clock))
  {
    if IsRequest(copType, data) {
      var rest := ResponseLines(events, |events|, tid, clock);
      LogTextCons(Hex(clock(0), tid, REQ_PDU, data.value), rest);
      Reassociate(text, HexLine(clock(0), tid, REQ_PDU, data.value), "\n", LogText(rest));
    }
  }

  lemma ResponsesStep(rs: seq<Response>, i: nat, now: U64, link: Link, hCop: U32, tag: int, queue: seq<Event>)
    requires i < |rs|
    ensures var events := ResponseEvents(rs, |rs|, now, link, hCop, tag);
            var cumulative := AddUs(CumulativeUs(rs, i), rs[i].delayMs * 1000);
            var e := Event(AddUs(now, cumulative), link, hCop, tag, IT_RESULT, BigEndian(rs[i].canId) + rs[i].uds);
            && CumulativeUs(rs, i + 1) == cumulative
            && events[i] == e
            && queue + events[..i] + [e] == queue + events[..i + 1]
  {
    var events := ResponseEvents(rs, |rs|, now, link, hCop, tag);
    assert events[..i + 1] == events[..i] + [events[i]];
  }

  /** A start that asks for nothing only takes a handle. */
  lemma NothingAsked(tape: seq<Recorded>, s: State, tick: U64, link: Link, copType: U32, data: Option<seq<Byte>>, tag: int,
                     tid: nat, clock: nat -> nat)
    requires !IsRequest(copType, data)
    ensures Step(tape, s, Timed(tick, Start(link, copType, data, tag)))
         == (State(s.queue, NextCop(s.nextCop)), Started(NextCop(s.nextCop)))
    ensures LogText(StartLines(Scheduled(tape, tick, link, copType, data, tag, NextCop(s.nextCop)), copType, data, tid, clock)) == ""
    ensures Unknown(tape, copType, data) == []
  {
    assert s.queue + [] == s.queue;
  }

  lemma NoLines(events: seq<Event>, tid: nat, clock: nat -> nat, text: string)
    ensures text + LogText(ResponseLines(events, 0, tid, clock)) == text
  {
    assert PrintAll(ResponseLines(events, 0, tid, clock)) == [];
  }

  lemma ResponseLinesStep(events: seq<Event>, i: nat, tid: nat, clock: nat -> nat, text: string)
    requires i < |events|
    ensures text + LogText(ResponseLines(events, i + 1, tid, clock))
         == text + LogText(ResponseLines(events, i, tid, clock)) + HexLine(clock(1 + i), tid, RSP_UDS, events[i].payload) + "\n"
  {
    var before, line := ResponseLines(events, i, tid, clock), Hex(clock(1 + i), tid, RSP_UDS, events[i].payload);
    assert ResponseLines(events, i + 1, tid, clock) == before + [line];
    LogTextSnoc(before, line);
  }
}
