/** The replay engine's activity log: what each call writes to it. */
module ActivityLog {
  import opened Bytes
  import opened HexCodec
  import opened LogFormat
  import opened Recording
  import opened Replay
  import opened Text

  /** What a tape answers to a request: CAN-ID and UDS bytes of each response, in order. */
  datatype Reply = Reply(canId: U32, uds: seq<Byte>)

  function ReplyOf(r: Response): Reply {
    Reply(r.canId, r.uds)
  }

  function Answer(tape: seq<Recorded>, canId: U32, uds: seq<Byte>): seq<Reply>
    requires uds != []
  {
    match Lookup(tape, canId, uds)
    case Some(x) => seq(|x.responses|, i requires 0 <= i < |x.responses| => ReplyOf(x.responses[i]))
    case None => [Reply(ReplyId(canId), [NEGATIVE_RESPONSE, uds[0], SERVICE_NOT_SUPPORTED])]
  }

  /** A call with what its log lines take from outside: the thread and a clock reading per line. */
  datatype Logged = Logged(call: Call, tid: nat, ms: seq<nat>)

  predicate Asks(c: Logged) {
    c.call.Start? && IsRequest(c.call.copType, c.call.data)
  }

  function Data(c: Logged): seq<Byte>
    requires Asks(c)
  {
    c.call.data.value
  }

  function AnswerTo(tape: seq<Recorded>, c: Logged): seq<Reply>
    requires Asks(c)
  {
    Answer(tape, RequestId(Data(c)), RequestUds(Data(c)))
  }

  function ReplyPayload(r: Reply): seq<Byte> {
    BigEndian(r.canId) + r.uds
  }

  /** The payloads a start schedules are the tape's answer, whatever its clock, link, handle and tag. */
  lemma ScheduledIsAnswer(tape: seq<Recorded>, c: Logged, tick: U64, hCop: U32)
    requires Asks(c)
    ensures var events := Scheduled(tape, tick, c.call.link, c.call.copType, c.call.data, c.call.tag, hCop);
            var answer := AnswerTo(tape, c);
            |events| == |answer| && forall k :: 0 <= k < |events| ==> events[k].payload == ReplyPayload(answer[k])
  {
  }

  /** One clock reading for the request line and one per response. */
  predicate Stamped(tape: seq<Recorded>, c: Logged) {
    Asks(c) ==> |c.ms| == 1 + |AnswerTo(tape, c)|
  }

  /** The activity-log lines of one call: the request, then each response as it is scheduled. */
  function CallLines(tape: seq<Recorded>, c: Logged): seq<LogLine>
    requires Stamped(tape, c)
  {
    if !Asks(c) then []
    else
      var answer := AnswerTo(tape, c);
      [Hex(c.ms[0], c.tid, REQ_PDU, Data(c))]
      + seq(|answer|, k requires 0 <= k < |answer| => Hex(c.ms[1 + k], c.tid, RSP_UDS, ReplyPayload(answer[k])))
  }

  /** Exactly the SENDRECV primitives of at least five bytes are logged. */
  lemma LoggedIff(tape: seq<Recorded>, c: Logged)
    requires Stamped(tape, c)
    ensures CallLines(tape, c) != [] <==>
            c.call.Start? && c.call.copType == 0x8010 && c.call.data.Some? && |c.call.data.value| >= 5
  {
  }

  /** A logged line's fields: the clock, the thread, the event, the direction, the number of bytes, the bytes. */
  ghost predicate LineOf(line: string, ms: nat, tid: nat, direction: string, bytes: seq<Byte>) {
    var fields := [Dec(ms), Dec(tid), "HEX  ", direction, "len=" + Dec(|bytes|), HexSpaced(bytes, true)];
    PipeFree(fields) && line == Joined(fields)
  }

  lemma LinePrinted(ms: nat, tid: nat, direction: string, bytes: seq<Byte>)
    requires NoPipe(direction)
    ensures LineOf(Print(Hex(ms, tid, direction, bytes)), ms, tid, direction, bytes)
  {
    LineFields(ms, tid, direction, bytes);
  }

  lemma LinesOfCall(tape: seq<Recorded>, c: Logged)
    requires Asks(c) && Stamped(tape, c)
    ensures var ls, answer := CallLines(tape, c), AnswerTo(tape, c);
            && |ls| == 1 + |answer| && ls[0] == Hex(c.ms[0], c.tid, "REQ-PDU", Data(c))
            && forall k :: 0 <= k < |answer| ==> ls[1 + k] == Hex(c.ms[1 + k], c.tid, "RSP-UDS", ReplyPayload(answer[k]))
  {
  }

  /** What a request writes: its own bytes as they came, then for every response of the answer its id and its bytes. */
  lemma RequestLogged(tape: seq<Recorded>, c: Logged, k: nat)
    requires Asks(c) && Stamped(tape, c) && k < |CallLines(tape, c)|
    ensures |CallLines(tape, c)| == 1 + |AnswerTo(tape, c)|
    ensures var line := Print(CallLines(tape, c)[k]);
            if k == 0 then LineOf(line, c.ms[0], c.tid, "REQ-PDU", Data(c))
            else
              var r := AnswerTo(tape, c)[k - 1];
              exists p :: LineOf(line, c.ms[k], c.tid, "RSP-UDS", p) && |p| >= 4 && Head(p) == r.canId && p[4..] == r.uds
  {
    LinesOfCall(tape, c);
    if k == 0 {
      LinePrinted(c.ms[0], c.tid, "REQ-PDU", Data(c));
    } else {
      var r := AnswerTo(tape, c)[k - 1];
      LinePrinted(c.ms[k], c.tid, "RSP-UDS", ReplyPayload(r));
      PayloadHead(Response(r.canId, r.uds, 0));
      assert ReplyPayload(r) == ResponsePayload(Response(r.canId, r.uds, 0));
    }
  }

  /** The answer to a request the tape does not know: one refusal. */
  lemma UnknownAnswer(tape: seq<Recorded>, data: seq<Byte>)
    requires |data| >= 5 && forall i :: 0 <= i < |tape| ==> !Fitting(tape[i], data)
    ensures Answer(tape, RequestId(data), RequestUds(data))
         == [Reply((Head(data) + 0x400) % 0x1_0000_0000, [0x7F, data[4], 0x11])]
  {
    var k := FirstMatch(tape, RequestId(data), RequestUds(data), 0);
    if k < |tape| {
      FittingIsKey(tape[k], data);
    }
    FittingIsKey(Recorded(RequestId(data), RequestUds(data), []), data);
  }

  predicate AllStamped(tape: seq<Recorded>, session: seq<Logged>) {
    forall i :: 0 <= i < |session| ==> Stamped(tape, session[i])
  }

  function SessionLines(tape: seq<Recorded>, session: seq<Logged>): seq<LogLine>
    requires AllStamped(tape, session)
  {
    if session == [] then [] else CallLines(tape, session[0]) + SessionLines(tape, session[1..])
  }
}
