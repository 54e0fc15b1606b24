/** Feeding the replay engine's own activity log back through the converter. */
module Reconversion {
  import opened Bytes
  import opened Seqs
  import opened LogFormat
  import opened Converter
  import opened Recording
  import opened Replay
  import opened ActivityLog
  import opened EndToEnd

  /** A reply the 16-bit log format can carry: a short CAN-ID and at least one UDS byte. */
  predicate Carried(r: Reply) {
    r.canId < TWO16 && r.uds != []
  }

  predicate AllCarried(rs: seq<Reply>) {
    forall k :: 0 <= k < |rs| ==> Carried(rs[k])
  }

  /** Lines of one call follow each other within the gap cap. */
  predicate Prompt(c: Logged, gap: int) {
    forall k :: 0 < k < |c.ms| ==> c.ms[k] - c.ms[k - 1] <= gap
  }

  /** An unknown request is refused under an id the log can carry exactly when its own is below 0xFC00. */
  lemma RefusalCarriedIff(tape: seq<Recorded>, canId: U16, uds: seq<Byte>)
    requires uds != [] && Lookup(tape, canId, uds).None?
    ensures AllCarried(Answer(tape, canId, uds)) <==> canId < 0xFC00
  {
    var r := Answer(tape, canId, uds)[0];
    assert Carried(r) <==> canId + 0x400 < TWO16;
  }

  // ---- the frames of a session --------------------------------------------------------------------

  /** What the converter makes of a call's lines. */
  function CallFrames(tape: seq<Recorded>, c: Logged): seq<Frame>
    requires Stamped(tape, c)
  {
    AllRecorded(CallLines(tape, c))
  }

  function SessionFrames(tape: seq<Recorded>, session: seq<Logged>): seq<Frame>
    requires AllStamped(tape, session)
  {
    AllRecorded(SessionLines(tape, session))
  }

  /** The request line: the CAN-ID loses its upper half. */
  lemma RequestFrame(ms: nat, tid: nat, data: seq<Byte>)
    requires |data| >= 5
    ensures FramesRecorded(Hex(ms, tid, REQ_PDU, data)) == [Frame(ms, true, RequestId(data) % TWO16, RequestUds(data))]
  {
    var id := data[..4];
    assert id[0] == data[0] && id[1] == data[1] && id[2] == data[2] && id[3] == data[3];
    LowerHalf(data[0], data[1], data[2], data[3]);
  }

  lemma LowerHalf(a: Byte, b: Byte, c: Byte, d: Byte)
    ensures ((a as int) * 0x100_0000 + (b as int) * 0x1_0000 + (c as int) * 0x100 + d) % TWO16 == (c as int) * 0x100 + d
  {
    var hi, lo := (a as int) * 0x100 + b, (c as int) * 0x100 + d;
    assert (hi * TWO16 + lo) % TWO16 == lo;
  }

  /** A response line that can be carried is read back as it is. */
  lemma ResponseFrame(ms: nat, tid: nat, r: Reply)
    requires Carried(r)
    ensures FramesRecorded(Hex(ms, tid, RSP_UDS, ReplyPayload(r))) == [Frame(ms, false, r.canId, r.uds)]
  {
    var p := ReplyPayload(r);
    assert p[4..] == r.uds;
    assert p[2] == r.canId / 0x100 % 0x100 && p[3] == r.canId % 0x100;
  }

  lemma {:induction false} SingleFrames(ls: seq<LogLine>, fs: seq<Frame>)
    requires |ls| == |fs| && forall k :: 0 <= k < |ls| ==> FramesRecorded(ls[k]) == [fs[k]]
    ensures AllRecorded(ls) == fs
  {
    if ls != [] {
      SingleFrames(ls[1..], fs[1..]);
      assert fs == [fs[0]] + fs[1..];
    }
  }

  /** The frames of response lines, carried or not, are responses with at least one UDS byte. */
  lemma {:induction false} ResponsesRecorded(ls: seq<LogLine>)
    requires forall k :: 0 <= k < |ls| ==> ls[k].Hex? && ls[k].tag == RSP_UDS
    ensures forall f :: f in AllRecorded(ls) ==> !f.tx && f.uds != []
  {
    if ls != [] {
      ResponsesRecorded(ls[1..]);
      assert forall f :: f in FramesRecorded(ls[0]) ==> !f.tx && f.uds != [];
    }
  }

  function ResponseLinesOf(tape: seq<Recorded>, c: Logged): seq<LogLine>
    requires Stamped(tape, c) && Asks(c)
  {
    CallLines(tape, c)[1..]
  }

  /** A call's frames: its request, then responses. */
  lemma CallFramesShape(tape: seq<Recorded>, c: Logged)
    requires Stamped(tape, c)
    ensures !Asks(c) ==> CallFrames(tape, c) == []
    ensures Asks(c) ==>
              && CallFrames(tape, c) == [RequestOf(c)] + AllRecorded(ResponseLinesOf(tape, c))
              && forall f :: f in AllRecorded(ResponseLinesOf(tape, c)) ==> !f.tx && f.uds != []
  {
    if Asks(c) {
      var ls, rest := CallLines(tape, c), ResponseLinesOf(tape, c);
      assert ls[0] == Hex(c.ms[0], c.tid, REQ_PDU, Data(c));
      RequestFrame(c.ms[0], c.tid, Data(c));
      ResponsesRecorded(rest);
    }
  }

  function RequestOf(c: Logged): Frame
    requires Asks(c) && c.ms != []
  {
    Frame(c.ms[0], true, RequestId(Data(c)) % TWO16, RequestUds(Data(c)))
  }

  function CarriedFrame(ms: nat, r: Reply): Frame
    requires Carried(r)
  {
    Frame(ms, false, r.canId, r.uds)
  }

  /** The frames of replies that can be carried, with the times of their lines. */
  function ReplyFrames(ms: seq<nat>, answer: seq<Reply>): seq<Frame>
    requires |ms| == 1 + |answer| && AllCarried(answer)
  {
    seq(|answer|, k requires 0 <= k < |answer| => CarriedFrame(ms[1 + k], answer[k]))
  }

  lemma CarriedLine(tape: seq<Recorded>, c: Logged, k: nat)
    requires Stamped(tape, c) && Asks(c) && AllCarried(AnswerTo(tape, c)) && k < |AnswerTo(tape, c)|
    ensures |ResponseLinesOf(tape, c)| == |AnswerTo(tape, c)|
    ensures FramesRecorded(ResponseLinesOf(tape, c)[k]) == [CarriedFrame(c.ms[1 + k], AnswerTo(tape, c)[k])]
  {
    assert ResponseLinesOf(tape, c)[k] == CallLines(tape, c)[1 + k];
    ResponseFrame(c.ms[1 + k], c.tid, AnswerTo(tape, c)[k]);
  }

  /** When all replies can be carried there is one frame per line, with the line's time. */
  lemma CarriedFrames(tape: seq<Recorded>, c: Logged)
    requires Stamped(tape, c) && Asks(c) && AllCarried(AnswerTo(tape, c))
    ensures AllRecorded(ResponseLinesOf(tape, c)) == ReplyFrames(c.ms, AnswerTo(tape, c))
  {
    var ls, fs := ResponseLinesOf(tape, c), ReplyFrames(c.ms, AnswerTo(tape, c));
    forall k | 0 <= k < |ls| ensures FramesRecorded(ls[k]) == [fs[k]] {
      CarriedLine(tape, c, k);
    }
    SingleFrames(ls, fs);
  }

  lemma TagsPlain()
    ensures PlainTag(REQ_PDU) && PlainTag(RSP_UDS)
  {
  }

  lemma CallLinesPrintable(tape: seq<Recorded>, c: Logged)
    requires Stamped(tape, c)
    ensures forall l :: l in CallLines(tape, c) ==> Printable(l)
  {
    TagsPlain();
    var ls := CallLines(tape, c);
    forall k | 0 <= k < |ls| ensures Printable(ls[k]) {
      assert ls[k].Hex? && ls[k].tag == if k == 0 then REQ_PDU else RSP_UDS;
    }
  }

  lemma {:induction false} SessionLinesPrintable(tape: seq<Recorded>, session: seq<Logged>)
    requires AllStamped(tape, session)
    ensures forall l :: l in SessionLines(tape, session) ==> Printable(l)
  {
    if session != [] {
      CallLinesPrintable(tape, session[0]);
      SessionLinesPrintable(tape, session[1..]);
    }
  }

  lemma SessionFramesCons(tape: seq<Recorded>, session: seq<Logged>)
    requires AllStamped(tape, session) && session != []
    ensures SessionFrames(tape, session) == CallFrames(tape, session[0]) + SessionFrames(tape, session[1..])
  {
    FlatMapAppend(FramesRecorded, CallLines(tape, session[0]), SessionLines(tape, session[1..]));
  }

  // ---- pairing a session's frames --------------------------------------------------------------------

  /** Buckets do not see what lies before them. */
  lemma {:induction false} BucketEndShift(p: seq<Frame>, f: seq<Frame>, gap: int, k: nat)
    requires 0 < k <= |f|
    ensures BucketEnd(p + f, gap, |p| + k) == |p| + BucketEnd(f, gap, k)
    decreases |f| - k
  {
    var w := p + f;
    if k < |f| {
      assert w[|p| + k] == f[k] && w[|p| + k - 1] == f[k - 1];
      BucketEndShift(p, f, gap, k + 1);
    }
  }

  lemma ExchangeShift(p: seq<Frame>, f: seq<Frame>, gap: int, i: nat)
    requires i < |f|
    ensures ExchangeAt(p + f, gap, |p| + i) == ExchangeAt(f, gap, i)
  {
    BucketEndShift(p, f, gap, i + 1);
    var e := BucketEnd(f, gap, i + 1);
    var there, here := RxRange(p + f, |p| + i + 1, |p| + e), RxRange(f, i + 1, e);
    forall r | 0 <= r < |here| ensures there[r] == here[r] {
      assert (p + f)[|p| + i + 1 + r] == f[i + 1 + r] && (p + f)[|p| + i + r] == f[i + r];
      assert there[r] == RxAt(p + f, |p| + i + 1 + r) && here[r] == RxAt(f, i + 1 + r);
    }
    assert there == here;
  }

  lemma FirstTxShift(p: seq<Frame>, f: seq<Frame>, canId: U32, uds: seq<Byte>)
    requires forall j :: 0 <= j < |p| ==> !IsTx(p[j], canId, uds)
    ensures FirstTx(p + f, canId, uds, 0) == |p| + FirstTx(f, canId, uds, 0)
  {
    var w, i, j := p + f, FirstTx(p + f, canId, uds, 0), FirstTx(f, canId, uds, 0);
    assert forall m :: 0 <= m < |p| ==> w[m] == p[m];
    assert forall m :: 0 <= m < |f| ==> w[|p| + m] == f[m];
    if i < |w| {
      assert IsTx(f[i - |p|], canId, uds);
    }
  }

  lemma {:induction false} SessionStartsWithTx(tape: seq<Recorded>, session: seq<Logged>)
    requires AllStamped(tape, session)
    ensures SessionFrames(tape, session) != [] ==> SessionFrames(tape, session)[0].tx
  {
    if session != [] {
      SessionFramesCons(tape, session);
      CallFramesShape(tape, session[0]);
      SessionStartsWithTx(tape, session[1..]);
    }
  }

  /** The call asks for what the converter takes for this key. */
  predicate AsksLike(c: Logged, canId: U32, uds: seq<Byte>) {
    Asks(c) && RequestId(Data(c)) % TWO16 == canId && RequestUds(Data(c)) == uds
  }

  /** The first call of the session that asks like the key, |session| if none does. */
  function FirstAsking(session: seq<Logged>, canId: U32, uds: seq<Byte>): (f: nat)
    ensures f <= |session|
    ensures f < |session| ==> AsksLike(session[f], canId, uds)
    ensures forall i :: 0 <= i < f ==> !AsksLike(session[i], canId, uds)
  {
    if session == [] || AsksLike(session[0], canId, uds) then 0
    else
      var f := FirstAsking(session[1..], canId, uds);
      assert forall i :: 0 < i < f + 1 ==> session[i] == session[1..][i - 1];
      f + 1
  }

  /** The replies of a paired exchange. */
  function RepliesOf(x: Exchange): seq<Reply> {
    seq(|x.rxList|, k requires 0 <= k < |x.rxList| => Reply(x.rxList[k].canId, x.rxList[k].uds))
  }

  /** The bucket of a call's request ends with the call: the next frame, if any, is a request. */
  lemma BucketInCall(own: seq<Frame>, rest: seq<Frame>, gap: int)
    requires own != [] && (rest != [] ==> rest[0].tx)
    ensures BucketEnd(own + rest, gap, 1) <= |own|
    ensures (forall k :: 0 < k < |own| ==> Continues(own, gap, k)) <==> BucketEnd(own + rest, gap, 1) == |own|
  {
    var frames := own + rest;
    var e := BucketEnd(frames, gap, 1);
    assert rest != [] ==> frames[|own|] == rest[0] && !Continues(frames, gap, |own|);
    forall k | 0 < k < |own| ensures Continues(own, gap, k) == Continues(frames, gap, k) {
      assert frames[k] == own[k] && frames[k - 1] == own[k - 1];
    }
  }

  /** The replies of a bucket that starts the frames. */
  lemma FirstReplies(frames: seq<Frame>, gap: int)
    requires frames != []
    ensures var rs := RepliesOf(ExchangeAt(frames, gap, 0));
            && |rs| == BucketEnd(frames, gap, 1) - 1
            && forall k :: 0 <= k < |rs| ==> rs[k] == Reply(frames[1 + k].canId, frames[1 + k].uds)
  {
    var rs := RepliesOf(ExchangeAt(frames, gap, 0));
    forall k | 0 <= k < |rs| ensures rs[k] == Reply(frames[1 + k].canId, frames[1 + k].uds) {
      assert RxRange(frames, 1, BucketEnd(frames, gap, 1))[k] == RxAt(frames, 1 + k);
    }
  }

  /** The log keeps the answer to a call: every reply can be carried, and the lines are prompt. */
  predicate Kept(tape: seq<Recorded>, c: Logged, gap: int)
    requires Asks(c)
  {
    AllCarried(AnswerTo(tape, c)) && Prompt(c, gap)
  }

  /** The frames of a call whose replies are all carried: one per line, with the line's time. */
  lemma CarriedTimes(tape: seq<Recorded>, c: Logged)
    requires Stamped(tape, c) && Asks(c) && AllCarried(AnswerTo(tape, c))
    ensures var own, answer := CallFrames(tape, c), AnswerTo(tape, c);
            && |own| == |c.ms| == 1 + |answer|
            && (forall k :: 0 <= k < |own| ==> own[k].ms == c.ms[k] && (k > 0 ==> !own[k].tx))
            && (forall k :: 0 <= k < |answer| ==> Reply(own[1 + k].canId, own[1 + k].uds) == answer[k])
  {
    CallFramesShape(tape, c);
    CarriedFrames(tape, c);
    HeadedReplies(RequestOf(c), c.ms, AnswerTo(tape, c));
  }

  lemma HeadedReplies(head: Frame, ms: seq<nat>, answer: seq<Reply>)
    requires |ms| == 1 + |answer| && AllCarried(answer) && head.ms == ms[0]
    ensures var own := [head] + ReplyFrames(ms, answer);
            && (forall k :: 0 <= k < |own| ==> own[k].ms == ms[k] && (k > 0 ==> !own[k].tx))
            && (forall k :: 0 <= k < |answer| ==> Reply(own[1 + k].canId, own[1 + k].uds) == answer[k])
  {
    var own := [head] + ReplyFrames(ms, answer);
    forall k | 0 < k < |own| ensures own[k].ms == ms[k] && !own[k].tx {
      assert own[k] == ReplyFrames(ms, answer)[k - 1];
    }
    forall k | 0 <= k < |answer| ensures Reply(own[1 + k].canId, own[1 + k].uds) == answer[k] {
      assert own[1 + k] == ReplyFrames(ms, answer)[k];
    }
  }

  /** Frames with these times, all but the first responses, continue each other exactly when the times are close. */
  lemma CloseIff(own: seq<Frame>, ms: seq<nat>, gap: int)
    requires |own| == |ms| && forall k :: 0 <= k < |own| ==> own[k].ms == ms[k] && (k > 0 ==> !own[k].tx)
    ensures (forall k :: 0 < k < |own| ==> Continues(own, gap, k))
       <==> (forall k :: 0 < k < |ms| ==> ms[k] - ms[k - 1] <= gap)
  {
    forall k | 0 < k < |own| ensures Continues(own, gap, k) <==> ms[k] - ms[k - 1] <= gap {
    }
  }

  /** What a bucket holds is always carried. */
  lemma RepliesCarried(own: seq<Frame>, rest: seq<Frame>, gap: int)
    requires own != [] && BucketEnd(own + rest, gap, 1) <= |own|
    requires forall k :: 0 < k < |own| ==> own[k].uds != []
    ensures AllCarried(RepliesOf(ExchangeAt(own + rest, gap, 0)))
  {
    var frames := own + rest;
    FirstReplies(frames, gap);
    var rs := RepliesOf(ExchangeAt(frames, gap, 0));
    forall k | 0 <= k < |rs| ensures Carried(rs[k]) {
      assert frames[1 + k] == own[1 + k];
    }
  }

  lemma CallFramesNonempty(tape: seq<Recorded>, c: Logged)
    requires Stamped(tape, c) && Asks(c)
    ensures var own := CallFrames(tape, c); own != [] && forall k :: 0 < k < |own| ==> own[k].uds != []
  {
    CallFramesShape(tape, c);
    var own, more := CallFrames(tape, c), AllRecorded(ResponseLinesOf(tape, c));
    forall k | 0 < k < |own| ensures own[k].uds != [] {
      assert own[k] == more[k - 1] && more[k - 1] in more;
    }
  }

  /** The bucket at the head of a call's frames holds the call's answer exactly when the log keeps it. */
  lemma CallBucketIff(tape: seq<Recorded>, c: Logged, rest: seq<Frame>, gap: int)
    requires Stamped(tape, c) && Asks(c) && (rest != [] ==> rest[0].tx)
    ensures CallFrames(tape, c) != []
    ensures RepliesOf(ExchangeAt(CallFrames(tape, c) + rest, gap, 0)) == AnswerTo(tape, c) <==> Kept(tape, c, gap)
  {
    var own, answer := CallFrames(tape, c), AnswerTo(tape, c);
    CallFramesNonempty(tape, c);
    BucketInCall(own, rest, gap);
    RepliesCarried(own, rest, gap);
    if AllCarried(answer) {
      CarriedBucket(tape, c, rest, gap);
    }
  }

  lemma PrefixIsWhole<T>(a: seq<T>, b: seq<T>)
    requires |a| <= |b| && forall k :: 0 <= k < |a| ==> a[k] == b[k]
    ensures a == b <==> |a| == |b|
  {
  }

  lemma CarriedBucket(tape: seq<Recorded>, c: Logged, rest: seq<Frame>, gap: int)
    requires Stamped(tape, c) && Asks(c) && (rest != [] ==> rest[0].tx) && AllCarried(AnswerTo(tape, c))
    ensures CallFrames(tape, c) != []
    ensures RepliesOf(ExchangeAt(CallFrames(tape, c) + rest, gap, 0)) == AnswerTo(tape, c) <==> Prompt(c, gap)
  {
    var own, answer := CallFrames(tape, c), AnswerTo(tape, c);
    CarriedTimes(tape, c);
    CloseIff(own, c.ms, gap);
    BucketInCall(own, rest, gap);
    BucketReplies(own, rest, gap, answer);
  }

  /** A bucket over frames that are the answer holds the answer exactly when it reaches the last of them. */
  lemma BucketReplies(own: seq<Frame>, rest: seq<Frame>, gap: int, answer: seq<Reply>)
    requires |own| == 1 + |answer| && BucketEnd(own + rest, gap, 1) <= |own|
    requires forall k :: 0 <= k < |answer| ==> Reply(own[1 + k].canId, own[1 + k].uds) == answer[k]
    ensures RepliesOf(ExchangeAt(own + rest, gap, 0)) == answer <==> BucketEnd(own + rest, gap, 1) == |own|
  {
    var frames := own + rest;
    FirstReplies(frames, gap);
    var rs := RepliesOf(ExchangeAt(frames, gap, 0));
    forall k | 0 <= k < |rs| ensures rs[k] == answer[k] {
      assert frames[1 + k] == own[1 + k];
    }
    PrefixIsWhole(rs, answer);
  }

  /** In these frames the first with the key heads a bucket with the answer exactly when it was kept, or no frame has
      the key. */
  ghost predicate Answered(frames: seq<Frame>, gap: int, canId: U32, uds: seq<Byte>, asked: bool, answer: seq<Reply>, kept: bool) {
    var i := FirstTx(frames, canId, uds, 0);
    if asked then i < |frames| && (RepliesOf(ExchangeAt(frames, gap, i)) == answer <==> kept) else i == |frames|
  }

  lemma OtherCallFirst(p: seq<Frame>, f: seq<Frame>, gap: int, canId: U32, uds: seq<Byte>, asked: bool, answer: seq<Reply>,
                       kept: bool)
    requires forall j :: 0 <= j < |p| ==> !IsTx(p[j], canId, uds)
    requires Answered(f, gap, canId, uds, asked, answer, kept)
    ensures Answered(p + f, gap, canId, uds, asked, answer, kept)
  {
    FirstTxShift(p, f, canId, uds);
    var i := FirstTx(f, canId, uds, 0);
    if i < |f| {
      ExchangeShift(p, f, gap, i);
    }
  }

  lemma KeyInCall(tape: seq<Recorded>, c: Logged, canId: U32, uds: seq<Byte>)
    requires Stamped(tape, c)
    ensures AsksLike(c, canId, uds) ==> CallFrames(tape, c) != [] && IsTx(CallFrames(tape, c)[0], canId, uds)
    ensures !AsksLike(c, canId, uds) ==> forall j :: 0 <= j < |CallFrames(tape, c)| ==> !IsTx(CallFrames(tape, c)[j], canId, uds)
  {
    CallFramesShape(tape, c);
    if Asks(c) && !AsksLike(c, canId, uds) {
      var own, more := CallFrames(tape, c), AllRecorded(ResponseLinesOf(tape, c));
      forall j | 0 <= j < |own| ensures !IsTx(own[j], canId, uds) {
        assert j > 0 ==> own[j] == more[j - 1] && more[j - 1] in more;
      }
    }
  }

  /** What the session says about a key: whether some call asks like it, the first such call's answer, and whether
      the log keeps that. */
  ghost predicate SessionAnswers(tape: seq<Recorded>, session: seq<Logged>, gap: int, canId: U32, uds: seq<Byte>, frames: seq<Frame>) {
    var f := FirstAsking(session, canId, uds);
    if f < |session| then
      Answered(frames, gap, canId, uds, true, AnswerTo(tape, session[f]), Kept(tape, session[f], gap))
    else Answered(frames, gap, canId, uds, false, [], false)
  }

  /** In the log of any session the first frame with a key heads a bucket with the first asking call's answer exactly
      when the log keeps it; a key nobody asks like has no frame. */
  lemma {:induction false} SessionBucket(tape: seq<Recorded>, session: seq<Logged>, gap: int, canId: U32, uds: seq<Byte>)
    requires AllStamped(tape, session)
    ensures SessionAnswers(tape, session, gap, canId, uds, SessionFrames(tape, session))
  {
    if session != [] {
      var c := session[0];
      var own, rest := CallFrames(tape, c), SessionFrames(tape, session[1..]);
      SessionFramesCons(tape, session);
      KeyInCall(tape, c, canId, uds);
      if AsksLike(c, canId, uds) {
        SessionStartsWithTx(tape, session[1..]);
        CallBucketIff(tape, c, rest, gap);
        assert FirstTx(own + rest, canId, uds, 0) == 0;
      } else {
        SessionBucket(tape, session[1..], gap, canId, uds);
        LaterCallAnswers(tape, session, gap, canId, uds, own, rest);
      }
    }
  }

  lemma LaterCallAnswers(tape: seq<Recorded>, session: seq<Logged>, gap: int, canId: U32, uds: seq<Byte>,
                         own: seq<Frame>, rest: seq<Frame>)
    requires session != [] && !AsksLike(session[0], canId, uds)
    requires forall j :: 0 <= j < |own| ==> !IsTx(own[j], canId, uds)
    requires SessionAnswers(tape, session[1..], gap, canId, uds, rest)
    ensures SessionAnswers(tape, session, gap, canId, uds, own + rest)
  {
    var f := FirstAsking(session[1..], canId, uds);
    if f < |session| - 1 {
      assert session[1..][f] == session[f + 1];
      OtherCallFirst(own, rest, gap, canId, uds, true, AnswerTo(tape, session[f + 1]), Kept(tape, session[f + 1], gap));
    } else {
      OtherCallFirst(own, rest, gap, canId, uds, false, [], false);
    }
  }

  // ---- re-conversion ------------------------------------------------------------------------------------

  lemma AnswerOfConverted(frames: seq<Frame>, gap: int, canId: U32, uds: seq<Byte>)
    requires uds != []
    ensures var i := FirstTx(frames, canId, uds, 0);
            i < |frames| ==> Answer(LoadedExchanges(Index(frames, gap)), canId, uds) == RepliesOf(ExchangeAt(frames, gap, i))
  {
    LookupAfterConversion(frames, gap, canId, uds);
  }

  /** The tape obtained from an activity log. */
  ghost function TapeAgain(tape: seq<Recorded>, preamble: seq<LogLine>, session: seq<Logged>, gap: int, meta: Metadata): seq<Recorded>
    requires AllStamped(tape, session)
  {
    ConvertedTape(JoinLines(PrintAll(preamble + SessionLines(tape, session))), gap, meta)
  }

  lemma LogFrames(tape: seq<Recorded>, preamble: seq<LogLine>, session: seq<Logged>)
    requires forall l :: l in preamble ==> l.Comment? && Printable(l)
    requires AllStamped(tape, session)
    ensures FramesOfText(JoinLines(PrintAll(preamble + SessionLines(tape, session)))) == SessionFrames(tape, session)
  {
    var lines := SessionLines(tape, session);
    SessionLinesPrintable(tape, session);
    LogFileRoundTrip(preamble + lines);
    FlatMapAppend(FramesRecorded, preamble, lines);
    CommentsRecordNothing(preamble);
    assert [] + AllRecorded(lines) == AllRecorded(lines);
  }

  lemma TapeAgainIs(tape: seq<Recorded>, preamble: seq<LogLine>, session: seq<Logged>, gap: int, meta: Metadata)
    requires forall l :: l in preamble ==> l.Comment? && Printable(l)
    requires AllStamped(tape, session)
    ensures TapeAgain(tape, preamble, session, gap, meta) == LoadedExchanges(Index(SessionFrames(tape, session), gap))
  {
    LogFrames(tape, preamble, session);
    TapeOfConverted(meta, Index(SessionFrames(tape, session), gap));
  }

  /** Run any session of calls, convert the activity log, and load the result. The new tape knows a request exactly when
      some call of the session asked like it; and it answers it as the old tape answered the first such call exactly
      when every reply of that answer can be carried and the call's lines were prompt. */
  lemma ReconversionIff(tape: seq<Recorded>, preamble: seq<LogLine>, session: seq<Logged>, gap: int, meta: Metadata,
                        canId: U32, uds: seq<Byte>)
    requires uds != []
    requires forall l :: l in preamble ==> l.Comment? && Printable(l)
    requires AllStamped(tape, session)
    ensures Reconverted(tape, session, gap, TapeAgain(tape, preamble, session, gap, meta), canId, uds)
  {
    var frames := SessionFrames(tape, session);
    TapeAgainIs(tape, preamble, session, gap, meta);
    SessionBucket(tape, session, gap, canId, uds);
    AnswerOfConverted(frames, gap, canId, uds);
    LookupAfterConversion(frames, gap, canId, uds);
  }

  ghost predicate Reconverted(tape: seq<Recorded>, session: seq<Logged>, gap: int, again: seq<Recorded>, canId: U32, uds: seq<Byte>)
    requires uds != []
  {
    var f := FirstAsking(session, canId, uds);
    && (Lookup(again, canId, uds).Some? <==> f < |session|)
    && (f < |session| ==> (Answer(again, canId, uds) == AnswerTo(tape, session[f]) <==> Kept(tape, session[f], gap)))
  }

  predicate AsksFor(c: Logged, canId: U32, uds: seq<Byte>) {
    Asks(c) && RequestId(Data(c)) == canId && RequestUds(Data(c)) == uds
  }

  /** Some call of the session asks for the key. */
  predicate Asked(session: seq<Logged>, canId: U32, uds: seq<Byte>) {
    exists i :: 0 <= i < |session| && AsksFor(session[i], canId, uds)
  }

  predicate ShortRequests(session: seq<Logged>) {
    forall i :: 0 <= i < |session| && Asks(session[i]) ==> RequestId(Data(session[i])) < TWO16
  }

  predicate AllPrompt(session: seq<Logged>, gap: int) {
    forall i :: 0 <= i < |session| && Asks(session[i]) ==> Prompt(session[i], gap)
  }

  /** For 16-bit requests and prompt lines the new tape answers every request of the session as the old one did exactly
      when all replies of that answer can be carried, recorded responses and negative responses alike; and it holds no
      other key. */
  lemma ReconversionFixpoint(tape: seq<Recorded>, preamble: seq<LogLine>, session: seq<Logged>, gap: int, meta: Metadata,
                             canId: U32, uds: seq<Byte>)
    requires uds != []
    requires forall l :: l in preamble ==> l.Comment? && Printable(l)
    requires AllStamped(tape, session) && ShortRequests(session) && AllPrompt(session, gap)
    ensures var again := TapeAgain(tape, preamble, session, gap, meta);
            && (Lookup(again, canId, uds).Some? <==> Asked(session, canId, uds))
            && (Asked(session, canId, uds) ==>
                  (Answer(again, canId, uds) == Answer(tape, canId, uds) <==> AllCarried(Answer(tape, canId, uds))))
  {
    ReconversionIff(tape, preamble, session, gap, meta, canId, uds);
    ShortAsks(session, canId, uds);
  }

  lemma ShortAsks(session: seq<Logged>, canId: U32, uds: seq<Byte>)
    requires ShortRequests(session)
    ensures var f := FirstAsking(session, canId, uds);
            && (f < |session| <==> Asked(session, canId, uds))
            && (f < |session| ==> AsksFor(session[f], canId, uds))
  {
    forall i | 0 <= i < |session| ensures AsksLike(session[i], canId, uds) <==> AsksFor(session[i], canId, uds) {
    }
    var f := FirstAsking(session, canId, uds);
    if f < |session| {
      assert AsksFor(session[f], canId, uds);
    }
  }

  lemma {:induction false} CommentsRecordNothing(ls: seq<LogLine>)
    requires forall l :: l in ls ==> l.Comment?
    ensures AllRecorded(ls) == []
  {
    if ls != [] {
      assert ls[0] in ls;
      CommentsRecordNothing(ls[1..]);
    }
  }
}
