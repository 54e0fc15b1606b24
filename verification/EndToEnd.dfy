/** Captured log to converted document to loaded tape to replayed events, as one statement. */
module EndToEnd {
  import opened Bytes
  import opened Seqs
  import opened Text
  import opened HexCodec
  import opened LogFormat
  import opened Json
  import opened JsonEscape
  import opened JsonText
  import opened Converter
  import opened Recording
  import opened RecordingMeaning
  import opened EventQueue
  import opened Replay

  // ---- converter and loader ---------------------------------------------------------------------

  function LoadedResponse(r: Rx): Response {
    Response(r.canId, r.uds, LoadedDelay(r.delayMs))
  }

  function LoadedResponses(rx: seq<Rx>): seq<Response> {
    seq(|rx|, i requires 0 <= i < |rx| => LoadedResponse(rx[i]))
  }

  function LoadedExchange(x: Exchange): Recorded {
    Recorded(x.txCanId, x.txUds, LoadedResponses(x.rxList))
  }

  function LoadedExchanges(xs: seq<Exchange>): seq<Recorded> {
    seq(|xs|, i requires 0 <= i < |xs| => LoadedExchange(xs[i]))
  }

  lemma FieldAt(ms: seq<Member>, key: string, text: string, i: nat)
    requires Unique(ms, key, i) && i < |ms| && Scalar(ms[i].value) && ms[i].value.text == text
    ensures Field(ms, key, text)
  {
  }

  lemma RxJsonRepresents(r: Rx)
    ensures RepresentsResponse(RxJson(r), LoadedResponse(r))
  {
    var ms := RxJson(r).members;
    FieldAt(ms, "can_id", FormatCanId(r.canId), 0);
    FieldAt(ms, "uds", HexSpaced(r.uds, false), 1);
    FieldAt(ms, "delay_ms", DelayText(r.delayMs), 2);
  }

  lemma TxJsonRepresents(canId: U16, uds: seq<Byte>)
    ensures RepresentsTx(TxJson(canId, uds), canId, uds)
  {
    var ms := TxJson(canId, uds).members;
    FieldAt(ms, "can_id", FormatCanId(canId), 0);
    FieldAt(ms, "uds", HexSpaced(uds, false), 1);
  }

  lemma RxListRepresents(rx: seq<Rx>)
    ensures RepresentsRx(RxListJson(rx), LoadedResponses(rx))
  {
    forall i | 0 <= i < |rx| ensures RepresentsResponse(RxListJson(rx).elems[i], LoadedResponses(rx)[i]) {
      RxJsonRepresents(rx[i]);
    }
  }

  lemma ExchangeJsonRepresents(x: Exchange)
    ensures RepresentsExchange(ExchangeJson(x), LoadedExchange(x))
  {
    var ms := ExchangeJson(x).members;
    TxJsonRepresents(x.txCanId, x.txUds);
    RxListRepresents(x.rxList);
    assert Unique(ms, "tx", 0) && Unique(ms, "rx", 1);
  }

  /** Whatever the converter writes, the loader reads back exchange by exchange, from any layout of the text. */
  lemma ConvertedDocumentLoads(json: string, meta: Metadata, xs: seq<Exchange>)
    requires SpellsValue(json, Document(meta, ExchangesJson(xs)))
    ensures LoadText(json).Some? && LoadText(json).value.exchanges == LoadedExchanges(xs)
  {
    var doc := Document(meta, ExchangesJson(xs));
    forall i | 0 <= i < |xs| ensures RepresentsExchange(doc.members[4].value.elems[i], LoadedExchange(xs[i])) {
      ExchangeJsonRepresents(xs[i]);
    }
    assert RepresentsExchanges(doc.members[4].value, LoadedExchanges(xs));
    assert Unique(doc.members, "exchanges", 4);
    LoaderRoundTrip(json, doc, LoadedExchanges(xs));
  }

  /** The tape loaded from a recording file. */
  function TapeOf(json: string): seq<Recorded> {
    match LoadText(json)
    case Some(tape) => tape.exchanges
    case None => []
  }

  /** The recording file made from a log file. */
  ghost function ConvertedText(log: string, gap: int, meta: Metadata): string {
    Dumps(Document(meta, ExchangesJson(Index(FramesOfText(log), gap))), 0)
  }

  /** The tape obtained from a log file. */
  ghost function ConvertedTape(log: string, gap: int, meta: Metadata): seq<Recorded> {
    TapeOf(ConvertedText(log, gap, meta))
  }

  lemma TapeOfConverted(meta: Metadata, xs: seq<Exchange>)
    ensures TapeOf(Dumps(Document(meta, ExchangesJson(xs)), 0)) == LoadedExchanges(xs)
  {
    DocumentSpelled(meta, xs);
    ConvertedDocumentLoads(Dumps(Document(meta, ExchangesJson(xs)), 0), meta, xs);
  }

  lemma ExchangesShaped(xs: seq<Exchange>)
    ensures forall i :: 0 <= i < |xs| ==> ExchangeShaped(ExchangesJson(xs)[i])
  {
    forall i | 0 <= i < |xs| ensures ExchangeShaped(ExchangesJson(xs)[i]) {
      ExchangeJsonRepresents(xs[i]);
      ExchangeRepresented(ExchangesJson(xs)[i], LoadedExchange(xs[i]));
    }
  }

  lemma DocumentShaped(meta: Metadata, xs: seq<Exchange>)
    ensures var ms := Document(meta, ExchangesJson(xs)).members;
            TopMembersShaped(ms) && Unique(ms, "recording_id", 0) && Unique(ms, "vehicle_profile", 2)
  {
    ExchangesShaped(xs);
  }

  /** The names loaded from any text of a converted document: as much of the metadata's escaped form as the field takes. */
  lemma DocumentNames(json: string, meta: Metadata, xs: seq<Exchange>)
    requires SpellsValue(json, Document(meta, ExchangesJson(xs)))
    ensures LoadText(json).Some?
    ensures LoadText(json).value.recordingId == Escape(meta.recordingId)[..Taken(Escape(meta.recordingId))]
    ensures LoadText(json).value.vehicle == Escape(meta.vehicle)[..Taken(Escape(meta.vehicle))]
  {
    DocumentShaped(meta, xs);
    NamesLoadedOnce(json, Document(meta, ExchangesJson(xs)), 0, 2);
  }

  /** From any log file: plain metadata of at most 127 characters arrives as it is. */
  lemma ConvertedNames(log: string, gap: int, meta: Metadata)
    ensures LoadText(ConvertedText(log, gap, meta)).Some?
    ensures var tape := LoadText(ConvertedText(log, gap, meta)).value;
            && (Plain(meta.recordingId) && |meta.recordingId| <= 127 ==> tape.recordingId == meta.recordingId)
            && (Plain(meta.vehicle) && |meta.vehicle| <= 127 ==> tape.vehicle == meta.vehicle)
  {
    var xs := Index(FramesOfText(log), gap);
    DocumentSpelled(meta, xs);
    DocumentNames(ConvertedText(log, gap, meta), meta, xs);
    PlainTaken(meta.recordingId);
    PlainTaken(meta.vehicle);
  }

  lemma PlainTaken(s: string)
    ensures Plain(s) && |s| <= 127 ==> Escape(s)[..Taken(Escape(s))] == s
  {
    if Plain(s) && |s| <= 127 {
      PlainEscape(s);
      assert s[..|s|] == s;
    }
  }

  // ---- lookup in the converted tape -----------------------------------------------------------------

  predicate IsTx(f: Frame, canId: U32, uds: seq<Byte>) {
    f.tx && f.canId == canId && f.uds == uds
  }

  /** The position from `i` on of the first request frame with the key, |frames| if there is none. */
  function FirstTx(frames: seq<Frame>, canId: U32, uds: seq<Byte>, i: nat): (r: nat)
    requires i <= |frames|
    ensures i <= r <= |frames|
    ensures forall j :: i <= j < r ==> !IsTx(frames[j], canId, uds)
    ensures r < |frames| ==> IsTx(frames[r], canId, uds)
    decreases |frames| - i
  {
    if i == |frames| || IsTx(frames[i], canId, uds) then i else FirstTx(frames, canId, uds, i + 1)
  }

  lemma PairedKey(frames: seq<Frame>, gap: int, k: Key, m: nat)
    requires m < |Paired(frames, gap)|
    ensures var i := TxIndices(frames, |frames|)[m];
            KeyOf(Paired(frames, gap)[m]) == k <==> IsTx(frames[i], k.canId, k.uds)
  {
    TxIndicesExact(frames, |frames|);
    assert TxIndices(frames, |frames|)[m] in TxIndices(frames, |frames|);
  }

  /** Some paired exchange has the key of a request frame, no later in the list than the frame's own. */
  lemma PairedNoLater(frames: seq<Frame>, gap: int, k: Key, i: nat) returns (l: nat)
    requires i < |frames| && IsTx(frames[i], k.canId, k.uds)
    ensures l < |Paired(frames, gap)| && TxIndices(frames, |frames|)[l] == i && FirstWithKey(Paired(frames, gap), k) <= l
  {
    var xs, tx := Paired(frames, gap), TxIndices(frames, |frames|);
    TxIndicesExact(frames, |frames|);
    assert i in tx;
    l :| 0 <= l < |tx| && tx[l] == i;
    PairedKey(frames, gap, k, l);
  }

  /** Among the paired exchanges the first with a key is the one of the first request frame with it. */
  lemma FirstPairedIsFirstTx(frames: seq<Frame>, gap: int, k: Key)
    ensures var xs := Paired(frames, gap);
            var i, m := FirstTx(frames, k.canId, k.uds, 0), FirstWithKey(xs, k);
            if i < |frames| then m < |xs| && xs[m] == ExchangeAt(frames, gap, i) else m == |xs|
  {
    var xs, tx := Paired(frames, gap), TxIndices(frames, |frames|);
    var i, m := FirstTx(frames, k.canId, k.uds, 0), FirstWithKey(xs, k);
    if m < |xs| {
      PairedKey(frames, gap, k, m);
      assert i <= tx[m] && i < |frames|;
    }
    if i < |frames| {
      var l := PairedNoLater(frames, gap, k, i);
      TxIndicesExact(frames, |frames|);
      assert tx[m] <= tx[l];
    }
  }

  lemma FirstMatchIsFirstKey(r: seq<Exchange>, k: Key)
    ensures FirstMatch(LoadedExchanges(r), k.canId, k.uds, 0) == FirstWithKey(r, k)
  {
    var loaded := LoadedExchanges(r);
    forall i | 0 <= i < |r| ensures HasKey(loaded[i], k.canId, k.uds) <==> KeyOf(r[i]) == k {
    }
    var a, b := FirstMatch(loaded, k.canId, k.uds, 0), FirstWithKey(r, k);
    assert a < |r| ==> KeyOf(r[a]) == k;
    assert b < |r| ==> HasKey(loaded[b], k.canId, k.uds);
  }

  /** After conversion and loading, a request finds the exchange of the first frame that made it, and nothing
      exactly when no request frame has its key. */
  lemma LookupAfterConversion(frames: seq<Frame>, gap: int, canId: U32, uds: seq<Byte>)
    ensures var i := FirstTx(frames, canId, uds, 0);
            Lookup(LoadedExchanges(Index(frames, gap)), canId, uds) ==
            if i < |frames| then Some(LoadedExchange(ExchangeAt(frames, gap, i))) else None
  {
    var xs := Paired(frames, gap);
    var r := FirstWins(xs, |xs|);
    if canId < TWO16 {
      var k := Key(canId, uds);
      FirstPairedIsFirstTx(frames, gap, k);
      FirstWinsLookup(xs, |xs|, k);
      FirstMatchIsFirstKey(r, k);
    } else {
      forall j | 0 <= j < |r| ensures !HasKey(LoadedExchanges(r)[j], canId, uds) {
      }
    }
  }

  // ---- the capture and its replay -----------------------------------------------------------------------

  datatype Traffic = Traffic(ms: nat, request: bool, bytes: seq<Byte>)

  /** A traffic record the converter takes up: a 4-byte header and at least one UDS byte. */
  type Record = r: Traffic | |r.bytes| >= 5 witness Traffic(0, true, [0, 0, 0, 0, 0])

  /** The traffic records of a capture, in order. */
  function Records(lines: seq<LogLine>): seq<Record> {
    FlatMap(RecordOf, lines)
  }

  function RecordOf(l: LogLine): seq<Record> {
    if l.Hex? && IsTraffic(l.tag) && |l.bytes| >= 5 then [Traffic(l.ms, l.tag == REQ_PDU, l.bytes)] else []
  }

  function FrameOfRecord(r: Record): Frame {
    FrameOf(r.ms, r.request, r.bytes)
  }

  function FramesOf(recs: seq<Record>): seq<Frame> {
    seq(|recs|, i requires 0 <= i < |recs| => FrameOfRecord(recs[i]))
  }

  lemma {:induction false} RecordsAreFrames(lines: seq<LogLine>)
    ensures AllRecorded(lines) == FramesOf(Records(lines))
  {
    if lines != [] {
      RecordsAreFrames(lines[1..]);
      var first, rest := RecordOf(lines[0]), Records(lines[1..]);
      assert FramesOf(first + rest) == FramesOf(first) + FramesOf(rest);
      assert FramesRecorded(lines[0]) == FramesOf(first);
    }
  }

  /** The frames parsed from a printed capture are those of its records. */
  lemma CaptureFrames(lines: seq<LogLine>)
    requires forall k :: 0 <= k < |lines| ==> Printable(lines[k])
    ensures FramesOfText(JoinLines(PrintAll(lines))) == FramesOf(Records(lines))
  {
    LogFileRoundTrip(lines);
    RecordsAreFrames(lines);
  }

  predicate HeaderIsShort(r: Record) {
    r.bytes[0] == 0 && r.bytes[1] == 0
  }

  /** What a captured record becomes when it is replayed: its two upper header bytes are lost. */
  function Shortened(r: Record): seq<Byte> {
    [0, 0] + r.bytes[2..]
  }

  lemma ShortenedIff(r: Record)
    ensures Shortened(r) == r.bytes <==> HeaderIsShort(r)
  {
    assert r.bytes == [r.bytes[0], r.bytes[1]] + r.bytes[2..];
    assert Shortened(r)[0] == 0 && Shortened(r)[1] == 0;
  }

  lemma ShortBigEndian(hi: Byte, lo: Byte)
    ensures BigEndian((hi as int) * 0x100 + lo) == [0, 0, hi, lo]
  {
  }

  lemma PayloadOfRecord(r: Record)
    ensures var f := FrameOfRecord(r); BigEndian(f.canId) + f.uds == Shortened(r)
  {
    var f, b := FrameOfRecord(r), r.bytes;
    ShortBigEndian(b[2], b[3]);
    assert b[2..] == [b[2], b[3]] + b[4..];
  }

  /** The request frame a record makes is the one its own bytes ask for, exactly when its header is short. */
  lemma OwnRequest(r: Record)
    requires r.request
    ensures IsTx(FrameOfRecord(r), RequestId(r.bytes), RequestUds(r.bytes)) <==> HeaderIsShort(r)
  {
    var id := r.bytes[..4];
    ShortIdHeader(id);
    assert id[0] == r.bytes[0] && id[1] == r.bytes[1] && id[2] == r.bytes[2] && id[3] == r.bytes[3];
  }

  /** Milliseconds from frame `i` to its n-th response as the loader adds them up. */
  function LoadedElapsed(frames: seq<Frame>, i: nat, n: nat): nat
    requires i + n < |frames|
  {
    if n == 0 then 0 else LoadedElapsed(frames, i, n - 1) + LoadedDelay(frames[i + n].ms - frames[i + n - 1].ms)
  }

  lemma {:induction false} ElapsedIsTotal(frames: seq<Frame>, i: nat, hi: nat, n: nat)
    requires i + 1 <= hi <= |frames| && n <= hi - (i + 1)
    ensures TotalDelayMs(LoadedResponses(RxRange(frames, i + 1, hi)), n) == LoadedElapsed(frames, i, n)
  {
    if n > 0 {
      ElapsedIsTotal(frames, i, hi, n - 1);
      assert RxRange(frames, i + 1, hi)[n - 1] == RxAt(frames, i + n);
    }
  }

  /** The n records after record `i`, their headers shortened, each on its link under its handle. */
  ghost predicate Replays(events: seq<Event>, recs: seq<Record>, i: nat, n: nat, link: Link, hCop: U32, tag: int) {
    && |events| == n && i + n < |recs|
    && forall k :: 0 <= k < n ==>
         && events[k].payload == Shortened(recs[i + 1 + k])
         && events[k].link == link && events[k].hCop == hCop && events[k].tag == tag && events[k].itemType == 0x1300
  }

  /** Each event is due the loaded delays after the call. */
  ghost predicate DueAsLoaded(events: seq<Event>, frames: seq<Frame>, i: nat, tick: U64) {
    && i + |events| < |frames|
    && forall k :: 0 <= k < |events| ==> events[k].due == tick * 1000 + LoadedElapsed(frames, i, k + 1) * 1000
  }

  ghost function BucketSize(frames: seq<Frame>, gap: int, i: nat): (n: nat)
    requires i < |frames|
    ensures i + n < |frames|
  {
    BucketEnd(frames, gap, i + 1) - (i + 1)
  }

  ghost function BucketResponses(frames: seq<Frame>, i: nat, hi: nat): seq<Response>
    requires i < hi <= |frames|
  {
    LoadedResponses(RxRange(frames, i + 1, hi))
  }

  lemma BucketPayloads(recs: seq<Record>, i: nat, hi: nat)
    requires i < hi <= |recs|
    ensures var rs := BucketResponses(FramesOf(recs), i, hi);
            |rs| == hi - (i + 1) && forall k :: 0 <= k < |rs| ==> ResponsePayload(rs[k]) == Shortened(recs[i + 1 + k])
  {
    var frames := FramesOf(recs);
    var rs := BucketResponses(frames, i, hi);
    forall k | 0 <= k < |rs| ensures ResponsePayload(rs[k]) == Shortened(recs[i + 1 + k]) {
      PayloadOfRecord(recs[i + 1 + k]);
      assert rs[k] == LoadedResponse(RxAt(frames, i + 1 + k));
    }
  }

  lemma BucketDues(frames: seq<Frame>, i: nat, hi: nat, tick: U64, link: Link, tag: int, hCop: U32)
    requires i < hi <= |frames| && tick * 1000 + LoadedElapsed(frames, i, hi - (i + 1)) * 1000 < TWO64
    ensures var rs := BucketResponses(frames, i, hi);
            DueAsLoaded(ResponseEvents(rs, |rs|, NowUs(tick), link, hCop, tag), frames, i, tick)
  {
    var rs := BucketResponses(frames, i, hi);
    ElapsedIsTotal(frames, i, hi, |rs|);
    forall k | 0 <= k < |rs|
      ensures ResponseEvents(rs, |rs|, NowUs(tick), link, hCop, tag)[k].due
           == tick * 1000 + LoadedElapsed(frames, i, k + 1) * 1000
    {
      ElapsedIsTotal(frames, i, hi, k + 1);
      DueTimes(rs, |rs|, k, tick, link, hCop, tag);
    }
  }

  lemma ReplayOfBucket(recs: seq<Record>, gap: int, tick: U64, link: Link, tag: int, hCop: U32, i: nat)
    requires i < |recs|
    ensures var frames := FramesOf(recs);
            var rs := LoadedExchange(ExchangeAt(frames, gap, i)).responses;
            var events := ResponseEvents(rs, |rs|, NowUs(tick), link, hCop, tag);
            var n := BucketSize(frames, gap, i);
            && Replays(events, recs, i, n, link, hCop, tag)
            && (tick * 1000 + LoadedElapsed(frames, i, n) * 1000 < TWO64 ==> DueAsLoaded(events, frames, i, tick))
  {
    var frames := FramesOf(recs);
    var hi := BucketEnd(frames, gap, i + 1);
    assert LoadedExchange(ExchangeAt(frames, gap, i)).responses == BucketResponses(frames, i, hi);
    BucketPayloads(recs, i, hi);
    if tick * 1000 + LoadedElapsed(frames, i, hi - (i + 1)) * 1000 < TWO64 {
      BucketDues(frames, i, hi, tick, link, tag, hCop);
    }
  }

  /** The replay of any request against the tape converted from any capture: the bucket of the first request
      record with its key, or the negative response if there is none. */
  lemma ReplayOfCapture(recs: seq<Record>, gap: int, tick: U64, link: Link, data: seq<Byte>, tag: int, hCop: U32)
    requires |data| >= 5
    ensures var frames := FramesOf(recs);
            var events := Scheduled(LoadedExchanges(Index(frames, gap)), tick, link, 0x8010, Some(data), tag, hCop);
            var i := FirstTx(frames, RequestId(data), RequestUds(data), 0);
            if i == |frames| then
              Refuses(events, tick, link, data, tag, hCop)
            else
              var n := BucketSize(frames, gap, i);
              && Replays(events, recs, i, n, link, hCop, tag)
              && (tick * 1000 + LoadedElapsed(frames, i, n) * 1000 < TWO64 ==> DueAsLoaded(events, frames, i, tick))
  {
    var frames := FramesOf(recs);
    var i := FirstTx(frames, RequestId(data), RequestUds(data), 0);
    LookupAfterConversion(frames, gap, RequestId(data), RequestUds(data));
    if i < |frames| {
      ReplayOfBucket(recs, gap, tick, link, tag, hCop, i);
    } else {
      RefusalRefuses(tick, link, data, tag, hCop);
    }
  }

  // ---- exactness of the timing ---------------------------------------------------------------------------

  /** Frame k follows the one before it by a time the 32-bit delay field can hold. */
  predicate DelayHolds(frames: seq<Frame>, k: nat)
    requires 0 < k < |frames|
  {
    0 <= frames[k].ms - frames[k - 1].ms < TWO32
  }

  lemma {:induction false} ElapsedExact(frames: seq<Frame>, i: nat, n: nat)
    requires i + n < |frames|
    requires forall k :: i < k <= i + n ==> DelayHolds(frames, k)
    ensures LoadedElapsed(frames, i, n) == frames[i + n].ms - frames[i].ms
  {
    if n > 0 {
      ElapsedExact(frames, i, n - 1);
      assert DelayHolds(frames, i + n);
    }
  }

  /** The loader's time of the n-th frame after `i` is the captured one. */
  predicate ElapsedHolds(frames: seq<Frame>, i: nat, n: nat)
    requires i + n < |frames|
  {
    LoadedElapsed(frames, i, n) == frames[i + n].ms - frames[i].ms
  }

  /** The loaded delays after frame `i` reproduce the captured distances exactly when every one of the n frames
      follows the one before by 0 to 2^32 - 1 milliseconds; a clock stepping back is what breaks it. */
  lemma {:induction false} TimingExactIff(frames: seq<Frame>, i: nat, n: nat)
    requires i + n < |frames|
    ensures (forall k :: 1 <= k <= n ==> ElapsedHolds(frames, i, k))
       <==> (forall k :: i < k <= i + n ==> DelayHolds(frames, k))
  {
    if n > 0 {
      TimingExactIff(frames, i, n - 1);
      if forall k :: i < k <= i + n - 1 ==> DelayHolds(frames, k) {
        ElapsedExact(frames, i, n - 1);
        assert DelayHolds(frames, i + n) <==> ElapsedHolds(frames, i, n);
        assert (forall k :: i < k <= i + n ==> DelayHolds(frames, k)) <==> DelayHolds(frames, i + n);
      }
    }
  }

  predicate MonotoneClock(frames: seq<Frame>) {
    forall j, k :: 0 <= j < k < |frames| ==> frames[j].ms <= frames[k].ms
  }

  /** Frames of one bucket on a monotone clock, under a gap cap below 2^32, always qualify. */
  lemma MonotoneBucketHolds(frames: seq<Frame>, gap: int, i: nat)
    requires i < |frames| && gap < TWO32 && MonotoneClock(frames)
    ensures forall k :: i < k <= i + BucketSize(frames, gap, i) ==> DelayHolds(frames, k)
  {
    forall k | i < k <= i + BucketSize(frames, gap, i) ensures DelayHolds(frames, k) {
      assert Continues(frames, gap, k);
    }
  }

  // ---- the main theorem ---------------------------------------------------------------------------------

  /** Captures that can be replayed faithfully: a clock that never steps back and short headers. */
  predicate Faithful(recs: seq<Record>) {
    MonotoneClock(FramesOf(recs)) && forall k :: 0 <= k < |recs| ==> HeaderIsShort(recs[k])
  }

  predicate FirstRequest(recs: seq<Record>, i: nat) {
    i < |recs| && recs[i].request && forall j :: 0 <= j < i && recs[j].request ==> recs[j].bytes != recs[i].bytes
  }

  lemma SameKeySameBytes(a: Record, b: Record)
    requires HeaderIsShort(a) && HeaderIsShort(b)
    requires FrameOfRecord(a).canId == FrameOfRecord(b).canId && FrameOfRecord(a).uds == FrameOfRecord(b).uds
    ensures a.bytes == b.bytes
  {
    PayloadOfRecord(a);
    PayloadOfRecord(b);
    ShortenedIff(a);
    ShortenedIff(b);
  }

  /** With short headers, the first record with its bytes is the first request frame with its key. */
  lemma FirstRequestIsItself(recs: seq<Record>, i: nat)
    requires Faithful(recs) && FirstRequest(recs, i)
    ensures FirstTx(FramesOf(recs), RequestId(recs[i].bytes), RequestUds(recs[i].bytes), 0) == i
  {
    var frames, b := FramesOf(recs), recs[i].bytes;
    OwnRequest(recs[i]);
    assert IsTx(frames[i], RequestId(b), RequestUds(b));
    var j := FirstTx(frames, RequestId(b), RequestUds(b), 0);
    if j < i {
      SameKeySameBytes(recs[j], recs[i]);
    }
  }

  ghost predicate PayloadsExact(events: seq<Event>, recs: seq<Record>, i: nat) {
    i + |events| < |recs| && forall k :: 0 <= k < |events| ==> events[k].payload == recs[i + 1 + k].bytes
  }

  ghost predicate DuesExact(events: seq<Event>, recs: seq<Record>, i: nat, tick: U64) {
    && i + |events| < |recs|
    && forall k :: 0 <= k < |events| ==> events[k].due == tick * 1000 + (recs[i + 1 + k].ms - recs[i].ms) * 1000
  }

  /** The n responses after record `i`, byte for byte, each due its captured distance after the call. */
  ghost predicate ExactReplay(events: seq<Event>, recs: seq<Record>, i: nat, n: nat, tick: U64, link: Link, hCop: U32, tag: int) {
    && Replays(events, recs, i, n, link, hCop, tag)
    && PayloadsExact(events, recs, i)
    && DuesExact(events, recs, i, tick)
  }

  predicate HeadersHold(recs: seq<Record>, i: nat, n: nat)
    requires i + n < |recs|
  {
    forall k :: i < k <= i + n ==> HeaderIsShort(recs[k])
  }

  predicate GapsHold(frames: seq<Frame>, i: nat, n: nat)
    requires i + n < |frames|
  {
    forall k :: i < k <= i + n ==> DelayHolds(frames, k)
  }

  lemma PayloadsExactIff(events: seq<Event>, recs: seq<Record>, i: nat, n: nat, link: Link, hCop: U32, tag: int)
    requires Replays(events, recs, i, n, link, hCop, tag)
    ensures PayloadsExact(events, recs, i) <==> HeadersHold(recs, i, n)
  {
    forall k | 0 <= k < n ensures events[k].payload == recs[i + 1 + k].bytes <==> HeaderIsShort(recs[i + 1 + k]) {
      ShortenedIff(recs[i + 1 + k]);
    }
    if PayloadsExact(events, recs, i) {
      forall k | i < k <= i + n ensures HeaderIsShort(recs[k]) {
        assert events[k - i - 1].payload == recs[i + 1 + (k - i - 1)].bytes;
      }
    }
  }

  lemma DuesExactIff(events: seq<Event>, recs: seq<Record>, i: nat, tick: U64)
    requires DueAsLoaded(events, FramesOf(recs), i, tick)
    ensures DuesExact(events, recs, i, tick) <==> GapsHold(FramesOf(recs), i, |events|)
  {
    var frames, n := FramesOf(recs), |events|;
    TimingExactIff(frames, i, n);
    forall k | 0 <= k < n
      ensures events[k].due == tick * 1000 + (recs[i + 1 + k].ms - recs[i].ms) * 1000 <==> ElapsedHolds(frames, i, k + 1)
    {
      assert frames[i + (k + 1)].ms == recs[i + 1 + k].ms;
    }
    if forall k :: 1 <= k <= n ==> ElapsedHolds(frames, i, k) {
      forall k | 0 <= k < n ensures events[k].due == tick * 1000 + (recs[i + 1 + k].ms - recs[i].ms) * 1000 {
        assert ElapsedHolds(frames, i, k + 1);
      }
    } else {
      var k :| 1 <= k <= n && !ElapsedHolds(frames, i, k);
      assert events[k - 1].due != tick * 1000 + (recs[i + 1 + (k - 1)].ms - recs[i].ms) * 1000;
    }
  }

  // ---- whose responses a captured request gets --------------------------------------------------------------

  /** Records `i` and `j` are requests the converter cannot tell apart: they agree behind the two upper header bytes. */
  predicate SameKey(recs: seq<Record>, i: nat, j: nat)
    requires i < |recs| && j < |recs|
  {
    recs[j].request && recs[j].bytes[2..] == recs[i].bytes[2..]
  }

  /** The first request record with the key of record `i`. */
  function FirstSharing(recs: seq<Record>, i: nat, k: nat): (r: nat)
    requires k <= i < |recs|
    ensures k <= r <= i
    ensures forall j :: k <= j < r ==> !SameKey(recs, i, j)
    ensures r < i ==> SameKey(recs, i, r)
    decreases i - k
  {
    if k == i || SameKey(recs, i, k) then k else FirstSharing(recs, i, k + 1)
  }

  /** The record whose bucket record `i`'s request is answered from when its header is short. */
  function Source(recs: seq<Record>, i: nat): (r: nat)
    requires i < |recs|
    ensures r <= i
    ensures forall j :: 0 <= j < r ==> !SameKey(recs, i, j)
    ensures recs[i].request ==> SameKey(recs, i, r)
  {
    FirstSharing(recs, i, 0)
  }

  /** Record `j` makes the frame that record `i`, when its header is short, asks for exactly when they share a key;
      a request with a long header asks for what no frame can be. */
  lemma AsksForKeyOf(recs: seq<Record>, i: nat, j: nat)
    requires i < |recs| && j < |recs|
    ensures IsTx(FrameOfRecord(recs[j]), RequestId(recs[i].bytes), RequestUds(recs[i].bytes))
       <==> HeaderIsShort(recs[i]) && SameKey(recs, i, j)
  {
    var a, b := recs[i].bytes, recs[j].bytes;
    HeaderOf(a);
    KeyBytes(a, b);
  }

  lemma HeaderOf(a: seq<Byte>)
    requires |a| >= 5
    ensures RequestId(a) < TWO16 <==> a[0] == 0 && a[1] == 0
    ensures RequestId(a) < TWO16 ==> RequestId(a) == (a[2] as int) * 0x100 + a[3]
  {
    var id := a[..4];
    ShortIdHeader(id);
    assert id[0] == a[0] && id[1] == a[1] && id[2] == a[2] && id[3] == a[3];
  }

  /** Two byte strings agree from position 2 on exactly when their 16-bit id and their UDS bytes agree. */
  lemma KeyBytes(a: seq<Byte>, b: seq<Byte>)
    requires |a| >= 5 && |b| >= 5
    ensures a[2..] == b[2..] <==>
            (a[2] as int) * 0x100 + a[3] == (b[2] as int) * 0x100 + b[3] && a[4..] == b[4..]
  {
    assert a[2..] == [a[2], a[3]] + a[4..] && b[2..] == [b[2], b[3]] + b[4..];
    if a[2..] == b[2..] {
      assert a[2..][0] == b[2..][0] && a[2..][1] == b[2..][1];
      assert a[4..] == a[2..][2..] == b[2..][2..] == b[4..];
    }
  }

  /** A captured request finds the first request record that shares its key when its header is short, and nothing
      otherwise. */
  lemma RequestFinds(recs: seq<Record>, i: nat)
    requires i < |recs| && recs[i].request
    ensures FirstTx(FramesOf(recs), RequestId(recs[i].bytes), RequestUds(recs[i].bytes), 0)
         == if HeaderIsShort(recs[i]) then Source(recs, i) else |recs|
  {
    var frames, canId, uds := FramesOf(recs), RequestId(recs[i].bytes), RequestUds(recs[i].bytes);
    forall j | 0 <= j < |recs| ensures IsTx(frames[j], canId, uds) <==> HeaderIsShort(recs[i]) && SameKey(recs, i, j) {
      AsksForKeyOf(recs, i, j);
    }
    var f := FirstTx(frames, canId, uds, 0);
    if HeaderIsShort(recs[i]) {
      var r := Source(recs, i);
      assert SameKey(recs, i, r) && IsTx(frames[r], canId, uds);
    }
  }

  /** No earlier request shares the key of record `i`, and record `i` itself has a short header. */
  predicate OwnsKey(recs: seq<Record>, i: nat)
    requires i < |recs|
  {
    HeaderIsShort(recs[i]) && forall j :: 0 <= j < i && recs[j].request ==> recs[j].bytes[2..] != recs[i].bytes[2..]
  }

  /** A request finds its own record exactly when its header is short and no earlier request shares its key. */
  lemma FindsOwnRecordIff(recs: seq<Record>, i: nat)
    requires i < |recs| && recs[i].request
    ensures FirstTx(FramesOf(recs), RequestId(recs[i].bytes), RequestUds(recs[i].bytes), 0) == i <==> OwnsKey(recs, i)
  {
    RequestFinds(recs, i);
    var r := Source(recs, i);
    if r < i {
      assert SameKey(recs, i, r);
    } else {
      forall j | 0 <= j < i && recs[j].request ensures recs[j].bytes[2..] != recs[i].bytes[2..] {
        assert !SameKey(recs, i, j);
      }
    }
  }

  /** The request of record `i` is answered from that record's own bucket, exactly as captured. */
  ghost predicate FaithfullyReplayed(events: seq<Event>, recs: seq<Record>, gap: int, i: nat, tick: U64, link: Link,
                                     hCop: U32, tag: int)
    requires i < |recs|
  {
    && FirstTx(FramesOf(recs), RequestId(recs[i].bytes), RequestUds(recs[i].bytes), 0) == i
    && ExactReplay(events, recs, i, BucketSize(FramesOf(recs), gap, i), tick, link, hCop, tag)
  }

  /** Exactly when the replay of a captured request is faithful, for any capture whatever its clock and headers: when
      its header is short and no earlier request agrees with it behind the two upper header bytes, and every response
      of its bucket has a short header and follows the frame before it by 0 to 2^32 - 1 milliseconds. */
  lemma FaithfulReplayIff(recs: seq<Record>, gap: int, i: nat, tick: U64, link: Link, tag: int, hCop: U32)
    requires i < |recs| && recs[i].request
    requires tick * 1000 + LoadedElapsed(FramesOf(recs), i, BucketSize(FramesOf(recs), gap, i)) * 1000 < TWO64
    ensures var n := BucketSize(FramesOf(recs), gap, i);
            var events := Scheduled(LoadedExchanges(Index(FramesOf(recs), gap)), tick, link, 0x8010,
                                    Some(recs[i].bytes), tag, hCop);
            FaithfullyReplayed(events, recs, gap, i, tick, link, hCop, tag)
            <==> OwnsKey(recs, i) && HeadersHold(recs, i, n) && GapsHold(FramesOf(recs), i, n)
  {
    FindsOwnRecordIff(recs, i);
    if OwnsKey(recs, i) {
      BucketReplayIff(recs, gap, i, i, tick, link, tag, hCop);
    }
  }

  /** Whatever record `r` a request of record `i` finds: that record's bucket is replayed exactly under the same
      conditions on its responses. */
  lemma BucketReplayIff(recs: seq<Record>, gap: int, i: nat, r: nat, tick: U64, link: Link, tag: int, hCop: U32)
    requires i < |recs| && r < |recs|
    requires FirstTx(FramesOf(recs), RequestId(recs[i].bytes), RequestUds(recs[i].bytes), 0) == r
    requires tick * 1000 + LoadedElapsed(FramesOf(recs), r, BucketSize(FramesOf(recs), gap, r)) * 1000 < TWO64
    ensures var n := BucketSize(FramesOf(recs), gap, r);
            var events := Scheduled(LoadedExchanges(Index(FramesOf(recs), gap)), tick, link, 0x8010,
                                    Some(recs[i].bytes), tag, hCop);
            && Replays(events, recs, r, n, link, hCop, tag)
            && (ExactReplay(events, recs, r, n, tick, link, hCop, tag)
                <==> HeadersHold(recs, r, n) && GapsHold(FramesOf(recs), r, n))
  {
    var n := BucketSize(FramesOf(recs), gap, r);
    var events := Scheduled(LoadedExchanges(Index(FramesOf(recs), gap)), tick, link, 0x8010,
                            Some(recs[i].bytes), tag, hCop);
    ReplayOfCapture(recs, gap, tick, link, recs[i].bytes, tag, hCop);
    PayloadsExactIff(events, recs, r, n, link, hCop, tag);
    DuesExactIff(events, recs, r, tick);
  }

  /** A request with a short header that shares its key with an earlier one gets the responses captured after the
      first such request, exactly if these have short headers and fitting gaps. */
  lemma ShadowedReplay(recs: seq<Record>, gap: int, i: nat, tick: U64, link: Link, tag: int, hCop: U32)
    requires i < |recs| && recs[i].request && HeaderIsShort(recs[i])
    requires var r := Source(recs, i);
             tick * 1000 + LoadedElapsed(FramesOf(recs), r, BucketSize(FramesOf(recs), gap, r)) * 1000 < TWO64
    ensures var r := Source(recs, i);
            var n := BucketSize(FramesOf(recs), gap, r);
            var events := Scheduled(LoadedExchanges(Index(FramesOf(recs), gap)), tick, link, 0x8010,
                                    Some(recs[i].bytes), tag, hCop);
            && recs[r].request && recs[r].bytes[2..] == recs[i].bytes[2..]
            && Replays(events, recs, r, n, link, hCop, tag)
            && (ExactReplay(events, recs, r, n, tick, link, hCop, tag)
                <==> HeadersHold(recs, r, n) && GapsHold(FramesOf(recs), r, n))
  {
    RequestFinds(recs, i);
    var r := Source(recs, i);
    assert SameKey(recs, i, r);
    BucketReplayIff(recs, gap, i, r, tick, link, tag, hCop);
  }

  // ---- when the client sees a faithful replay ------------------------------------------------------------

  /** Replaying the bucket of record `r` looks as replaying that of record `i` should: as many responses, the same bytes
      once the two upper header bytes are lost, at the captured distances. */
  ghost predicate LooksLike(recs: seq<Record>, gap: int, r: nat, i: nat)
    requires r < |recs| && i < |recs|
  {
    var frames := FramesOf(recs);
    var n := BucketSize(frames, gap, i);
    && BucketSize(frames, gap, r) == n
    && forall k :: 0 <= k < n ==> LooksLikeAt(recs, r, i, k)
  }

  ghost predicate LooksLikeAt(recs: seq<Record>, r: nat, i: nat, k: nat)
    requires r + 1 + k < |recs| && i + 1 + k < |recs|
  {
    && Shortened(recs[r + 1 + k]) == recs[i + 1 + k].bytes
    && LoadedElapsed(FramesOf(recs), r, k + 1) == recs[i + 1 + k].ms - recs[i].ms
  }

  /** The one response captured after record `i` is what a request nobody captured is answered. */
  ghost predicate RefusalCaptured(recs: seq<Record>, gap: int, i: nat)
    requires i < |recs|
  {
    && BucketSize(FramesOf(recs), gap, i) == 1
    && HeaderIsShort(recs[i + 1])
    && RefusalOf(recs[i + 1].bytes, recs[i].bytes)
    && recs[i + 1].ms - recs[i].ms == 50
  }

  lemma LooksLikeIff(events: seq<Event>, recs: seq<Record>, gap: int, r: nat, i: nat, tick: U64, link: Link, hCop: U32, tag: int)
    requires r < |recs| && i < |recs|
    requires Replays(events, recs, r, BucketSize(FramesOf(recs), gap, r), link, hCop, tag)
    requires DueAsLoaded(events, FramesOf(recs), r, tick)
    ensures ExactReplay(events, recs, i, BucketSize(FramesOf(recs), gap, i), tick, link, hCop, tag)
       <==> LooksLike(recs, gap, r, i)
  {
    if LooksLike(recs, gap, r, i) {
      LooksExact(events, recs, gap, r, i, tick, link, hCop, tag);
    }
    if ExactReplay(events, recs, i, BucketSize(FramesOf(recs), gap, i), tick, link, hCop, tag) {
      ExactLooks(events, recs, gap, r, i, tick, link, hCop, tag);
    }
  }

  lemma ExactLooks(events: seq<Event>, recs: seq<Record>, gap: int, r: nat, i: nat, tick: U64, link: Link, hCop: U32, tag: int)
    requires r < |recs| && i < |recs|
    requires Replays(events, recs, r, BucketSize(FramesOf(recs), gap, r), link, hCop, tag)
    requires DueAsLoaded(events, FramesOf(recs), r, tick)
    requires ExactReplay(events, recs, i, BucketSize(FramesOf(recs), gap, i), tick, link, hCop, tag)
    ensures LooksLike(recs, gap, r, i)
  {
    var n := BucketSize(FramesOf(recs), gap, i);
    assert BucketSize(FramesOf(recs), gap, r) == |events| == n;
    forall k | 0 <= k < n ensures LooksLikeAt(recs, r, i, k) {
      assert events[k].payload == Shortened(recs[r + 1 + k]) && events[k].payload == recs[i + 1 + k].bytes;
      assert events[k].due == tick * 1000 + LoadedElapsed(FramesOf(recs), r, k + 1) * 1000;
      assert events[k].due == tick * 1000 + (recs[i + 1 + k].ms - recs[i].ms) * 1000;
    }
  }

  lemma LooksExact(events: seq<Event>, recs: seq<Record>, gap: int, r: nat, i: nat, tick: U64, link: Link, hCop: U32, tag: int)
    requires r < |recs| && i < |recs| && LooksLike(recs, gap, r, i)
    requires Replays(events, recs, r, BucketSize(FramesOf(recs), gap, r), link, hCop, tag)
    requires DueAsLoaded(events, FramesOf(recs), r, tick)
    ensures ExactReplay(events, recs, i, BucketSize(FramesOf(recs), gap, i), tick, link, hCop, tag)
  {
    forall k | 0 <= k < |events|
      ensures events[k].payload == recs[i + 1 + k].bytes == Shortened(recs[i + 1 + k])
      ensures events[k].due == tick * 1000 + (recs[i + 1 + k].ms - recs[i].ms) * 1000
    {
      assert LooksLikeAt(recs, r, i, k);
      ShortBytes(recs[r + 1 + k], recs[i + 1 + k]);
    }
  }

  /** Bytes that are some record's shortened ones have zero upper header bytes. */
  lemma ShortBytes(a: Record, b: Record)
    requires Shortened(a) == b.bytes
    ensures Shortened(b) == b.bytes
  {
    assert b.bytes[0] == Shortened(a)[0] && b.bytes[1] == Shortened(a)[1];
    ShortenedIff(b);
  }

  lemma RefusalOnce(p: seq<Byte>, q: seq<Byte>, data: seq<Byte>)
    requires |data| >= 5 && RefusalOf(p, data) && RefusalOf(q, data)
    ensures p == q
  {
    HeadOnce(p, q);
    assert p == p[..4] + [p[4], p[5], p[6]] && q == q[..4] + [q[4], q[5], q[6]];
  }

  lemma HeadOnce(p: seq<Byte>, q: seq<Byte>)
    requires |p| >= 4 && |q| >= 4 && Head(p) == Head(q)
    ensures p[..4] == q[..4]
  {
    FromBigEndianRoundTrip(p[..4]);
    FromBigEndianRoundTrip(q[..4]);
  }

  lemma RefusalIff(events: seq<Event>, recs: seq<Record>, gap: int, i: nat, tick: U64, link: Link, hCop: U32, tag: int)
    requires i < |recs| && tick * 1000 + NRC_DELAY_US < TWO64
    requires Refuses(events, tick, link, recs[i].bytes, tag, hCop)
    ensures ExactReplay(events, recs, i, BucketSize(FramesOf(recs), gap, i), tick, link, hCop, tag)
            <==> RefusalCaptured(recs, gap, i)
  {
    var e := events[0];
    SumWithoutWrap(tick * 1000, 50_000);
    assert e.due == tick * 1000 + 50_000;
    if BucketSize(FramesOf(recs), gap, i) == 1 {
      ShortenedIff(recs[i + 1]);
      if RefusalOf(recs[i + 1].bytes, recs[i].bytes) {
        RefusalOnce(e.payload, recs[i + 1].bytes, recs[i].bytes);
      }
    }
  }

  /** Exactly when what a repeated captured request is answered is what was captured after it, in any capture and
      wherever the answer comes from: with a short header, when the bucket of the first request that shares its key looks
      like its own; with a long header, when its own is one refusal captured 50 ms after it. */
  lemma ExactReplayIff(recs: seq<Record>, gap: int, i: nat, tick: U64, link: Link, tag: int, hCop: U32)
    requires i < |recs| && recs[i].request && tick * 1000 + NRC_DELAY_US < TWO64
    requires var r := Source(recs, i);
             tick * 1000 + LoadedElapsed(FramesOf(recs), r, BucketSize(FramesOf(recs), gap, r)) * 1000 < TWO64
    ensures var events := Scheduled(LoadedExchanges(Index(FramesOf(recs), gap)), tick, link, 0x8010,
                                    Some(recs[i].bytes), tag, hCop);
            ExactReplay(events, recs, i, BucketSize(FramesOf(recs), gap, i), tick, link, hCop, tag)
            <==> if HeaderIsShort(recs[i]) then LooksLike(recs, gap, Source(recs, i), i)
                 else RefusalCaptured(recs, gap, i)
  {
    var r := Source(recs, i);
    var events := Scheduled(LoadedExchanges(Index(FramesOf(recs), gap)), tick, link, 0x8010,
                            Some(recs[i].bytes), tag, hCop);
    RequestFinds(recs, i);
    ReplayOfCapture(recs, gap, tick, link, recs[i].bytes, tag, hCop);
    if HeaderIsShort(recs[i]) {
      LooksLikeIff(events, recs, gap, r, i, tick, link, hCop, tag);
    } else {
      RefusalIff(events, recs, gap, i, tick, link, hCop, tag);
    }
  }

  /** A capture in which a request with a long header hides the request with a short one after it. */
  const HIDING: seq<Record> := [
    Traffic(0, true, [1, 0, 7, 0xE0, 0x3E]), Traffic(1, false, [0, 0, 7, 0xE8, 0x7F, 0x3E, 0x11]),
    Traffic(10, true, [0, 0, 7, 0xE0, 0x3E]), Traffic(11, false, [0, 0, 7, 0xE8, 0x7E])]

  /** There the clock is monotone, request and responses have short headers, and no earlier request has the same bytes. */
  lemma HidingLooksFaithful()
    ensures FirstRequest(HIDING, 2) && HeaderIsShort(HIDING[2]) && MonotoneClock(FramesOf(HIDING))
    ensures BucketSize(FramesOf(HIDING), 3000, 2) == 1 && HeadersHold(HIDING, 2, 1) && GapsHold(FramesOf(HIDING), 2, 1)
  {
    var frames := FramesOf(HIDING);
    assert Continues(frames, 3000, 3);
  }

  lemma HidingSource()
    ensures HIDING[2].request && Source(HIDING, 2) == 0
    ensures BucketSize(FramesOf(HIDING), 3000, 0) == 1 && LoadedElapsed(FramesOf(HIDING), 0, 1) == 1
  {
    var frames := FramesOf(HIDING);
    assert HIDING[0].bytes[2..] == [7, 0xE0, 0x3E] == HIDING[2].bytes[2..];
    assert Continues(frames, 3000, 1) && !Continues(frames, 3000, 2);
  }

  /** Yet what is replayed to it is the refusal captured after the other request. */
  lemma HiddenRequest(tick: U64, link: Link, tag: int, hCop: U32)
    requires tick * 1000 + 1000 < TWO64
    ensures var events := Scheduled(LoadedExchanges(Index(FramesOf(HIDING), 3000)), tick, link, 0x8010,
                                    Some(HIDING[2].bytes), tag, hCop);
            && |events| == 1 && events[0].payload == HIDING[1].bytes
            && !ExactReplay(events, HIDING, 2, 1, tick, link, hCop, tag)
  {
    HidingSource();
    ShadowedReplay(HIDING, 3000, 2, tick, link, tag, hCop);
    ShortenedIff(HIDING[1]);
  }

  lemma BucketTimeFits(recs: seq<Record>, gap: int, i: nat, tick: U64)
    requires gap < TWO32 && Faithful(recs) && i < |recs|
    requires tick * 1000 + (recs[|recs| - 1].ms - recs[i].ms) * 1000 < TWO64
    ensures var frames := FramesOf(recs);
            var n := BucketSize(frames, gap, i);
            && tick * 1000 + LoadedElapsed(frames, i, n) * 1000 < TWO64
            && forall k :: i < k <= i + n ==> DelayHolds(frames, k)
  {
    var frames := FramesOf(recs);
    var n := BucketSize(frames, gap, i);
    MonotoneBucketHolds(frames, gap, i);
    ElapsedExact(frames, i, n);
    assert frames[i + n].ms <= frames[|frames| - 1].ms;
  }

  lemma ReplayExact(recs: seq<Record>, gap: int, i: nat, tick: U64, link: Link, tag: int, hCop: U32,
                    tape: seq<Recorded>, events: seq<Event>)
    requires gap < TWO32 && Faithful(recs) && FirstRequest(recs, i)
    requires tick * 1000 + (recs[|recs| - 1].ms - recs[i].ms) * 1000 < TWO64
    requires tape == LoadedExchanges(Index(FramesOf(recs), gap))
    requires events == Scheduled(tape, tick, link, 0x8010, Some(recs[i].bytes), tag, hCop)
    ensures ExactReplay(events, recs, i, BucketSize(FramesOf(recs), gap, i), tick, link, hCop, tag)
  {
    var n := BucketSize(FramesOf(recs), gap, i);
    assert Replays(events, recs, i, n, link, hCop, tag) && DueAsLoaded(events, FramesOf(recs), i, tick) by {
      FirstRequestIsItself(recs, i);
      ReplayOfCapture(recs, gap, tick, link, recs[i].bytes, tag, hCop);
      BucketTimeFits(recs, gap, i, tick);
    }
    assert GapsHold(FramesOf(recs), i, n) by {
      BucketTimeFits(recs, gap, i, tick);
    }
    PayloadsExactIff(events, recs, i, n, link, hCop, tag);
    DuesExactIff(events, recs, i, tick);
  }

  lemma ConvertedCapture(lines: seq<LogLine>, gap: int, meta: Metadata)
    requires forall k :: 0 <= k < |lines| ==> Printable(lines[k])
    ensures ConvertedTape(JoinLines(PrintAll(lines)), gap, meta) == LoadedExchanges(Index(FramesOf(Records(lines)), gap))
  {
    CaptureFrames(lines);
    TapeOfConverted(meta, Index(FramesOf(Records(lines)), gap));
  }

  /** A captured session replays itself. Print any capture whose clock never steps back and whose traffic has short
      headers, among any other shim lines; convert the file, load the document, and send the bytes of a request record
      that is the first with its bytes: what is scheduled is exactly its recorded responses, in order, byte for byte,
      each due as long after the call as it was captured after the request. */
  lemma ReplayFidelity(lines: seq<LogLine>, recs: seq<Record>, gap: int, meta: Metadata, i: nat, tick: U64, link: Link,
                       tag: int, hCop: U32)
    requires forall k :: 0 <= k < |lines| ==> Printable(lines[k])
    requires recs == Records(lines) && Faithful(recs) && FirstRequest(recs, i) && gap < TWO32
    requires tick * 1000 + (recs[|recs| - 1].ms - recs[i].ms) * 1000 < TWO64
    ensures var tape := ConvertedTape(JoinLines(PrintAll(lines)), gap, meta);
            ExactReplay(Scheduled(tape, tick, link, 0x8010, Some(recs[i].bytes), tag, hCop), recs, i,
                        BucketSize(FramesOf(recs), gap, i), tick, link, hCop, tag)
  {
    var tape := ConvertedTape(JoinLines(PrintAll(lines)), gap, meta);
    var events := Scheduled(tape, tick, link, 0x8010, Some(recs[i].bytes), tag, hCop);
    ConvertedCapture(lines, gap, meta);
    ReplayExact(recs, gap, i, tick, link, tag, hCop, tape, events);
  }

  lemma GapsElapsed(recs: seq<Record>, i: nat, n: nat)
    requires i + n < |recs| && GapsHold(FramesOf(recs), i, n)
    ensures LoadedElapsed(FramesOf(recs), i, n) == recs[i + n].ms - recs[i].ms
  {
    ElapsedExact(FramesOf(recs), i, n);
  }

  lemma RequestExact(recs: seq<Record>, gap: int, i: nat, n: nat, tick: U64, link: Link, tag: int, hCop: U32,
                     tape: seq<Recorded>, events: seq<Event>)
    requires i < |recs| && recs[i].request && OwnsKey(recs, i) && n == BucketSize(FramesOf(recs), gap, i)
    requires HeadersHold(recs, i, n) && GapsHold(FramesOf(recs), i, n)
    requires tick * 1000 + (recs[i + n].ms - recs[i].ms) * 1000 < TWO64
    requires tape == LoadedExchanges(Index(FramesOf(recs), gap))
    requires events == Scheduled(tape, tick, link, 0x8010, Some(recs[i].bytes), tag, hCop)
    ensures ExactReplay(events, recs, i, n, tick, link, hCop, tag)
  {
    GapsElapsed(recs, i, n);
    FaithfulReplayIff(recs, gap, i, tick, link, tag, hCop);
  }

  /** The same for one request of any printed capture, whatever the rest of it is like: its header is short, no earlier
      request shares its key, and its responses have short headers and gaps the delay field holds. */
  lemma RequestFidelity(lines: seq<LogLine>, recs: seq<Record>, gap: int, meta: Metadata, i: nat, n: nat, tick: U64,
                        link: Link, tag: int, hCop: U32)
    requires forall k :: 0 <= k < |lines| ==> Printable(lines[k])
    requires recs == Records(lines) && i < |recs| && recs[i].request && OwnsKey(recs, i)
    requires n == BucketSize(FramesOf(recs), gap, i) && HeadersHold(recs, i, n) && GapsHold(FramesOf(recs), i, n)
    requires tick * 1000 + (recs[i + n].ms - recs[i].ms) * 1000 < TWO64
    ensures var tape := ConvertedTape(JoinLines(PrintAll(lines)), gap, meta);
            ExactReplay(Scheduled(tape, tick, link, 0x8010, Some(recs[i].bytes), tag, hCop), recs, i, n, tick, link, hCop, tag)
  {
    var tape := ConvertedTape(JoinLines(PrintAll(lines)), gap, meta);
    var events := Scheduled(tape, tick, link, 0x8010, Some(recs[i].bytes), tag, hCop);
    ConvertedCapture(lines, gap, meta);
    RequestExact(recs, gap, i, n, tick, link, tag, hCop, tape, events);
  }

  /** A captured request with a nonzero upper header byte is never found again: its replay is the negative response. */
  lemma LongHeaderNeverFound(frames: seq<Frame>, gap: int, tick: U64, link: Link, r: Record, tag: int, hCop: U32)
    requires !HeaderIsShort(r)
    ensures Refuses(Scheduled(LoadedExchanges(Index(frames, gap)), tick, link, 0x8010, Some(r.bytes), tag, hCop),
                    tick, link, r.bytes, tag, hCop)
  {
    RefusalRefuses(tick, link, r.bytes, tag, hCop);
    ShortIdHeader(r.bytes[..4]);
    LookupAfterConversion(frames, gap, RequestId(r.bytes), RequestUds(r.bytes));
  }
}
