/** tools/build_recording.py: traffic frames to recorded exchanges to the JSON document. */
module Converter {
  import opened Bytes
  import opened Text
  import opened HexCodec
  import opened LogFormat
  import opened Json
  import opened JsmnMeaning
  import opened JsonText
  import opened JsonEscape

  /** A response as the converter records it, its delay relative to the frame before. */
  datatype Rx = Rx(canId: U16, uds: seq<Byte>, delayMs: int)

  datatype Exchange = Exchange(txMs: nat, txCanId: U16, txUds: seq<Byte>, rxList: seq<Rx>)

  // ---- pair_exchanges -----------------------------------------------------------------

  /** The positions of the requests among the first `n` frames. */
  ghost function TxIndices(frames: seq<Frame>, n: nat): (r: seq<nat>)
    requires n <= |frames|
    ensures forall m :: 0 <= m < |r| ==> r[m] < n
  {
    if n == 0 then []
    else if frames[n - 1].tx then TxIndices(frames, n - 1) + [n - 1]
    else TxIndices(frames, n - 1)
  }

  /** They are all the requests, each once, in log order. */
  lemma {:induction false} TxIndicesExact(frames: seq<Frame>, n: nat)
    requires n <= |frames|
    ensures var r := TxIndices(frames, n);
            && (forall i :: i in r <==> 0 <= i < n && frames[i].tx)
            && (forall l, m :: 0 <= l < m < |r| ==> r[l] < r[m])
  {
    if n > 0 {
      TxIndicesExact(frames, n - 1);
    }
  }

  /** Frame `k` continues a bucket: it is a response and follows the frame before it closely enough. */
  predicate Continues(frames: seq<Frame>, maxGapMs: int, k: nat)
    requires 0 < k < |frames|
  {
    !frames[k].tx && frames[k].ms - frames[k - 1].ms <= maxGapMs
  }

  /** The end of the longest unbroken run of continuing frames from `k` on. */
  ghost function BucketEnd(frames: seq<Frame>, maxGapMs: int, k: nat): (e: nat)
    requires 0 < k <= |frames|
    ensures k <= e <= |frames|
    ensures forall j :: k <= j < e ==> Continues(frames, maxGapMs, j)
    ensures e < |frames| ==> !Continues(frames, maxGapMs, e)
    decreases |frames| - k
  {
    if k < |frames| && Continues(frames, maxGapMs, k) then BucketEnd(frames, maxGapMs, k + 1) else k
  }

  ghost function RxAt(frames: seq<Frame>, k: nat): Rx
    requires 0 < k < |frames|
  {
    Rx(frames[k].canId, frames[k].uds, frames[k].ms - frames[k - 1].ms)
  }

  ghost function RxRange(frames: seq<Frame>, lo: nat, hi: nat): seq<Rx>
    requires 0 < lo <= hi <= |frames|
  {
    seq(hi - lo, r requires 0 <= r < hi - lo => RxAt(frames, lo + r))
  }

  /** The exchange of the request at `i`: itself and the run of responses after it. */
  ghost function ExchangeAt(frames: seq<Frame>, maxGapMs: int, i: nat): Exchange
    requires i < |frames|
  {
    Exchange(frames[i].ms, frames[i].canId, frames[i].uds,
             RxRange(frames, i + 1, BucketEnd(frames, maxGapMs, i + 1)))
  }

  ghost function Paired(frames: seq<Frame>, maxGapMs: int): seq<Exchange> {
    var tx := TxIndices(frames, |frames|);
    seq(|tx|, m requires 0 <= m < |tx| => ExchangeAt(frames, maxGapMs, tx[m]))
  }

  /** An open bucket of the pairing loop. */
  datatype Bucket = Bucket(txMs: nat, txCanId: U16, txUds: seq<Byte>, rxList: seq<Rx>, lastSeenMs: nat)

  function Close(b: Bucket): Exchange {
    Exchange(b.txMs, b.txCanId, b.txUds, b.rxList)
  }

  lemma BucketEndAfterRun(frames: seq<Frame>, maxGapMs: int, lo: nat, k: nat)
    requires 0 < lo <= k <= |frames|
    requires forall j :: lo <= j < k ==> Continues(frames, maxGapMs, j)
    ensures BucketEnd(frames, maxGapMs, lo) == BucketEnd(frames, maxGapMs, k)
    decreases k - lo
  {
    if lo < k {
      BucketEndAfterRun(frames, maxGapMs, lo + 1, k);
    }
  }

  /** The first |done| requests of `tx` have their final exchanges. */
  ghost predicate Done(frames: seq<Frame>, maxGapMs: int, tx: seq<nat>, done: seq<Exchange>) {
    && |done| <= |tx|
    && (forall m :: 0 <= m < |tx| ==> tx[m] < |frames|)
    && (forall m :: 0 <= m < |done| ==> done[m] == ExchangeAt(frames, maxGapMs, tx[m]))
  }

  /** The bucket `b` of the request at `i` holds the unbroken run up to `n`. */
  ghost predicate Open(frames: seq<Frame>, maxGapMs: int, i: nat, n: nat, b: Bucket) {
    && i + 1 <= n <= |frames|
    && (forall j :: i < j < n ==> Continues(frames, maxGapMs, j))
    && Close(b) == Exchange(frames[i].ms, frames[i].canId, frames[i].uds, RxRange(frames, i + 1, n))
    && b.lastSeenMs == frames[n - 1].ms
  }

  /** What the pairing loop knows after `n` frames. */
  ghost predicate PairingInvariant(frames: seq<Frame>, maxGapMs: int, n: nat, done: seq<Exchange>, current: Option<Bucket>)
    requires n <= |frames|
  {
    var tx := TxIndices(frames, n);
    && Done(frames, maxGapMs, tx, done)
    && match current
       case None => |done| == |tx|
       case Some(b) => |done| + 1 == |tx| && Open(frames, maxGapMs, tx[|done|], n, b)
  }

  /** Where the run of continuing frames stops, closing the open bucket records its exchange. */
  lemma CloseBucket(frames: seq<Frame>, maxGapMs: int, n: nat, done: seq<Exchange>, b: Bucket)
    requires n <= |frames| && PairingInvariant(frames, maxGapMs, n, done, Some(b))
    requires n == |frames| || !Continues(frames, maxGapMs, n)
    ensures PairingInvariant(frames, maxGapMs, n, done + [Close(b)], None)
  {
    var tx := TxIndices(frames, n);
    var i := tx[|done|];
    BucketEndAfterRun(frames, maxGapMs, i + 1, n);
    assert Close(b) == ExchangeAt(frames, maxGapMs, i);
  }

  lemma ExtendBucket(frames: seq<Frame>, maxGapMs: int, n: nat, done: seq<Exchange>, b: Bucket)
    requires n < |frames| && PairingInvariant(frames, maxGapMs, n, done, Some(b))
    requires Continues(frames, maxGapMs, n)
    ensures PairingInvariant(frames, maxGapMs, n + 1, done,
              Some(b.(rxList := b.rxList + [RxAt(frames, n)], lastSeenMs := frames[n].ms)))
  {
    var i := TxIndices(frames, n)[|done|];
    assert RxRange(frames, i + 1, n + 1) == RxRange(frames, i + 1, n) + [RxAt(frames, n)];
  }

  lemma OpenBucket(frames: seq<Frame>, maxGapMs: int, n: nat, done: seq<Exchange>)
    requires n < |frames| && frames[n].tx && PairingInvariant(frames, maxGapMs, n, done, None)
    ensures PairingInvariant(frames, maxGapMs, n + 1, done,
              Some(Bucket(frames[n].ms, frames[n].canId, frames[n].uds, [], frames[n].ms)))
  {
    assert RxRange(frames, n + 1, n + 1) == [];
  }

  lemma SkipFrame(frames: seq<Frame>, maxGapMs: int, n: nat, done: seq<Exchange>)
    requires n < |frames| && !frames[n].tx && PairingInvariant(frames, maxGapMs, n, done, None)
    ensures PairingInvariant(frames, maxGapMs, n + 1, done, None)
  {
  }

  lemma PairingComplete(frames: seq<Frame>, maxGapMs: int, done: seq<Exchange>)
    requires PairingInvariant(frames, maxGapMs, |frames|, done, None)
    ensures done == Paired(frames, maxGapMs)
  {
  }

  /** A frame that does not continue the open bucket closes it; only a request then opens another. */
  lemma BreakBucket(frames: seq<Frame>, maxGapMs: int, n: nat, done: seq<Exchange>, b: Bucket)
    requires n < |frames| && PairingInvariant(frames, maxGapMs, n, done, Some(b))
    ensures Continues(frames, maxGapMs, n) <==> !frames[n].tx && frames[n].ms - b.lastSeenMs <= maxGapMs
    ensures !Continues(frames, maxGapMs, n) ==> PairingInvariant(frames, maxGapMs, n, done + [Close(b)], None)
  {
    if !Continues(frames, maxGapMs, n) {
      CloseBucket(frames, maxGapMs, n, done, b);
    }
  }

  /** pair_exchanges: one exchange per request, each with the longest run of responses the gap cap allows. */
  method PairExchanges(frames: seq<Frame>, maxGapMs: int) returns (exchanges: seq<Exchange>)
    ensures exchanges == Paired(frames, maxGapMs)
  {
    exchanges := [];
    var current: Option<Bucket> := None;
    for n := 0 to |frames|
      invariant PairingInvariant(frames, maxGapMs, n, exchanges, current)
    {
      var f := frames[n];
      if current.Some? {
        BreakBucket(frames, maxGapMs, n, exchanges, current.value);
      }
      if f.tx {
        if current.Some? {
          exchanges := exchanges + [Close(current.value)];
        }
        OpenBucket(frames, maxGapMs, n, exchanges);
        current := Some(Bucket(f.ms, f.canId, f.uds, [], f.ms));
      } else if current.Some? {
        var b := current.value;
        if f.ms - b.lastSeenMs > maxGapMs {
          exchanges := exchanges + [Close(b)];
          current := None;
          SkipFrame(frames, maxGapMs, n, exchanges);
        } else {
          ExtendBucket(frames, maxGapMs, n, exchanges, b);
          current := Some(b.(rxList := b.rxList + [Rx(f.canId, f.uds, f.ms - b.lastSeenMs)], lastSeenMs := f.ms));
        }
      } else {
        SkipFrame(frames, maxGapMs, n, exchanges);
      }
    }
    if current.Some? {
      CloseBucket(frames, maxGapMs, |frames|, exchanges, current.value);
      exchanges := exchanges + [Close(current.value)];
    }
    PairingComplete(frames, maxGapMs, exchanges);
  }

  /** A response frame is recorded in some exchange exactly when a request precedes it with no break in between. */
  lemma RecordedIffReached(frames: seq<Frame>, maxGapMs: int, k: nat)
    requires k < |frames| && !frames[k].tx
    ensures (exists i :: 0 <= i < k && frames[i].tx && k < BucketEnd(frames, maxGapMs, i + 1))
       <==> (exists i :: 0 <= i < k && frames[i].tx && forall j :: i < j <= k ==> Continues(frames, maxGapMs, j))
  {
    forall i | 0 <= i < k && frames[i].tx
      ensures k < BucketEnd(frames, maxGapMs, i + 1)
         <==> forall j :: i < j <= k ==> Continues(frames, maxGapMs, j)
    {
      var e := BucketEnd(frames, maxGapMs, i + 1);
      if e <= k {
        assert !Continues(frames, maxGapMs, e);
      }
    }
  }

  /** No response is recorded twice: two requests' runs never overlap. */
  lemma BucketsDisjoint(frames: seq<Frame>, maxGapMs: int, i: nat, j: nat)
    requires i < j < |frames| && frames[j].tx
    ensures BucketEnd(frames, maxGapMs, i + 1) <= j
  {
    assert !Continues(frames, maxGapMs, j);
  }

  function DelaySum(rx: seq<Rx>, n: nat): int
    requires n <= |rx|
  {
    if n == 0 then 0 else DelaySum(rx, n - 1) + rx[n - 1].delayMs
  }

  /** The recorded delays telescope: their prefix sums are the distances from the request. */
  lemma {:induction false} DelaysTelescope(frames: seq<Frame>, i: nat, hi: nat, n: nat)
    requires i + 1 <= hi <= |frames| && n <= hi - (i + 1)
    ensures DelaySum(RxRange(frames, i + 1, hi), n) == frames[i + n].ms - frames[i].ms
  {
    if n > 0 {
      DelaysTelescope(frames, i, hi, n - 1);
      assert RxRange(frames, i + 1, hi)[n - 1] == RxAt(frames, i + n);
    }
  }

  // ---- index_by_request -----------------------------------------------------------------

  datatype Key = Key(canId: U16, uds: seq<Byte>)

  function KeyOf(x: Exchange): Key {
    Key(x.txCanId, x.txUds)
  }

  /** The position of the first exchange with key `k`, |xs| if there is none. */
  function FirstWithKey(xs: seq<Exchange>, k: Key): (i: nat)
    ensures i <= |xs|
    ensures forall j :: 0 <= j < i ==> KeyOf(xs[j]) != k
    ensures i < |xs| ==> KeyOf(xs[i]) == k
  {
    FirstWithKeyFrom(xs, k, 0)
  }

  function FirstWithKeyFrom(xs: seq<Exchange>, k: Key, i: nat): (r: nat)
    requires i <= |xs|
    ensures i <= r <= |xs|
    ensures forall j :: i <= j < r ==> KeyOf(xs[j]) != k
    ensures r < |xs| ==> KeyOf(xs[r]) == k
    decreases |xs| - i
  {
    if i == |xs| || KeyOf(xs[i]) == k then i else FirstWithKeyFrom(xs, k, i + 1)
  }

  /** The exchanges whose key no earlier one has. */
  function FirstWins(xs: seq<Exchange>, n: nat): (r: seq<Exchange>)
    requires n <= |xs|
    ensures forall x :: x in r ==> x in xs
  {
    if n == 0 then []
    else if FirstWithKey(xs, KeyOf(xs[n - 1])) < n - 1 then FirstWins(xs, n - 1)
    else FirstWins(xs, n - 1) + [xs[n - 1]]
  }

  function RxJson(r: Rx): Value {
    Obj([Member("can_id", Str(FormatCanId(r.canId))),
         Member("uds", Str(HexSpaced(r.uds, false))),
         Member("delay_ms", Prim(DelayText(r.delayMs)))])
  }

  function RxListJson(rx: seq<Rx>): Value {
    Arr(seq(|rx|, i requires 0 <= i < |rx| => RxJson(rx[i])))
  }

  function ExchangeJson(x: Exchange): Value {
    Obj([Member("tx", TxJson(x.txCanId, x.txUds)), Member("rx", RxListJson(x.rxList))])
  }

  function TxJson(canId: U16, uds: seq<Byte>): Value {
    Obj([Member("can_id", Str(FormatCanId(canId))), Member("uds", Str(HexSpaced(uds, false)))])
  }

  function ExchangesJson(xs: seq<Exchange>): seq<Value> {
    seq(|xs|, i requires 0 <= i < |xs| => ExchangeJson(xs[i]))
  }

  lemma FirstWinsSeen(xs: seq<Exchange>, n: nat, k: Key)
    requires n <= |xs|
    ensures (exists x :: x in FirstWins(xs, n) && KeyOf(x) == k) <==> FirstWithKey(xs, k) < n
  {
    if n > 0 {
      FirstWinsSeen(xs, n - 1, k);
      var x := xs[n - 1];
      if KeyOf(x) == k && FirstWithKey(xs, k) >= n - 1 {
        assert x in FirstWins(xs, n);
      }
    }
  }

  /** The positions of the exchanges that repeat an earlier key with other response bytes, in log order. */
  function Collided(xs: seq<Exchange>, n: nat): (r: seq<nat>)
    requires n <= |xs|
    ensures forall m :: 0 <= m < |r| ==> r[m] < n
  {
    if n == 0 then []
    else if Collides(xs, n - 1) then Collided(xs, n - 1) + [n - 1]
    else Collided(xs, n - 1)
  }

  /** Exchange `i` has other response bytes than the first with its key. */
  predicate Collides(xs: seq<Exchange>, i: nat)
    requires i < |xs|
  {
    UdsList(xs[FirstWithKey(xs, KeyOf(xs[i]))].rxList) != UdsList(xs[i].rxList)
  }

  /** What a warning names: the CAN-ID and the first four UDS bytes. */
  datatype Warning = Warning(canId: U16, head: seq<Byte>)

  function WarningOf(x: Exchange): Warning {
    Warning(x.txCanId, if |x.txUds| > 4 then x.txUds[..4] else x.txUds)
  }

  /** Only the first five collisions are warned of. */
  function Warnings(xs: seq<Exchange>, at: seq<nat>): seq<Warning>
    requires forall m :: 0 <= m < |at| ==> at[m] < |xs|
  {
    var n := if |at| > 5 then 5 else |at|;
    seq(n, m requires 0 <= m < n => WarningOf(xs[at[m]]))
  }

  lemma WarningsSnoc(xs: seq<Exchange>, at: seq<nat>, i: nat)
    requires i < |xs| && forall m :: 0 <= m < |at| ==> at[m] < |xs|
    ensures Warnings(xs, at + [i]) == if |at| < 5 then Warnings(xs, at) + [WarningOf(xs[i])] else Warnings(xs, at)
  {
  }

  function UdsList(rx: seq<Rx>): seq<seq<Byte>> {
    seq(|rx|, i requires 0 <= i < |rx| => rx[i].uds)
  }

  /** `seen` maps the keys of the first `n` exchanges to the responses of their first one. */
  ghost predicate Seen(xs: seq<Exchange>, n: nat, seen: map<Key, seq<Rx>>)
    requires n <= |xs|
  {
    && (forall k :: k in seen <==> FirstWithKey(xs, k) < n)
    && (forall k :: k in seen ==> seen[k] == xs[FirstWithKey(xs, k)].rxList)
  }

  lemma SeenStep(xs: seq<Exchange>, n: nat, seen: map<Key, seq<Rx>>)
    requires n < |xs| && Seen(xs, n, seen)
    ensures var k := KeyOf(xs[n]);
            Seen(xs, n + 1, if k in seen then seen else seen[k := xs[n].rxList])
  {
  }

  lemma IndexStep(xs: seq<Exchange>, n: nat)
    requires n < |xs|
    ensures var first := FirstWithKey(xs, KeyOf(xs[n]));
            ExchangesJson(FirstWins(xs, n + 1))
            == ExchangesJson(FirstWins(xs, n)) + (if first < n then [] else [ExchangeJson(xs[n])])
  {
  }

  /** With the key seen before, the map tells whether the exchange collides; with a new key it does not. */
  lemma SeenCollides(xs: seq<Exchange>, n: nat, seen: map<Key, seq<Rx>>)
    requires n < |xs| && Seen(xs, n, seen)
    ensures var k := KeyOf(xs[n]);
            Collides(xs, n) <==> k in seen && UdsList(seen[k]) != UdsList(xs[n].rxList)
  {
    var k := KeyOf(xs[n]);
    assert FirstWithKey(xs, k) <= n;
  }

  /** What the indexing loop knows after `n` exchanges. */
  ghost predicate Indexed(xs: seq<Exchange>, n: nat, seen: map<Key, seq<Rx>>, out: seq<Value>, warnings: seq<Warning>,
                          collisions: nat)
    requires n <= |xs|
  {
    && Seen(xs, n, seen)
    && out == ExchangesJson(FirstWins(xs, n))
    && warnings == Warnings(xs, Collided(xs, n)) && collisions == |Collided(xs, n)|
  }

  lemma IndexNew(xs: seq<Exchange>, n: nat, seen: map<Key, seq<Rx>>, out: seq<Value>, warnings: seq<Warning>, collisions: nat)
    requires n < |xs| && Indexed(xs, n, seen, out, warnings, collisions) && KeyOf(xs[n]) !in seen
    ensures Indexed(xs, n + 1, seen[KeyOf(xs[n]) := xs[n].rxList], out + [ExchangeJson(xs[n])], warnings, collisions)
  {
    SeenStep(xs, n, seen);
    SeenCollides(xs, n, seen);
    IndexStep(xs, n);
  }

  lemma IndexRepeat(xs: seq<Exchange>, n: nat, seen: map<Key, seq<Rx>>, out: seq<Value>, warnings: seq<Warning>, collisions: nat,
                    after: seq<Warning>, count: nat)
    requires n < |xs| && Indexed(xs, n, seen, out, warnings, collisions) && KeyOf(xs[n]) in seen
    requires if UdsList(seen[KeyOf(xs[n])]) != UdsList(xs[n].rxList) then
               count == collisions + 1 && after == if collisions < 5 then warnings + [WarningOf(xs[n])] else warnings
             else after == warnings && count == collisions
    ensures Indexed(xs, n + 1, seen, out, after, count)
  {
    WarningsSnoc(xs, Collided(xs, n), n);
    SeenStep(xs, n, seen);
    SeenCollides(xs, n, seen);
    IndexStep(xs, n);
  }

  predicate SameRequest(a: Exchange, b: Exchange) {
    a.txCanId == b.txCanId && a.txUds == b.txUds
  }

  /** The responses differ in number or in some response's bytes; CAN-IDs and delays do not count. */
  predicate OtherBytes(a: seq<Rx>, b: seq<Rx>) {
    |a| != |b| || exists k :: 0 <= k < |a| && a[k].uds != b[k].uds
  }

  /** Exchange `i` repeats a request whose first exchange has other response bytes. */
  predicate Repeats(xs: seq<Exchange>, i: nat)
    requires i < |xs|
  {
    exists first :: 0 <= first < i && SameRequest(xs[first], xs[i]) && OtherBytes(xs[first].rxList, xs[i].rxList)
                    && forall j :: 0 <= j < first ==> !SameRequest(xs[j], xs[i])
  }

  /** The positions of all such exchanges, each once, in log order. */
  predicate AllRepeats(xs: seq<Exchange>, n: nat, at: seq<nat>) {
    && n <= |xs|
    && (forall m :: 0 <= m < |at| ==> at[m] < n)
    && (forall i: nat :: i < n ==> (i in at <==> Repeats(xs, i)))
    && (forall l, m :: 0 <= l < m < |at| ==> at[l] < at[m])
  }

  /** The collisions are counted, and the first five named by the request's id and the first four of its bytes. */
  predicate Reported(xs: seq<Exchange>, at: seq<nat>, warnings: seq<Warning>, collisions: nat) {
    && AllRepeats(xs, |xs|, at) && collisions == |at|
    && |warnings| == (if collisions < 5 then collisions else 5)
    && forall m :: 0 <= m < |warnings| ==>
         && warnings[m].canId == xs[at[m]].txCanId
         && warnings[m].head == if |xs[at[m]].txUds| < 4 then xs[at[m]].txUds else xs[at[m]].txUds[..4]
  }

  lemma UdsListDiffer(a: seq<Rx>, b: seq<Rx>)
    ensures UdsList(a) != UdsList(b) <==> OtherBytes(a, b)
  {
    if !OtherBytes(a, b) {
      assert UdsList(a) == UdsList(b);
    } else if |a| == |b| {
      var k :| 0 <= k < |a| && a[k].uds != b[k].uds;
      assert UdsList(a)[k] != UdsList(b)[k];
    }
  }

  lemma CollidesMeans(xs: seq<Exchange>, i: nat)
    requires i < |xs|
    ensures Collides(xs, i) <==> Repeats(xs, i)
  {
    var f := FirstWithKey(xs, KeyOf(xs[i]));
    assert f <= i && KeyOf(xs[f]) == KeyOf(xs[i]);
    UdsListDiffer(xs[f].rxList, xs[i].rxList);
    forall j | 0 <= j < |xs| ensures SameRequest(xs[j], xs[i]) <==> KeyOf(xs[j]) == KeyOf(xs[i]) {
    }
    if Repeats(xs, i) {
      var first :| 0 <= first < i && SameRequest(xs[first], xs[i]) && OtherBytes(xs[first].rxList, xs[i].rxList)
                   && forall j :: 0 <= j < first ==> !SameRequest(xs[j], xs[i]);
      assert first == f;
    }
  }

  lemma InSnoc<T>(x: T, s: seq<T>, y: T)
    ensures x in s + [y] <==> x in s || x == y
  {
  }

  lemma RepeatsStep(xs: seq<Exchange>, n: nat, at: seq<nat>, repeated: bool)
    requires n < |xs| && AllRepeats(xs, n, at) && (repeated <==> Repeats(xs, n))
    ensures AllRepeats(xs, n + 1, if repeated then at + [n] else at)
  {
    var more := if repeated then at + [n] else at;
    forall i: nat | i < n + 1 ensures i in more <==> Repeats(xs, i) {
      InSnoc(i, at, n);
    }
  }

  lemma {:induction false} CollidedMeans(xs: seq<Exchange>, n: nat)
    requires n <= |xs|
    ensures AllRepeats(xs, n, Collided(xs, n))
  {
    if n > 0 {
      CollidedMeans(xs, n - 1);
      CollidesMeans(xs, n - 1);
      RepeatsStep(xs, n - 1, Collided(xs, n - 1), Collides(xs, n - 1));
    }
  }

  lemma CollisionsReported(xs: seq<Exchange>)
    ensures var at := Collided(xs, |xs|); Reported(xs, at, Warnings(xs, at), |at|)
  {
    CollidedMeans(xs, |xs|);
  }

  /** index_by_request: the first exchange of every key, as JSON, with a warning for each of the first five collisions
      and the number of all of them. */
  method IndexByRequest(exchanges: seq<Exchange>) returns (out: seq<Value>, warnings: seq<Warning>, collisions: nat)
    ensures out == ExchangesJson(FirstWins(exchanges, |exchanges|))
    ensures exists at :: Reported(exchanges, at, warnings, collisions)
  {
    var seen: map<Key, seq<Rx>> := map[];
    out, warnings, collisions := [], [], 0;
    for n := 0 to |exchanges|
      invariant Indexed(exchanges, n, seen, out, warnings, collisions)
    {
      var x := exchanges[n];
      if KeyOf(x) in seen {
        ghost var before, count := warnings, collisions;
        if UdsList(seen[KeyOf(x)]) != UdsList(x.rxList) {
          collisions := collisions + 1;
          if collisions <= 5 {
            warnings := warnings + [WarningOf(x)];
          }
        }
        IndexRepeat(exchanges, n, seen, out, before, count, warnings, collisions);
      } else {
        IndexNew(exchanges, n, seen, out, warnings, collisions);
        seen := seen[KeyOf(x) := x.rxList];
        out := out + [ExchangeJson(x)];
      }
    }
    CollisionsReported(exchanges);
  }

  /** The index has no key twice. */
  lemma {:induction false} FirstWinsDistinct(xs: seq<Exchange>, n: nat)
    requires n <= |xs|
    ensures forall i, j :: 0 <= i < j < |FirstWins(xs, n)| ==>
              KeyOf(FirstWins(xs, n)[i]) != KeyOf(FirstWins(xs, n)[j])
  {
    if n > 0 {
      FirstWinsDistinct(xs, n - 1);
      FirstWinsSeen(xs, n - 1, KeyOf(xs[n - 1]));
    }
  }

  /** In the index as in the log, the first exchange with a key is the same one. */
  lemma {:induction false} FirstWinsLookup(xs: seq<Exchange>, n: nat, k: Key)
    requires n <= |xs|
    ensures var r := FirstWins(xs, n);
            var i := FirstWithKey(r, k);
            if FirstWithKey(xs, k) < n then i < |r| && r[i] == xs[FirstWithKey(xs, k)] else i == |r|
  {
    if n > 0 {
      FirstWinsLookup(xs, n - 1, k);
      var before, r := FirstWins(xs, n - 1), FirstWins(xs, n);
      if r != before {
        FirstWithKeySnoc(before, xs[n - 1], k);
      }
    }
  }

  lemma FirstWithKeySnoc(a: seq<Exchange>, x: Exchange, k: Key)
    ensures FirstWithKey(a + [x], k) ==
            if FirstWithKey(a, k) < |a| then FirstWithKey(a, k) else if KeyOf(x) == k then |a| else |a| + 1
  {
    var i, j := FirstWithKey(a, k), FirstWithKey(a + [x], k);
    assert i < |a| ==> KeyOf((a + [x])[i]) == k;
    assert (a + [x])[|a|] == x;
    assert j < |a| ==> KeyOf(a[j]) == k;
    assert forall m :: 0 <= m < |a| ==> (a + [x])[m] == a[m];
  }

  /** Indexing an index changes nothing. */
  lemma FirstWinsIdempotent(xs: seq<Exchange>)
    ensures var r := FirstWins(xs, |xs|); FirstWins(r, |r|) == r
  {
    var r := FirstWins(xs, |xs|);
    FirstWinsDistinct(xs, |xs|);
    DistinctKept(r, |r|);
    assert r[..|r|] == r;
  }

  lemma {:induction false} DistinctKept(r: seq<Exchange>, n: nat)
    requires n <= |r|
    requires forall i, j :: 0 <= i < j < |r| ==> KeyOf(r[i]) != KeyOf(r[j])
    ensures FirstWins(r, n) == r[..n]
  {
    if n > 0 {
      DistinctKept(r, n - 1);
      assert KeyOf(r[FirstWithKey(r, KeyOf(r[n - 1]))]) == KeyOf(r[n - 1]);
      assert r[..n] == r[..n - 1] + [r[n - 1]];
    }
  }

  // ---- the document -------------------------------------------------------------------------

  datatype Metadata = Metadata(recordingId: string, capturedAt: string, vehicle: string, sourceLog: string)

  function Document(meta: Metadata, exchanges: seq<Value>): Value {
    Obj([Member("recording_id", Str(Escape(meta.recordingId))),
         Member("captured_at", Str(Escape(meta.capturedAt))),
         Member("vehicle_profile", Str(Escape(meta.vehicle))),
         Member("source_log", Str(Escape(meta.sourceLog))),
         Member("exchanges", Arr(exchanges))])
  }

  ghost function Index(frames: seq<Frame>, maxGapMs: int): seq<Exchange> {
    var xs := Paired(frames, maxGapMs);
    FirstWins(xs, |xs|)
  }

  /** main: parse the log, pair, index, wrap the result, and write it as indented JSON. */
  method Convert(log: string, maxGapMs: int, meta: Metadata) returns (json: string)
    ensures json == Dumps(Document(meta, ExchangesJson(Index(FramesOfText(log), maxGapMs))), 0)
  {
    var frames := ParseLog(log);
    var exchanges := PairExchanges(frames, maxGapMs);
    var indexed, _, _ := IndexByRequest(exchanges);
    json := Dumps(Document(meta, indexed), 0);
  }

  /** "0x" and four upper-case digits. */
  predicate IdChars(s: string, id: U16) {
    var u := "0123456789ABCDEF";
    s == ['0', 'x', u[id / 0x1000], u[id / 0x100 % 16], u[id / 0x10 % 16], u[id % 16]]
  }

  /** Two lower-case digits for each byte, a blank between two bytes. */
  predicate ByteChars(s: string, bs: seq<Byte>) {
    var l := "0123456789abcdef";
    && |s| == (if bs == [] then 0 else 3 * |bs| - 1)
    && forall k :: 0 <= k < |bs| ==>
         s[3 * k] == l[bs[k] / 16] && s[3 * k + 1] == l[bs[k] % 16] && (k + 1 < |bs| ==> s[3 * k + 2] == ' ')
  }

  lemma ByteText(bs: seq<Byte>)
    ensures ByteChars(HexSpaced(bs, false), bs)
  {
    assert bs != [] ==> |HexSpaced(bs, false)| == 3 * |bs| - 1 by {
      if bs != [] {
        SpacedText(bs, false, 0);
      }
    }
    forall k | 0 <= k < |bs|
      ensures var s, l := HexSpaced(bs, false), "0123456789abcdef";
              s[3 * k] == l[bs[k] / 16] && s[3 * k + 1] == l[bs[k] % 16] && (k + 1 < |bs| ==> s[3 * k + 2] == ' ')
    {
      SpacedText(bs, false, k);
    }
  }

  /** How ids and bytes are written, in the request and in every response of an exchange. */
  lemma ExchangeText(x: Exchange)
    ensures var tx, rx := ExchangeJson(x).members[0].value, ExchangeJson(x).members[1].value;
            && IdChars(tx.members[0].value.text, x.txCanId) && ByteChars(tx.members[1].value.text, x.txUds)
            && forall k :: 0 <= k < |x.rxList| ==>
                 && IdChars(rx.elems[k].members[0].value.text, x.rxList[k].canId)
                 && ByteChars(rx.elems[k].members[1].value.text, x.rxList[k].uds)
  {
    CanIdText(x.txCanId);
    ByteText(x.txUds);
    forall k | 0 <= k < |x.rxList|
      ensures IdChars(FormatCanId(x.rxList[k].canId), x.rxList[k].canId)
      ensures ByteChars(HexSpaced(x.rxList[k].uds, false), x.rxList[k].uds)
    {
      CanIdText(x.rxList[k].canId);
      ByteText(x.rxList[k].uds);
    }
  }

  // ---- the document can be written --------------------------------------------------------------

  predicate Plain(s: string) {
    forall i :: 0 <= i < |s| ==> PlainChar(s[i])
  }

  lemma DigitsPlain(s: string, base: int)
    requires AllDigits(s, base) && base <= 16
    ensures Plain(s)
  {
    forall i | 0 <= i < |s| ensures PlainChar(s[i]) {
      assert IsDigit(s[i], base);
    }
  }

  lemma CanIdPlain(id: U32)
    ensures RawString(FormatCanId(id))
  {
    PaddedIdValue(id, 4);
    DigitsPlain(ZeroPad(Numeral(id, 16), 4), 16);
    PlainEscape(FormatCanId(id));
  }

  lemma {:induction false} HexSpacedPlain(bs: seq<Byte>, upper: bool)
    ensures Plain(HexSpaced(bs, upper))
  {
    if |bs| > 1 {
      HexSpacedPlain(bs[1..], upper);
    }
  }

  lemma UdsPlain(bs: seq<Byte>)
    ensures RawString(HexSpaced(bs, false))
  {
    HexSpacedPlain(bs, false);
    PlainEscape(HexSpaced(bs, false));
  }

  lemma DelayBare(d: int)
    ensures RawPrimitive(DelayText(d))
  {
    var digits := Dec(if d < 0 then -d else d);
    DecAsDigits(if d < 0 then -d else d);
    forall i | 0 <= i < |digits| ensures BareChar(digits[i]) {
      assert IsDigit(digits[i], 10);
    }
  }

  lemma KeyPlain(key: string)
    requires Plain(key)
    ensures RawString(key)
  {
    PlainEscape(key);
  }

  lemma RxLegal(r: Rx)
    ensures LegalValue(RxJson(r))
  {
    CanIdPlain(r.canId);
    UdsPlain(r.uds);
    DelayBare(r.delayMs);
    KeyPlain("can_id");
    KeyPlain("uds");
    KeyPlain("delay_ms");
  }

  lemma TxLegal(canId: U16, uds: seq<Byte>)
    ensures LegalValue(TxJson(canId, uds))
  {
    CanIdPlain(canId);
    UdsPlain(uds);
    KeyPlain("can_id");
    KeyPlain("uds");
  }

  lemma RxListLegal(rx: seq<Rx>)
    ensures LegalValue(RxListJson(rx))
  {
    forall i | 0 <= i < |rx| ensures LegalValue(RxListJson(rx).elems[i]) {
      RxLegal(rx[i]);
    }
  }

  lemma ExchangeLegal(x: Exchange)
    ensures LegalValue(ExchangeJson(x))
  {
    TxLegal(x.txCanId, x.txUds);
    RxListLegal(x.rxList);
    KeyPlain("tx");
    KeyPlain("rx");
  }

  lemma ExchangesLegal(xs: seq<Exchange>)
    ensures LegalValue(Arr(ExchangesJson(xs)))
  {
    forall i | 0 <= i < |xs| ensures LegalValue(ExchangesJson(xs)[i]) {
      ExchangeLegal(xs[i]);
    }
  }

  lemma KeysPlain()
    ensures RawString("recording_id") && RawString("captured_at") && RawString("vehicle_profile")
    ensures RawString("source_log") && RawString("exchanges")
  {
    KeyPlain("recording_id");
    KeyPlain("captured_at");
    KeyPlain("vehicle_profile");
    KeyPlain("source_log");
    KeyPlain("exchanges");
  }

  lemma EscapedLegal(s: string)
    ensures LegalValue(Str(Escape(s)))
  {
    EscapeIsRaw(s);
  }

  lemma MembersLegal(a: Value, b: Value, c: Value, d: Value, e: Value)
    requires LegalValue(a) && LegalValue(b) && LegalValue(c) && LegalValue(d) && LegalValue(e)
    ensures LegalMembers([Member("recording_id", a), Member("captured_at", b), Member("vehicle_profile", c),
                          Member("source_log", d), Member("exchanges", e)])
  {
    KeysPlain();
  }

  /** Whatever the metadata and the exchanges, the text written for the document spells it. */
  lemma DocumentSpelled(meta: Metadata, xs: seq<Exchange>)
    ensures var doc := Document(meta, ExchangesJson(xs)); SpellsValue(Dumps(doc, 0), doc)
  {
    EscapedLegal(meta.recordingId);
    EscapedLegal(meta.capturedAt);
    EscapedLegal(meta.vehicle);
    EscapedLegal(meta.sourceLog);
    ExchangesLegal(xs);
    MembersLegal(Str(Escape(meta.recordingId)), Str(Escape(meta.capturedAt)), Str(Escape(meta.vehicle)),
                 Str(Escape(meta.sourceLog)), Arr(ExchangesJson(xs)));
    DumpedTextSpells(Document(meta, ExchangesJson(xs)));
  }

  /** Exactly one member has the key, and its value is a string that denotes `s` by section 7 of RFC 8259. */
  ghost predicate Tells(ms: seq<Member>, key: string, s: string) {
    exists i :: 0 <= i < |ms| && ms[i].value.Str? && Unescape(ms[i].value.text) == Some(s)
                && forall k :: 0 <= k < |ms| ==> (ms[k].key == key <==> k == i)
  }

  lemma TellsAt(ms: seq<Member>, key: string, s: string, i: nat)
    requires i < |ms| && ms[i].value == Str(Escape(s)) && forall k :: 0 <= k < |ms| ==> (ms[k].key == key <==> k == i)
    ensures Tells(ms, key, s)
  {
    UnescapeEscape(s);
  }

  /** What the file says about the recording, for any metadata: the value its text spells tells each of the four, and
      holds the exchanges. */
  lemma MetadataWritten(meta: Metadata, xs: seq<Exchange>, doc: Value)
    requires SpellsValue(Dumps(Document(meta, ExchangesJson(xs)), 0), doc)
    ensures doc.Obj? && |doc.members| == 5
    ensures Tells(doc.members, "recording_id", meta.recordingId) && Tells(doc.members, "captured_at", meta.capturedAt)
    ensures Tells(doc.members, "vehicle_profile", meta.vehicle) && Tells(doc.members, "source_log", meta.sourceLog)
    ensures Member("exchanges", Arr(ExchangesJson(xs))) in doc.members
  {
    DocumentSpelled(meta, xs);
    SpelledOnce(Dumps(Document(meta, ExchangesJson(xs)), 0), doc, Document(meta, ExchangesJson(xs)));
    TellsAt(doc.members, "recording_id", meta.recordingId, 0);
    TellsAt(doc.members, "captured_at", meta.capturedAt, 1);
    TellsAt(doc.members, "vehicle_profile", meta.vehicle, 2);
    TellsAt(doc.members, "source_log", meta.sourceLog, 3);
    assert doc.members[4] == Member("exchanges", Arr(ExchangesJson(xs)));
  }
}
