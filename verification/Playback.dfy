/** From the captured log to the client's hands: what polling a replayed request delivers in any run. */
module Playback {
  import opened Bytes
  import opened Seqs
  import opened LogFormat
  import opened Converter
  import opened Recording
  import opened EventQueue
  import opened Replay
  import opened RunProperties
  import opened EndToEnd

  /** What was scheduled under handle `h` by the first `n` calls. */
  function ScheduledOf(tape: seq<Recorded>, calls: seq<Timed>, n: nat, h: U32): seq<Event>
    requires n <= |calls|
  {
    Of(h, Books(tape, calls, n).scheduled)
  }

  /** What call `n` adds to the events of handle `h`. */
  lemma ScheduledStep(tape: seq<Recorded>, calls: seq<Timed>, n: nat, h: U32)
    requires n < |calls|
    ensures ScheduledOf(tape, calls, n + 1, h)
         == ScheduledOf(tape, calls, n, h)
            + (if calls[n].call.Start? && h == HandleOf(tape, calls, n) then ScheduledBy(tape, calls, n) else [])
  {
    var l, c := Books(tape, calls, n), calls[n];
    assert Books(tape, calls, n + 1) == Enter(tape, l, c);
    if c.call.Start? {
      var Start(link, copType, data, tag) := c.call;
      var cop, events := HandleOf(tape, calls, n), ScheduledBy(tape, calls, n);
      ScheduledShape(tape, c.tick, link, copType, data, tag, cop);
      OfPrimitiveEvents(events, cop, link, h);
      OfAppend(h, l.scheduled, events);
    }
  }

  lemma OwnStep(tape: seq<Recorded>, calls: seq<Timed>, i: nat)
    requires i < |calls| && calls[i].call.Start? && Starts(calls, |calls|) < TWO32
    ensures ScheduledOf(tape, calls, i + 1, HandleOf(tape, calls, i)) == ScheduledBy(tape, calls, i)
  {
    HandleIsNew(tape, calls, i);
    ScheduledStep(tape, calls, i, HandleOf(tape, calls, i));
  }

  lemma OtherStep(tape: seq<Recorded>, calls: seq<Timed>, i: nat, n: nat)
    requires i < n < |calls| && calls[i].call.Start? && Starts(calls, |calls|) < TWO32
    ensures ScheduledOf(tape, calls, n + 1, HandleOf(tape, calls, i)) == ScheduledOf(tape, calls, n, HandleOf(tape, calls, i))
  {
    ScheduledStep(tape, calls, n, HandleOf(tape, calls, i));
    if calls[n].call.Start? {
      HandlesDistinct(tape, calls, i, n);
    }
  }

  /** Under a start's handle exactly that start's events are ever scheduled. */
  lemma {:induction false} ScheduledUnderHandle(tape: seq<Recorded>, calls: seq<Timed>, n: nat, i: nat)
    requires i < n <= |calls| && calls[i].call.Start? && Starts(calls, |calls|) < TWO32
    ensures ScheduledOf(tape, calls, n, HandleOf(tape, calls, i)) == ScheduledBy(tape, calls, i)
    decreases n
  {
    if i == n - 1 {
      OwnStep(tape, calls, i);
    } else {
      ScheduledUnderHandle(tape, calls, n - 1, i);
      OtherStep(tape, calls, i, n - 1);
    }
  }

  predicate NeverCanceled(calls: seq<Timed>, n: nat, h: U32)
    requires n <= |calls|
  {
    forall j :: 0 <= j < n ==> calls[j].call != Call.Cancel(h)
  }

  /** What was canceled of handle `h` by the first `n` calls. */
  function CanceledOf(tape: seq<Recorded>, calls: seq<Timed>, n: nat, h: U32): seq<Event>
    requires n <= |calls|
  {
    Of(h, Books(tape, calls, n).canceled)
  }

  lemma CanceledStep(tape: seq<Recorded>, calls: seq<Timed>, n: nat, h: U32)
    requires n < |calls| && calls[n].call != Call.Cancel(h)
    ensures CanceledOf(tape, calls, n + 1, h) == CanceledOf(tape, calls, n, h)
  {
    var l, c := Books(tape, calls, n), calls[n];
    assert Books(tape, calls, n + 1) == Enter(tape, l, c);
    if c.call.Cancel? {
      CancelByPrimitive(l.state.queue, c.call.hCop, h);
      OfAppend(h, l.canceled, Filter(HasCop(c.call.hCop), l.state.queue));
    }
  }

  lemma {:induction false} CanceledOnlyByCancel(tape: seq<Recorded>, calls: seq<Timed>, n: nat, h: U32)
    requires n <= |calls| && NeverCanceled(calls, n, h)
    ensures CanceledOf(tape, calls, n, h) == []
  {
    if n > 0 {
      CanceledOnlyByCancel(tape, calls, n - 1, h);
      CanceledStep(tape, calls, n - 1, h);
    }
  }

  /** What is delivered under a handle is a prefix of what its start scheduled. */
  lemma DeliveredPrefix(tape: seq<Recorded>, calls: seq<Timed>, n: nat, i: nat)
    requires i < n <= |calls| && calls[i].call.Start?
    requires Starts(calls, |calls|) < TWO32 && StartsFit(tape, calls)
    ensures Of(HandleOf(tape, calls, i), Books(tape, calls, n).delivered) <= ScheduledBy(tape, calls, i)
  {
    DeliveryIsPrefix(tape, calls, n, HandleOf(tape, calls, i));
    ScheduledUnderHandle(tape, calls, n, i);
  }

  /** An empty poll of the start's link once all its events are due means they have all been delivered,
      unless the primitive was canceled. */
  lemma DrainedMeansDelivered(tape: seq<Recorded>, calls: seq<Timed>, m: nat, i: nat)
    requires i < m < |calls| && calls[i].call.Start?
    requires Starts(calls, |calls|) < TWO32 && StartsFit(tape, calls)
    requires NeverCanceled(calls, m, HandleOf(tape, calls, i))
    requires calls[m].call == Poll(calls[i].call.link) && OutcomeAt(tape, calls, m).QueueEmpty?
    requires forall k :: 0 <= k < |ScheduledBy(tape, calls, i)| ==> ScheduledBy(tape, calls, i)[k].due <= NowUs(calls[m].tick)
    ensures Of(HandleOf(tape, calls, i), Books(tape, calls, m).delivered) == ScheduledBy(tape, calls, i)
  {
    var h, link, l := HandleOf(tape, calls, i), calls[i].call.link, Books(tape, calls, m);
    PrimitiveOrder(tape, calls, m, h);
    ScheduledUnderHandle(tape, calls, m, i);
    CanceledOnlyByCancel(tape, calls, m, h);
    var queued := Of(h, l.state.queue);
    if queued != [] {
      QueuedIsReady(tape, calls, m, i, queued[0]);
      PopEmptyIff(l.state.queue, link, NowUs(calls[m].tick));
    }
  }

  lemma QueuedIsReady(tape: seq<Recorded>, calls: seq<Timed>, m: nat, i: nat, e: Event)
    requires i < m < |calls| && calls[i].call.Start? && Starts(calls, |calls|) < TWO32
    requires var l := Books(tape, calls, m);
             var h := HandleOf(tape, calls, i);
             LedgerInOrder(l, h) && e in Of(h, l.state.queue)
    requires forall k :: 0 <= k < |ScheduledBy(tape, calls, i)| ==> ScheduledBy(tape, calls, i)[k].due <= NowUs(calls[m].tick)
    ensures HasReady(Books(tape, calls, m).state.queue, calls[i].call.link, NowUs(calls[m].tick))
  {
    var l, h, events := Books(tape, calls, m), HandleOf(tape, calls, i), ScheduledBy(tape, calls, i);
    ScheduledUnderHandle(tape, calls, m, i);
    FilterMember(HasCop(h), l.state.queue, e);
    assert e in Of(h, l.scheduled);
    var k :| 0 <= k < |events| && events[k] == e;
    var Start(link, copType, data, tag) := calls[i].call;
    ScheduledShape(tape, calls[i].tick, link, copType, data, tag, h);
    var j :| 0 <= j < |l.state.queue| && l.state.queue[j] == e;
    assert Ready(l.state.queue[j], link, NowUs(calls[m].tick));
  }

  /** What has been delivered of start `i` after the first `m` calls. */
  function DeliveredOf(tape: seq<Recorded>, calls: seq<Timed>, m: nat, i: nat): seq<Event>
    requires i < m <= |calls|
  {
    Of(HandleOf(tape, calls, i), Books(tape, calls, m).delivered)
  }

  /** Call `m` polls the link of start `i` in vain, at or after `due`, and nothing canceled the start before. */
  predicate DrainedAt(tape: seq<Recorded>, calls: seq<Timed>, m: nat, i: nat, due: int)
    requires i < m < |calls| && calls[i].call.Start?
  {
    && NeverCanceled(calls, m, HandleOf(tape, calls, i))
    && calls[m].call == Poll(calls[i].call.link) && OutcomeAt(tape, calls, m).QueueEmpty?
    && due <= NowUs(calls[m].tick)
  }

  /** A start that replays a bucket with holding gaps exactly delivers its bytes in order, all of them once its link is
      drained. */
  lemma ExactReplayReaches(recs: seq<Record>, r: nat, size: nat, calls: seq<Timed>, i: nat, m: nat, tape: seq<Recorded>)
    requires r + size < |recs| && GapsHold(FramesOf(recs), r, size) && i < m < |calls| && calls[i].call.Start?
    requires Starts(calls, |calls|) < TWO32 && StartsFit(tape, calls)
    requires ExactReplay(ScheduledBy(tape, calls, i), recs, r, size, calls[i].tick, calls[i].call.link,
                         HandleOf(tape, calls, i), calls[i].call.tag)
    ensures Reaches(DeliveredOf(tape, calls, m, i), recs, r, size)
    ensures DrainedAt(tape, calls, m, i, calls[i].tick * 1000 + (recs[r + size].ms - recs[r].ms) * 1000) ==>
              |DeliveredOf(tape, calls, m, i)| == size
  {
    var h, events := HandleOf(tape, calls, i), ScheduledBy(tape, calls, i);
    DeliveredPrefix(tape, calls, m, i);
    if DrainedAt(tape, calls, m, i, calls[i].tick * 1000 + (recs[r + size].ms - recs[r].ms) * 1000) {
      AllDueByLast(recs, r, size, calls[i].tick, calls[i].call.link, h, calls[i].call.tag, events, NowUs(calls[m].tick));
      DrainedMeansDelivered(tape, calls, m, i);
    }
  }

  /** Some of the `size` records after record `r`, from the first on, byte for byte. */
  ghost predicate Reaches(got: seq<Event>, recs: seq<Record>, r: nat, size: nat) {
    && |got| <= size && r + size < |recs|
    && forall k :: 0 <= k < |got| ==> got[k].payload == recs[r + 1 + k].bytes
  }

  /** The capture reaches the client. In any run of the engine on the tape converted from any capture, what is delivered
      under the handle of a start that repeats a captured request is, in order, a prefix of the responses captured after
      it, byte for byte; and all of them, once a poll of its link finds nothing after the last is due and the primitive
      was not canceled. Of the capture this needs that the request's header is short and no earlier request shares its
      key, and that its responses have short headers and gaps the delay field holds; nothing of the rest of it. */
  lemma CaptureReachesClient(lines: seq<LogLine>, recs: seq<Record>, gap: int, meta: Metadata, r: nat,
                             calls: seq<Timed>, i: nat, m: nat, tape: seq<Recorded>, size: nat)
    requires forall k :: 0 <= k < |lines| ==> Printable(lines[k])
    requires recs == Records(lines) && r < |recs| && recs[r].request && OwnsKey(recs, r)
    requires size == BucketSize(FramesOf(recs), gap, r) && HeadersHold(recs, r, size) && GapsHold(FramesOf(recs), r, size)
    requires tape == ConvertedTape(JoinLines(PrintAll(lines)), gap, meta)
    requires i < m < |calls| && Starts(calls, |calls|) < TWO32 && StartsFit(tape, calls)
    requires calls[i].call.Start? && calls[i].call.copType == 0x8010 && calls[i].call.data == Some(recs[r].bytes)
    requires calls[i].tick * 1000 + (recs[r + size].ms - recs[r].ms) * 1000 < TWO64
    ensures Reaches(DeliveredOf(tape, calls, m, i), recs, r, size)
    ensures DrainedAt(tape, calls, m, i, calls[i].tick * 1000 + (recs[r + size].ms - recs[r].ms) * 1000) ==>
              |DeliveredOf(tape, calls, m, i)| == size
  {
    var Start(link, _, data, tag) := calls[i].call;
    RequestFidelity(lines, recs, gap, meta, r, size, calls[i].tick, link, tag, HandleOf(tape, calls, i));
    ExactReplayReaches(recs, r, size, calls, i, m, tape);
  }

  lemma {:induction false} GapsMonotone(frames: seq<Frame>, r: nat, size: nat, k: nat)
    requires r + size < |frames| && GapsHold(frames, r, size) && k <= size
    ensures frames[r + k].ms <= frames[r + size].ms
    decreases size - k
  {
    if k < size {
      assert DelayHolds(frames, r + k + 1);
      GapsMonotone(frames, r, size, k + 1);
    }
  }

  lemma AllDueByLast(recs: seq<Record>, r: nat, size: nat, tick: U64, link: Link, h: U32, tag: int, events: seq<Event>, now: U64)
    requires r + size < |recs| && GapsHold(FramesOf(recs), r, size)
    requires ExactReplay(events, recs, r, size, tick, link, h, tag)
    requires tick * 1000 + (recs[r + size].ms - recs[r].ms) * 1000 <= now
    ensures forall k :: 0 <= k < |events| ==> events[k].due <= now
  {
    forall k | 0 <= k < |events| ensures events[k].due <= now {
      GapsMonotone(FramesOf(recs), r, size, 1 + k);
    }
  }
}
