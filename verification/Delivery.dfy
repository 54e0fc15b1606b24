/** The delivery thread against everything else, one critical section per step. */
module Delivery {
  import opened Bytes
  import opened Seqs
  import opened EventQueue
  import L = LinkRefinement

  /** A callback pointer (0 is NULL) with the link it was registered for. */
  datatype Registration = Registration(cb: nat, link: Link)

  /** Where the thread is: at the top of its loop, between its two critical sections, or about to call back. */
  datatype Thread = AtTop | Snapped(r: Registration) | Firing(r: Registration)

  datatype State = State(queue: seq<Event>, slot: Registration, thread: Thread)

  datatype Step =
    | SetCallback(r: Registration)
    | Push(event: Event)
    | PopDue(link: Link, now: U64)
    | CancelCop(hCop: U32)
    | Snapshot
    | Peek(now: U64)
    | Fire

  const INITIAL := State([], Registration(0, Link(0, 0)), AtTop)

  /** A step of the thread taken at the wrong point of its loop does nothing. */
  function Apply(s: State, step: Step): State {
    match step
    case SetCallback(r) => s.(slot := r)
    case Push(e) => s.(queue := s.queue + [e])
    case PopDue(link, now) => s.(queue := Pop(s.queue, link, now).1)
    case CancelCop(hCop) => s.(queue := Cancel(s.queue, hCop))
    case Snapshot =>
      if s.thread.AtTop? && s.slot.cb != 0 then s.(thread := Snapped(s.slot)) else s
    case Peek(now) =>
      if !s.thread.Snapped? then s
      else if HasReady(s.queue, s.thread.r.link, now) then s.(thread := Firing(s.thread.r))
      else s.(thread := AtTop)
    case Fire => if s.thread.Firing? then s.(thread := AtTop) else s
  }

  function After(steps: seq<Step>, n: nat): State
    requires n <= |steps|
  {
    if n == 0 then INITIAL else Apply(After(steps, n - 1), steps[n - 1])
  }

  /** Step `k` calls `r` back. */
  ghost predicate Fires(steps: seq<Step>, k: nat, r: Registration) {
    k < |steps| && steps[k].Fire? && After(steps, k).thread == Firing(r)
  }

  /** Step `k` is a snapshot that read `r` from the slot. */
  ghost predicate Snaps(steps: seq<Step>, k: nat, r: Registration) {
    k < |steps| && steps[k].Snapshot? && After(steps, k).thread.AtTop? && After(steps, k).slot == r && r.cb != 0
  }

  /** Step `k` is a peek that found a due event of `r`'s link. */
  ghost predicate Finds(steps: seq<Step>, k: nat, r: Registration) {
    k < |steps| && steps[k].Peek? && After(steps, k).thread == Snapped(r)
    && HasReady(After(steps, k).queue, r.link, steps[k].now)
  }

  /** What the slot holds was written by one registration, the last one so far, or is the initial NULL. */
  lemma {:induction false} SlotFrom(steps: seq<Step>, n: nat) returns (k: nat)
    requires n <= |steps| && After(steps, n).slot.cb != 0
    ensures k < n && steps[k] == SetCallback(After(steps, n).slot)
    ensures forall j :: k < j < n ==> !steps[j].SetCallback?
  {
    if steps[n - 1].SetCallback? {
      k := n - 1;
    } else {
      k := SlotFrom(steps, n - 1);
    }
  }

  // ---- when the thread calls back, and that it does ----------------------------------------------

  predicate OfThread(step: Step) {
    step.Snapshot? || step.Peek? || step.Fire?
  }

  /** From `lo` to `hi` only other threads take steps. */
  predicate OnlyOthers(steps: seq<Step>, lo: nat, hi: nat)
    requires hi <= |steps|
  {
    forall k :: lo <= k < hi ==> !OfThread(steps[k])
  }

  /** An event of the link is queued and due. */
  predicate SeesDue(q: seq<Event>, link: Link, now: U64) {
    exists i :: 0 <= i < |q| && q[i].link == link && q[i].due <= now
  }

  lemma ReadySeen(q: seq<Event>, link: Link, now: U64)
    ensures HasReady(q, link, now) <==> SeesDue(q, link, now)
  {
    forall i | 0 <= i < |q| ensures Ready(q[i], link, now) <==> q[i].link == link && q[i].due <= now {
    }
  }

  /** The snapshot `k` of `r` and the peek `p` lead to a callback at the next Fire: `p` is the first peek after `k`, and
      sees a due event of the link; no Fire follows it before `f`. */
  ghost predicate Leads(steps: seq<Step>, k: nat, p: nat, f: nat, r: Registration) {
    && k < p < f < |steps| && Snaps(steps, k, r)
    && (forall j :: k < j < p ==> !steps[j].Peek?)
    && steps[p].Peek? && SeesDue(After(steps, p).queue, r.link, steps[p].now)
    && (forall j :: p < j < f ==> !steps[j].Fire?)
  }

  /** Between a snapshot and the next peek the thread keeps what it read. */
  lemma {:induction false} Holding(steps: seq<Step>, k: nat, n: nat, r: Registration)
    requires k < n <= |steps| && Snaps(steps, k, r) && forall j :: k < j < n ==> !steps[j].Peek?
    ensures After(steps, n).thread == Snapped(r)
    decreases n
  {
    if k + 1 < n {
      Holding(steps, k, n - 1, r);
    }
  }

  lemma {:induction false} AboutToFire(steps: seq<Step>, p: nat, n: nat, r: Registration)
    requires p < n <= |steps| && steps[p].Peek? && After(steps, p).thread == Snapped(r)
    requires SeesDue(After(steps, p).queue, r.link, steps[p].now) && forall j :: p < j < n ==> !steps[j].Fire?
    ensures After(steps, n).thread == Firing(r)
    decreases n
  {
    if p + 1 < n {
      AboutToFire(steps, p, n - 1, r);
    } else {
      ReadySeen(After(steps, p).queue, r.link, steps[p].now);
    }
  }

  lemma {:induction false} HeldSince(steps: seq<Step>, n: nat) returns (k: nat)
    requires n <= |steps| && After(steps, n).thread.Snapped?
    ensures k < n && Snaps(steps, k, After(steps, n).thread.r) && forall j :: k < j < n ==> !steps[j].Peek?
  {
    if After(steps, n - 1).thread.Snapped? {
      k := HeldSince(steps, n - 1);
    } else {
      k := n - 1;
    }
  }

  lemma {:induction false} LedBy(steps: seq<Step>, f: nat) returns (k: nat, p: nat)
    requires f < |steps| && After(steps, f).thread.Firing?
    ensures Leads(steps, k, p, f, After(steps, f).thread.r)
  {
    if After(steps, f - 1).thread.Firing? {
      k, p := LedBy(steps, f - 1);
    } else {
      p := f - 1;
      k := HeldSince(steps, p);
      ReadySeen(After(steps, p).queue, After(steps, f).thread.r.link, steps[p].now);
    }
  }

  /** The thread calls back at a Fire exactly when a snapshot took the registration, the first peek after it saw a due
      event of the registered link, and it has not called back since. */
  lemma CallsBackIff(steps: seq<Step>, f: nat, r: Registration)
    requires f < |steps| && steps[f].Fire?
    ensures Fires(steps, f, r) <==> exists k, p :: Leads(steps, k, p, f, r)
  {
    if After(steps, f).thread == Firing(r) {
      var k, p := LedBy(steps, f);
    }
    if exists k, p :: Leads(steps, k, p, f, r) {
      var k, p :| Leads(steps, k, p, f, r);
      Holding(steps, k, p, r);
      AboutToFire(steps, p, f, r);
    }
  }

  /** Every callback is a registered one with the link it was registered with, never a mixture of two
      registrations; it was the current one at its snapshot; and a due event of that link was queued at the peek. */
  lemma CallbacksAreSound(steps: seq<Step>, n: nat, r: Registration) returns (reg: nat, snap: nat, peek: nat)
    requires Fires(steps, n, r)
    ensures reg < snap < peek < n
    ensures steps[reg] == SetCallback(r) && r.cb != 0
    ensures forall j :: reg < j < snap ==> !steps[j].SetCallback?
    ensures Snaps(steps, snap, r) && Finds(steps, peek, r)
  {
    snap, peek := LedBy(steps, n);
    Holding(steps, snap, peek, r);
    ReadySeen(After(steps, peek).queue, r.link, steps[peek].now);
    reg := SlotFrom(steps, snap);
  }

  /** One slot for all links: once `r` is registered last, a callback whose snapshot comes later is `r`. */
  lemma OnlyLastRegistrationFires(steps: seq<Step>, k: nat, snap: nat, r: Registration, other: Registration)
    requires k < snap < |steps| && steps[k] == SetCallback(r)
    requires forall j :: k < j < snap ==> !steps[j].SetCallback?
    requires Snaps(steps, snap, other)
    ensures other == r
  {
    var reg := SlotFrom(steps, snap);
    assert steps[reg] == SetCallback(other);
  }

  /** Between two callbacks there is a new snapshot, and a new peek that sees a due event. */
  lemma CallbacksApart(steps: seq<Step>, m: nat, n: nat, a: Registration, b: Registration) returns (k: nat, p: nat)
    requires m < n && Fires(steps, m, a) && Fires(steps, n, b)
    ensures m < k && Leads(steps, k, p, n, b)
  {
    k, p := LedBy(steps, n);
    if k < m <= p {
      Holding(steps, k, m, b);
    }
  }

  /** What the slot holds: the last registration. */
  lemma {:induction false} SlotHolds(steps: seq<Step>, reg: nat, n: nat, r: Registration)
    requires reg < n <= |steps| && steps[reg] == SetCallback(r) && forall j :: reg < j < n ==> !steps[j].SetCallback?
    ensures After(steps, n).slot == r
    decreases n
  {
    if reg + 1 < n {
      SlotHolds(steps, reg, n - 1, r);
    }
  }

  lemma {:induction false} OthersKeepThread(steps: seq<Step>, lo: nat, hi: nat)
    requires lo <= hi <= |steps| && OnlyOthers(steps, lo, hi)
    ensures After(steps, hi).thread == After(steps, lo).thread
    decreases hi
  {
    if lo < hi {
      OthersKeepThread(steps, lo, hi - 1);
    }
  }

  /** Progress: with `r` registered last, a round that starts at the top and whose peek sees a due event of its link calls
      `r` back, whatever other threads do in between, and ends at the top. */
  lemma DueEventCallsBack(steps: seq<Step>, reg: nat, k: nat, p: nat, f: nat, r: Registration)
    requires reg < k < p < f < |steps| && steps[reg] == SetCallback(r) && r.cb != 0
    requires forall j :: reg < j < k ==> !steps[j].SetCallback?
    requires After(steps, k).thread.AtTop? && steps[k].Snapshot? && steps[p].Peek? && steps[f].Fire?
    requires OnlyOthers(steps, k + 1, p) && OnlyOthers(steps, p + 1, f)
    requires SeesDue(After(steps, p).queue, r.link, steps[p].now)
    ensures Fires(steps, f, r) && After(steps, f + 1).thread.AtTop?
  {
    SlotHolds(steps, reg, k, r);
    assert Leads(steps, k, p, f, r);
    CallsBackIff(steps, f, r);
  }

  /** A round that finds nothing due ends at the top without a callback. */
  lemma NothingDueNoCallback(steps: seq<Step>, k: nat, p: nat)
    requires k < p < |steps| && steps[k].Snapshot? && After(steps, k).thread.AtTop? && steps[p].Peek?
    requires OnlyOthers(steps, k + 1, p)
    requires !SeesDue(After(steps, p).queue, After(steps, k).slot.link, steps[p].now)
    ensures After(steps, p + 1).thread.AtTop?
  {
    OthersKeepThread(steps, k + 1, p);
    ReadySeen(After(steps, p).queue, After(steps, k).slot.link, steps[p].now);
  }

  /** From wherever the thread is, a peek and a Fire bring it back to the top. */
  lemma RoundEnds(s: State, now: U64)
    ensures Apply(Apply(s, Peek(now)), Fire).thread.AtTop?
  {
  }

  /** The queue under the thread is the one the other threads' operations make: the thread never changes it. */
  function OpOf(step: Step): seq<L.Op> {
    match step
    case Push(e) => [L.Push(e)]
    case PopDue(link, now) => [L.PopOp(link, now)]
    case CancelCop(hCop) => [L.CancelOp(hCop)]
    case _ => []
  }

  function OpsOf(steps: seq<Step>, n: nat): seq<L.Op>
    requires n <= |steps|
  {
    if n == 0 then [] else OpsOf(steps, n - 1) + OpOf(steps[n - 1])
  }

  lemma {:induction false} OneMoreOp(q: seq<Event>, ops: seq<L.Op>, op: L.Op)
    ensures L.QueueAfter(q, ops + [op]) == L.Apply(L.QueueAfter(q, ops), op).0
    decreases |ops|
  {
    if ops == [] {
      assert [] + [op] == [op] && [op][1..] == [];
    } else {
      OneMoreOp(L.Apply(q, ops[0]).0, ops[1..], op);
      assert (ops + [op])[0] == ops[0] && (ops + [op])[1..] == ops[1..] + [op];
    }
  }

  lemma StepQueue(s: State, step: Step, ops: seq<L.Op>)
    requires s.queue == L.QueueAfter([], ops)
    ensures Apply(s, step).queue == L.QueueAfter([], ops + OpOf(step))
  {
    if OpOf(step) == [] {
      assert ops + [] == ops;
    } else {
      OneMoreOp([], ops, OpOf(step)[0]);
    }
  }

  lemma {:induction false} QueueIsOthers(steps: seq<Step>, n: nat)
    requires n <= |steps|
    ensures After(steps, n).queue == L.QueueAfter([], OpsOf(steps, n))
  {
    if n > 0 {
      QueueIsOthers(steps, n - 1);
      StepQueue(After(steps, n - 1), steps[n - 1], OpsOf(steps, n - 1));
    }
  }

  // ---- a fired callback finds its event -------------------------------------------------------

  /** Step `k` takes `e` out of the queue. */
  ghost predicate Removes(steps: seq<Step>, k: nat, e: Event)
    requires k < |steps|
  {
    match steps[k]
    case PopDue(link, now) => Pop(After(steps, k).queue, link, now).0 == Some(e)
    case CancelCop(hCop) => hCop == e.hCop
    case _ => false
  }

  lemma StaysUnlessRemoved(steps: seq<Step>, k: nat, e: Event)
    requires k < |steps| && e in After(steps, k).queue && !Removes(steps, k, e)
    ensures e in After(steps, k + 1).queue
  {
    var q := After(steps, k).queue;
    match steps[k]
    case PopDue(link, now) =>
      var i := FirstReady(q, link, now, 0);
      var j :| 0 <= j < |q| && q[j] == e;
      if i < |q| {
        assert Without(q, i)[if j < i then j else j - 1] == e;
      }
    case CancelCop(hCop) => FilterMember(KeepsCop(hCop), q, e);
    case _ =>
  }

  lemma {:induction false} StaysQueued(steps: seq<Step>, lo: nat, hi: nat, e: Event)
    requires lo <= hi <= |steps| && e in After(steps, lo).queue
    requires forall k :: lo <= k < hi ==> !Removes(steps, k, e)
    ensures e in After(steps, hi).queue
    decreases hi
  {
    if lo < hi {
      StaysQueued(steps, lo, hi - 1, e);
      StaysUnlessRemoved(steps, hi - 1, e);
    }
  }

  /** The peek that led to a callback saw a due event; unless some step removes it first, a poll of that link
      at or after the peek's clock does not come back empty. */
  lemma CallbackFindsEvent(steps: seq<Step>, peek: nat, r: Registration) returns (e: Event)
    requires Finds(steps, peek, r)
    ensures e.link == r.link && e.due <= steps[peek].now && e in After(steps, peek).queue
    ensures forall poll :: peek < poll < |steps| && steps[poll].PopDue? && steps[poll].link == r.link
              && steps[peek].now <= steps[poll].now && (forall k :: peek <= k < poll ==> !Removes(steps, k, e))
              ==> Pop(After(steps, poll).queue, r.link, steps[poll].now).0.Some?
  {
    var q := After(steps, peek).queue;
    var i :| 0 <= i < |q| && Ready(q[i], r.link, steps[peek].now);
    e := q[i];
    forall poll | peek < poll < |steps| && steps[poll].PopDue? && steps[poll].link == r.link
      && steps[peek].now <= steps[poll].now && (forall k :: peek <= k < poll ==> !Removes(steps, k, e))
      ensures Pop(After(steps, poll).queue, r.link, steps[poll].now).0.Some?
    {
      StaysQueued(steps, peek, poll, e);
      var later := After(steps, poll).queue;
      var j :| 0 <= j < |later| && later[j] == e;
      assert Ready(later[j], r.link, steps[poll].now);
      PopEmptyIff(later, r.link, steps[poll].now);
    }
  }
}
