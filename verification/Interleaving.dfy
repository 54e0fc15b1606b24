/** Any order in which threads get the scheduler's lock: every event leaves once, every block is freed once. */
module Interleaving {
  import opened Bytes
  import opened Seqs
  import opened EventQueue
  import opened Replay
  import opened RunProperties
  import opened LinkRefinement
  import Sched = Scheduler

  function PushedBy(ops: seq<Op>): seq<Event> {
    if ops == [] then [] else AddedBy(ops[0]) + PushedBy(ops[1..])
  }

  /** The event one operation pushes, if any. */
  function AddedBy(op: Op): seq<Event> {
    match op
    case Push(e) => [e]
    case _ => []
  }

  function PoppedBy(q: seq<Event>, ops: seq<Op>): seq<Event>
    decreases |ops|
  {
    if ops == [] then []
    else TakenBy(q, ops[0]) + PoppedBy(Apply(q, ops[0]).0, ops[1..])
  }

  /** The event one operation hands to its caller, if any. */
  function TakenBy(q: seq<Event>, op: Op): seq<Event> {
    match Apply(q, op).1
    case Popped(Some(e)) => [e]
    case _ => []
  }

  function CanceledBy(q: seq<Event>, ops: seq<Op>): seq<Event>
    decreases |ops|
  {
    if ops == [] then []
    else DroppedBy(q, ops[0]) + CanceledBy(Apply(q, ops[0]).0, ops[1..])
  }

  /** The events one operation discards. */
  function DroppedBy(q: seq<Event>, op: Op): seq<Event> {
    match op
    case CancelOp(hCop) => Filter(HasCop(hCop), q)
    case _ => []
  }

  lemma StepConserves(q: seq<Event>, op: Op)
    ensures multiset(q) + multiset(AddedBy(op))
         == multiset(TakenBy(q, op)) + multiset(DroppedBy(q, op)) + multiset(Apply(q, op).0)
  {
    match op
    case Push(_) =>
    case PopOp(link, now) => PopConserves(q, link, now);
    case CancelOp(hCop) => FilterSplit(HasCop(hCop), KeepsCop(hCop), q);
  }

  /** Whatever the interleaving, what was queued or pushed is popped once, canceled once, or still queued. */
  lemma {:induction false} InterleavingConserves(q: seq<Event>, ops: seq<Op>)
    ensures multiset(q) + multiset(PushedBy(ops))
         == multiset(PoppedBy(q, ops)) + multiset(CanceledBy(q, ops)) + multiset(QueueAfter(q, ops))
    decreases |ops|
  {
    if ops != [] {
      var op, rest := ops[0], ops[1..];
      var q' := Apply(q, op).0;
      StepConserves(q, op);
      InterleavingConserves(q', rest);
      Balance(q, AddedBy(op), PushedBy(rest), TakenBy(q, op), PoppedBy(q', rest), DroppedBy(q, op), CanceledBy(q', rest),
              q', QueueAfter(q', rest));
    }
  }

  lemma Balance(q: seq<Event>, a: seq<Event>, a': seq<Event>, t: seq<Event>, t': seq<Event>, d: seq<Event>, d': seq<Event>,
                mid: seq<Event>, last: seq<Event>)
    requires multiset(q) + multiset(a) == multiset(t) + multiset(d) + multiset(mid)
    requires multiset(mid) + multiset(a') == multiset(t') + multiset(d') + multiset(last)
    ensures multiset(q) + multiset(a + a') == multiset(t + t') + multiset(d + d') + multiset(last)
  {
    calc {
      multiset(q) + multiset(a + a');
      multiset(q) + multiset(a) + multiset(a');
      multiset(t) + multiset(d) + (multiset(mid) + multiset(a'));
      multiset(t + t') + multiset(d + d') + multiset(last);
    }
  }

  // ---- on the nodes -------------------------------------------------------------------------------

  /** One step of some thread: an operation under the lock, or, outside it, freeing the buffer of an event popped
      before. */
  datatype Move = Locked(op: Op) | Release(k: nat)

  /** The operations in the order in which they got the lock. */
  function LockedOps(moves: seq<Move>): seq<Op> {
    if moves == [] then []
    else if moves[0].Locked? then [moves[0].op] + LockedOps(moves[1..])
    else LockedOps(moves[1..])
  }

  function DataOf(held: seq<Sched.SchedEvent>): set<object> {
    set e | e in held :: e.data
  }

  /** What is allocated besides the queue is exactly the buffers of the events that callers hold, one each. */
  ghost predicate Held(s: Sched.Scheduler, held: seq<Sched.SchedEvent>)
    reads s, s.heap
  {
    && s.Foreign() == DataOf(held)
    && forall i, j :: 0 <= i < j < |held| ==> held[i].data != held[j].data
  }

  lemma HoldMore(held: seq<Sched.SchedEvent>, e: Sched.SchedEvent)
    ensures DataOf(held + [e]) == DataOf(held) + {e.data}
  {
    assert forall x :: x in held + [e] <==> x in held || x == e;
  }

  lemma HoldLess(held: seq<Sched.SchedEvent>, k: nat)
    requires k < |held| && forall i, j :: 0 <= i < j < |held| ==> held[i].data != held[j].data
    ensures DataOf(Without(held, k)) == DataOf(held) - {held[k].data}
    ensures var r := Without(held, k); forall i, j :: 0 <= i < j < |r| ==> r[i].data != r[j].data
  {
    var r := Without(held, k);
    forall e | e in held && e.data != held[k].data ensures e in r {
      var i :| 0 <= i < |held| && held[i] == e;
      assert r[if i < k then i else i - 1] == e;
    }
    forall e | e in r ensures e in held && e.data != held[k].data {
      var i :| 0 <= i < |r| && r[i] == e;
      assert e == held[if i < k then i else i + 1];
    }
  }

  /** Push an event with a buffer of its own. */
  method PerformPush(s: Sched.Scheduler, e: Event)
    requires s.Valid()
    modifies s, s.spine, s.heap
    ensures s.Valid() && s.Foreign() == old(s.Foreign()) && fresh(s.spine - old(s.spine))
    ensures s.contents == old(s.contents) + [e]
  {
    var data := s.heap.Malloc(|e.payload|);
    forall k | 0 <= k < data.Length {
      data[k] := e.payload[k];
    }
    assert data[..] == e.payload;
    s.Push(Sched.SchedEvent(e.due, e.link, e.hCop, e.tag, e.itemType, data));
  }

  /** Pop an event; the caller holds it from now on. */
  method PerformPop(s: Sched.Scheduler, held: seq<Sched.SchedEvent>, link: Link, now: U64)
    returns (taken: seq<Event>, held': seq<Sched.SchedEvent>)
    requires s.Valid() && Held(s, held)
    modifies s, s.spine, s.heap
    ensures s.Valid() && s.spine == old(s.spine) && Held(s, held')
    ensures taken == TakenBy(old(s.contents), PopOp(link, now)) && s.contents == Pop(old(s.contents), link, now).1
  {
    var out := s.PopDue(link, now);
    if out.Some? {
      HoldMore(held, out.value);
      return [Sched.View(out.value)], held + [out.value];
    }
    return [], held;
  }

  /** One step under the lock. */
  method PerformOp(s: Sched.Scheduler, held: seq<Sched.SchedEvent>, op: Op)
    returns (taken: seq<Event>, held': seq<Sched.SchedEvent>)
    requires s.Valid() && Held(s, held)
    modifies s, s.spine, s.heap
    ensures s.Valid() && fresh(s.spine - old(s.spine)) && Held(s, held')
    ensures taken == TakenBy(old(s.contents), op) && s.contents == Apply(old(s.contents), op).0
  {
    taken, held' := [], held;
    match op
    case Push(e) => PerformPush(s, e);
    case PopOp(link, now) => taken, held' := PerformPop(s, held, link, now);
    case CancelOp(hCop) => s.CancelCop(hCop);
  }

  /** A caller frees the buffer of an event it holds. */
  method PerformRelease(s: Sched.Scheduler, held: seq<Sched.SchedEvent>, k: nat) returns (held': seq<Sched.SchedEvent>)
    requires s.Valid() && Held(s, held) && k < |held|
    modifies s.heap
    ensures s.Valid() && Held(s, held') && |held'| == |held| - 1
  {
    HoldLess(held, k);
    assert held[k].data in s.Foreign();
    s.FreeForeign(held[k].data);
    held' := Without(held, k);
  }

  lemma PopsStep(q: seq<Event>, moves: seq<Move>, i: nat, popped: seq<Event>)
    requires i < |moves|
    ensures popped + PoppedBy(q, LockedOps(moves[i..])) ==
            if moves[i].Release? then popped + PoppedBy(q, LockedOps(moves[i + 1..]))
            else popped + TakenBy(q, moves[i].op) + PoppedBy(Apply(q, moves[i].op).0, LockedOps(moves[i + 1..]))
  {
    assert moves[i..][0] == moves[i] && moves[i..][1..] == moves[i + 1..];
    if moves[i].Locked? {
      PopsCons(q, moves[i].op, LockedOps(moves[i + 1..]), popped);
    }
  }

  lemma PopsCons(q: seq<Event>, op: Op, ops: seq<Op>, popped: seq<Event>)
    ensures popped + PoppedBy(q, [op] + ops) == popped + TakenBy(q, op) + PoppedBy(Apply(q, op).0, ops)
  {
    assert ([op] + ops)[1..] == ops;
  }

  /** Any interleaving of lock-protected operations and of freeing popped buffers; then the callers free what they
      still hold, and scheduler_free the rest. The callers get exactly what the queue of values gives them in the
      order of the lock, and nothing stays allocated. */
  method PerformAll(heap: Sched.Heap, moves: seq<Move>) returns (popped: seq<Event>)
    requires heap.live == {}
    modifies heap
    ensures popped == PoppedBy([], LockedOps(moves))
    ensures heap.live == {}
  {
    var s := new Sched.Scheduler(heap);
    popped := [];
    var held: seq<Sched.SchedEvent> := [];
    for i := 0 to |moves|
      invariant s.Valid() && s.heap == heap && Held(s, held) && fresh(s.spine)
      invariant popped + PoppedBy(s.contents, LockedOps(moves[i..])) == PoppedBy([], LockedOps(moves))
    {
      PopsStep(s.contents, moves, i, popped);
      match moves[i]
      case Locked(op) =>
        var taken;
        taken, held := PerformOp(s, held, op);
        popped := popped + taken;
      case Release(k) =>
        if k < |held| {
          held := PerformRelease(s, held, k);
        }
    }
    assert popped + [] == popped;
    ReleaseAll(s, held);
    s.FreeAll();
  }

  method ReleaseAll(s: Sched.Scheduler, holding: seq<Sched.SchedEvent>)
    requires s.Valid() && Held(s, holding)
    modifies s.heap
    ensures s.Valid() && s.Foreign() == {}
  {
    var held := holding;
    while held != []
      invariant s.Valid() && Held(s, held)
      decreases |held|
    {
      held := PerformRelease(s, held, 0);
    }
  }
}
