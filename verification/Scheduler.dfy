/** src/scheduler.c: the shared singly linked list, relinked in place, with malloc and free accounted for. */
module Scheduler {
  import opened Bytes
  import opened Seqs
  import opened EventQueue

  /** The C heap: which blocks are allocated and not yet freed. Freeing needs the block to be live,
      so a verified caller frees nothing twice. */
  class Heap {
    ghost var live: set<object>

    constructor ()
      ensures live == {}
    {
      live := {};
    }

    method Malloc(n: nat) returns (block: array<Byte>)
      modifies this
      ensures fresh(block) && block.Length == n
      ensures live == old(live) + {block}
    {
      block := new Byte[n](_ => 0);
      live := live + {block};
    }

    /** A structure obtained from calloc. */
    ghost method Allocated(o: object)
      requires o !in live
      modifies this
      ensures live == old(live) + {o}
    {
      live := live + {o};
    }

    method Free(o: object)
      requires o in live
      modifies this
      ensures live == old(live) - {o}
    {
      live := live - {o};
    }
  }

  /** sched_event_t: the payload is a separately allocated buffer. */
  datatype SchedEvent = SchedEvent(due: U64, link: Link, hCop: U32, tag: int, itemType: U32, data: array<Byte>)

  function View(e: SchedEvent): Event
    reads e.data
  {
    Event(e.due, e.link, e.hCop, e.tag, e.itemType, e.data[..])
  }

  class Node {
    const event: SchedEvent
    var next: Node?

    constructor (event: SchedEvent)
      ensures this.event == event && next == null
    {
      this.event := event;
      next := null;
    }
  }

  /** `ns` are the nodes linked in this order from `head` to the final null. */
  ghost predicate Linked(head: Node?, ns: seq<Node>)
    reads ns
  {
    && head == (if ns == [] then null else ns[0])
    && (forall i {:trigger ns[i].next} :: 0 <= i < |ns| ==> ns[i].next == if i + 1 < |ns| then ns[i + 1] else null)
  }

  /** No two queued events share a buffer, and hence no node is linked twice. */
  ghost predicate SeparateBuffers(ns: seq<Node>) {
    forall i, j :: 0 <= i < j < |ns| ==> ns[i].event.data != ns[j].event.data
  }

  ghost predicate AllLive(ns: seq<Node>, live: set<object>) {
    forall i :: 0 <= i < |ns| ==> ns[i] in live && ns[i].event.data in live
  }

  ghost function Buffers(ns: seq<Node>): set<object> {
    set i | 0 <= i < |ns| :: ns[i].event.data
  }

  /** The list of nodes, seen as values. */
  ghost predicate Shows(ns: seq<Node>, q: seq<Event>)
    reads Buffers(ns)
  {
    |q| == |ns| && forall i :: 0 <= i < |ns| ==> q[i] == View(ns[i].event)
  }

  /** The blocks the list owns: its nodes and their buffers. */
  ghost function Owned(ns: seq<Node>): set<object> {
    (set i | 0 <= i < |ns| :: ns[i]) + Buffers(ns)
  }

  /** Dropping one node gives up exactly its two blocks. */
  lemma OwnedWithout(ns: seq<Node>, i: nat)
    requires i < |ns| && SeparateBuffers(ns)
    ensures Owned(Without(ns, i)) == Owned(ns) - {ns[i], ns[i].event.data}
    ensures ns[i] in Owned(ns) && ns[i].event.data in Owned(ns)
  {
    var rest := Without(ns, i);
    forall o | o in Owned(ns) - {ns[i], ns[i].event.data} ensures o in Owned(rest) {
      var k :| 0 <= k < |ns| && (o == ns[k] || o == ns[k].event.data);
      assert ns[k] == rest[if k < i then k else k - 1];
    }
    forall o | o in Owned(rest) ensures o in Owned(ns) - {ns[i], ns[i].event.data} {
      var k :| 0 <= k < |rest| && (o == rest[k] || o == rest[k].event.data);
      assert rest[k] == ns[if k < i then k else k + 1];
    }
  }

  lemma OwnedAppend(ns: seq<Node>, n: Node)
    ensures Owned(ns + [n]) == Owned(ns) + {n, n.event.data}
  {
    var all := ns + [n];
    forall o | o in Owned(ns) + {n, n.event.data} ensures o in Owned(all) {
      if o in Owned(ns) {
        var k :| 0 <= k < |ns| && (o == ns[k] || o == ns[k].event.data);
        assert all[k] == ns[k];
      } else {
        assert all[|ns|] == n;
      }
    }
    forall o | o in Owned(all) ensures o in Owned(ns) + {n, n.event.data} {
      var k :| 0 <= k < |all| && (o == all[k] || o == all[k].event.data);
    }
  }

  lemma DropKeeps(ns: seq<Node>, i: nat, live: set<object>)
    requires i < |ns| && SeparateBuffers(ns) && AllLive(ns, live)
    ensures var r := Without(ns, i);
            && SeparateBuffers(r) && AllLive(r, live)
            && (forall k :: 0 <= k < |r| ==> r[k] != ns[i] && r[k].event.data != ns[i].event.data)
  {
    var r := Without(ns, i);
    assert forall k :: 0 <= k < |r| ==> r[k] == if k < i then ns[k] else ns[k + 1];
  }

  lemma DropShows(ns: seq<Node>, q: seq<Event>, i: nat)
    requires i < |ns| && Shows(ns, q)
    ensures Shows(Without(ns, i), Without(q, i))
  {
    var r, s := Without(ns, i), Without(q, i);
    forall k | 0 <= k < |r| ensures s[k] == View(r[k].event) {
      var l := if k < i then k else k + 1;
      assert r[k] == ns[l] && s[k] == q[l];
    }
  }

  lemma AppendKeeps(ns: seq<Node>, n: Node, live: set<object>)
    requires SeparateBuffers(ns) && AllLive(ns, live)
    requires n !in ns && n in live && n.event.data in live && forall i :: 0 <= i < |ns| ==> ns[i].event.data != n.event.data
    ensures var r := ns + [n];
            && SeparateBuffers(r) && AllLive(r, live)
  {
  }

  class Scheduler {
    const heap: Heap
    var head: Node?
    var cb: nat
    var cbLink: Link
    ghost var nodes: seq<Node>
    ghost var contents: seq<Event>
    ghost var spine: set<Node>  // every node ever linked: what the methods may modify

    ghost predicate Valid()
      reads this, heap, nodes, Buffers(nodes)
    {
      && (forall i :: 0 <= i < |nodes| ==> nodes[i] in spine)
      && Linked(head, nodes)
      && SeparateBuffers(nodes)
      && AllLive(nodes, heap.live)
      && Shows(nodes, contents)
    }

    /** The live blocks that are not the list's. */
    ghost function Foreign(): set<object>
      reads this, heap
    {
      heap.live - Owned(nodes)
    }

    constructor (heap: Heap)
      ensures this.heap == heap && Valid() && nodes == [] && contents == [] && spine == {} && cb == 0
    {
      this.heap := heap;
      head := null;
      cb := 0;
      cbLink := Link(0, 0);
      nodes, contents, spine := [], [], {};
    }

    /** scheduler_push: walk to the tail and append; the buffer's ownership passes to the list. */
    method Push(e: SchedEvent)
      requires Valid() && e.data in heap.live
      requires forall i :: 0 <= i < |nodes| ==> nodes[i].event.data != e.data
      modifies this`head, this`nodes, this`contents, this`spine, spine, heap
      ensures Valid()
      ensures contents == old(contents) + [old(View(e))]
      ensures Foreign() == old(Foreign()) - {e.data}
      ensures fresh(spine - old(spine))
    {
      var n := new Node(e);
      OwnedAppend(nodes, n);
      heap.Allocated(n);
      Append(n);
    }

    /** Link a new node behind the last one, or as the head of an empty list. */
    method Append(n: Node)
      requires Valid() && n.next == null && n !in nodes && n in heap.live && n.event.data in heap.live
      requires forall i :: 0 <= i < |nodes| ==> nodes[i].event.data != n.event.data
      modifies this`head, this`nodes, this`contents, this`spine, spine
      ensures Valid() && nodes == old(nodes) + [n] && spine == old(spine) + {n}
      ensures contents == old(contents) + [View(n.event)]
    {
      AppendKeeps(nodes, n, heap.live);
      if head == null {
        head := n;
      } else {
        var last := Last();
        last.next := n;
      }
      ghost var ns := nodes + [n];
      forall k | 0 <= k < |ns| ensures ns[k].next == if k + 1 < |ns| then ns[k + 1] else null {
        if k < |nodes| - 1 {
          assert ns[k] == nodes[k] && ns[k + 1] == nodes[k + 1];
          assert nodes[k].event.data != nodes[|nodes| - 1].event.data;
        }
      }
      nodes := ns;
      contents := contents + [View(n.event)];
      spine := spine + {n};
    }

    /** The walk to the tail. */
    method Last() returns (last: Node)
      requires Valid() && head != null
      ensures nodes != [] && last == nodes[|nodes| - 1]
    {
      last := head;
      ghost var i := 0;
      while last.next != null
        invariant 0 <= i < |nodes| && last == nodes[i]
        decreases |nodes| - i
      {
        last := last.next;
        i := i + 1;
      }
    }

    /** `*prev = cur->next`: at the head or behind `prev`. */
    method Relink(prev: Node?, cur: Node, ghost i: nat)
      requires Valid() && i < |nodes| && cur == nodes[i]
      requires prev == if i == 0 then null else nodes[i - 1]
      modifies this`head, spine
      ensures Linked(head, Without(nodes, i))
    {
      if prev == null {
        head := cur.next;
      } else {
        prev.next := cur.next;
      }
      ghost var ns := Without(nodes, i);
      forall k | 0 <= k < |ns| ensures ns[k].next == if k + 1 < |ns| then ns[k + 1] else null {
        if k < i - 1 {
          assert ns[k] == nodes[k] && ns[k + 1] == nodes[k + 1];
          assert nodes[k].event.data != nodes[i - 1].event.data;
        } else if k >= i {
          assert ns[k] == nodes[k + 1];
          assert i > 0 ==> nodes[k + 1].event.data != nodes[i - 1].event.data;
        }
      }
    }

    /** Take the node at position `i` out of the chain. */
    method Unlink(prev: Node?, cur: Node, ghost i: nat)
      requires Valid() && i < |nodes| && cur == nodes[i]
      requires prev == if i == 0 then null else nodes[i - 1]
      modifies this`head, this`nodes, this`contents, spine
      ensures Valid()
      ensures nodes == Without(old(nodes), i)
      ensures contents == Without(old(contents), i)
      ensures forall k :: 0 <= k < |nodes| ==> nodes[k] != cur && nodes[k].event.data != cur.event.data
    {
      DropKeeps(nodes, i, heap.live);
      Relink(prev, cur, i);
      DropShows(nodes, contents, i);
      nodes := Without(nodes, i);
      contents := Without(contents, i);
    }

    /** Unlink a node and free it together with its buffer. */
    method Discard(prev: Node?, cur: Node, ghost i: nat)
      requires Valid() && i < |nodes| && cur == nodes[i]
      requires prev == if i == 0 then null else nodes[i - 1]
      modifies this`head, this`nodes, this`contents, spine, heap
      ensures Valid()
      ensures nodes == Without(old(nodes), i)
      ensures contents == Without(old(contents), i)
      ensures Foreign() == old(Foreign())
      ensures i > 0 ==> nodes[i - 1] == old(nodes)[i - 1]
      ensures old(cur.next) == if i < |nodes| then nodes[i] else null
    {
      OwnedWithout(nodes, i);
      Unlink(prev, cur, i);
      heap.Free(cur.event.data);
      heap.Free(cur);
    }

    /** The walk to the first event of the link that is due, with the node before it. */
    method FindReady(link: Link, now: U64) returns (prev: Node?, cur: Node?, ghost i: nat)
      requires Valid()
      ensures i == FirstReady(contents, link, now, 0)
      ensures cur == (if i < |nodes| then nodes[i] else null)
      ensures prev == if i == 0 then null else nodes[i - 1]
    {
      prev, cur := null, head;
      i := 0;
      while cur != null
        invariant 0 <= i <= |nodes| && cur == (if i < |nodes| then nodes[i] else null)
        invariant prev == if i == 0 then null else nodes[i - 1]
        invariant FirstReady(contents, link, now, 0) == FirstReady(contents, link, now, i)
        decreases |nodes| - i
      {
        if cur.event.link == link && cur.event.due <= now {
          return;
        }
        prev, cur := cur, cur.next;
        i := i + 1;
      }
    }

    /** Copy the event out, unlink its node and free the node; the buffer passes to the caller. */
    method Detach(prev: Node?, cur: Node, ghost i: nat) returns (event: SchedEvent)
      requires Valid() && i < |nodes| && cur == nodes[i]
      requires prev == if i == 0 then null else nodes[i - 1]
      modifies this`head, this`nodes, this`contents, spine, heap
      ensures Valid()
      ensures View(event) == old(contents)[i] && contents == Without(old(contents), i)
      ensures event.data !in old(Foreign()) && Foreign() == old(Foreign()) + {event.data}
    {
      event := cur.event;
      OwnedWithout(nodes, i);
      Unlink(prev, cur, i);
      heap.Free(cur);
    }

    /** scheduler_pop_due: detach the first event of the link that is due; its buffer passes to the caller. */
    method PopDue(link: Link, now: U64) returns (out: Option<SchedEvent>)
      requires Valid()
      modifies this`head, this`nodes, this`contents, spine, heap
      ensures Valid()
      ensures (if out.Some? then Some(View(out.value)) else None, contents) == Pop(old(contents), link, now)
      ensures out.Some? ==> out.value.data !in old(Foreign()) && Foreign() == old(Foreign()) + {out.value.data}
      ensures out.None? ==> Foreign() == old(Foreign())
    {
      var prev, cur, i := FindReady(link, now);
      if cur == null {
        return None;
      }
      var event := Detach(prev, cur, i);
      return Some(event);
    }

    /** One round of cancelling: free the event if it is the primitive's, or step over it. */
    method CancelNext(hCop: U32, prev: Node?, cur: Node, ghost i: nat) returns (prev': Node?, cur': Node?, ghost i': nat)
      requires Valid() && i < |nodes| && cur == nodes[i]
      requires prev == if i == 0 then null else nodes[i - 1]
      modifies this`head, this`nodes, this`contents, spine, heap
      ensures Valid() && Foreign() == old(Foreign())
      ensures i' <= |nodes| && cur' == (if i' < |nodes| then nodes[i'] else null)
      ensures prev' == if i' == 0 then null else nodes[i' - 1]
      ensures FilterFrom(KeepsCop(hCop), contents, i') == old(FilterFrom(KeepsCop(hCop), contents, i))
      ensures |nodes| - i' == old(|nodes|) - i - 1
    {
      FilterFromStep(KeepsCop(hCop), contents, i);
      if cur.event.hCop == hCop {
        cur' := cur.next;
        Discard(prev, cur, i);
        prev', i' := prev, i;
      } else {
        prev', cur', i' := cur, cur.next, i + 1;
      }
    }

    /** scheduler_cancel_cop: unlink and free every event of the primitive, its buffer first, then its node. */
    method CancelCop(hCop: U32)
      requires Valid()
      modifies this`head, this`nodes, this`contents, spine, heap
      ensures Valid()
      ensures contents == Cancel(old(contents), hCop)
      ensures Foreign() == old(Foreign())
    {
      FilterFromEnds(KeepsCop(hCop), contents);
      var prev: Node? := null;
      var cur := head;
      ghost var i := 0;
      while cur != null
        invariant Valid()
        invariant 0 <= i <= |nodes| && cur == (if i < |nodes| then nodes[i] else null)
        invariant prev == if i == 0 then null else nodes[i - 1]
        invariant FilterFrom(KeepsCop(hCop), contents, i) == Cancel(old(contents), hCop)
        invariant Foreign() == old(Foreign())
        decreases |nodes| - i
      {
        prev, cur, i := CancelNext(hCop, prev, cur, i);
      }
      FilterFromEnds(KeepsCop(hCop), contents);
    }

    /** A caller frees a block that is not the list's. */
    method FreeForeign(o: object)
      requires Valid() && o in Foreign()
      modifies heap
      ensures Valid() && Foreign() == old(Foreign()) - {o}
    {
      heap.Free(o);
    }

    /** scheduler_free, the delivery thread already stopped: every queued node and buffer is freed. */
    method FreeAll()
      requires Valid()
      modifies this`head, this`nodes, this`contents, spine, heap
      ensures Valid() && contents == [] && nodes == []
      ensures heap.live == old(Foreign())
    {
      while head != null
        invariant Valid()
        invariant Foreign() == old(Foreign())
        decreases |nodes|
      {
        Discard(null, head, 0);
      }
    }

    /** The delivery thread's scan for a due event of the registered link. */
    method PeekDue(link: Link, now: U64) returns (hasDue: bool)
      requires Valid()
      ensures hasDue <==> HasReady(contents, link, now)
    {
      var _, cur, i := FindReady(link, now);
      hasDue := cur != null;
      assert hasDue ==> Ready(contents[i], link, now);
    }

    /** One round of delivery_thread_proc that no other thread comes between: what is called back, if anything. */
    method DeliveryRound(now: U64) returns (fired: Option<(nat, Link)>)
      requires Valid()
      ensures fired == if cb != 0 && exists i :: 0 <= i < |contents| && contents[i].link == cbLink && contents[i].due <= now
                       then Some((cb, cbLink)) else None
    {
      if cb == 0 {
        return None;
      }
      var hasDue := PeekDue(cbLink, now);
      assert forall i :: 0 <= i < |contents| ==>
               (Ready(contents[i], cbLink, now) <==> contents[i].link == cbLink && contents[i].due <= now);
      fired := if hasDue then Some((cb, cbLink)) else None;
    }

    /** scheduler_set_callback: one slot for all links, written in one critical section. */
    method SetCallback(link: Link, cb: nat)
      requires Valid()
      modifies this`cb, this`cbLink
      ensures Valid() && this.cb == cb && cbLink == link
    {
      this.cb := cb;
      cbLink := link;
    }
  }
}
