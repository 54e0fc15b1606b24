/** The scheduler's list as a value: events in insertion order, and what each operation does to them. */
module EventQueue {
  import opened Bytes
  import opened Seqs

  datatype Link = Link(hMod: U32, hCLL: U32)

  datatype Event = Event(due: U64, link: Link, hCop: U32, tag: int, itemType: U32, payload: seq<Byte>)

  predicate Ready(e: Event, link: Link, now: U64) {
    e.link == link && e.due <= now
  }

  /** The least position from `i` on holding an event of `link` that is due, |q| if there is none. */
  function FirstReady(q: seq<Event>, link: Link, now: U64, i: nat): (r: nat)
    requires i <= |q|
    ensures i <= r <= |q|
    ensures forall j :: i <= j < r ==> !Ready(q[j], link, now)
    ensures r < |q| ==> Ready(q[r], link, now)
    decreases |q| - i
  {
    if i == |q| || Ready(q[i], link, now) then i else FirstReady(q, link, now, i + 1)
  }

  /** scheduler_pop_due: the first ready event, and the list without it. */
  function Pop(q: seq<Event>, link: Link, now: U64): (Option<Event>, seq<Event>) {
    var i := FirstReady(q, link, now, 0);
    if i < |q| then (Some(q[i]), Without(q, i)) else (None, q)
  }

  function KeepsCop(hCop: U32): Event -> bool {
    (e: Event) => e.hCop != hCop
  }

  /** scheduler_cancel_cop: every event of the primitive goes, the others keep their order. */
  function Cancel(q: seq<Event>, hCop: U32): seq<Event> {
    Filter(KeepsCop(hCop), q)
  }

  predicate HasReady(q: seq<Event>, link: Link, now: U64) {
    exists i :: 0 <= i < |q| && Ready(q[i], link, now)
  }

  /** A poll comes back empty exactly when no event of the link is due. */
  lemma PopEmptyIff(q: seq<Event>, link: Link, now: U64)
    ensures Pop(q, link, now).0.None? <==> !HasReady(q, link, now)
  {
  }
}
