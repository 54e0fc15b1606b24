/** The one shared list behaves as an ordered list per link, and links do not disturb each other. */
module LinkRefinement {
  import opened Bytes
  import opened Seqs
  import opened EventQueue

  /** The scheduler's operations. */
  datatype Op = Push(event: Event) | PopOp(link: Link, now: U64) | CancelOp(hCop: U32)

  datatype Result = Popped(event: Option<Event>) | Done

  // ---- the shared list ----------------------------------------------------------------------

  function Apply(q: seq<Event>, op: Op): (seq<Event>, Result) {
    match op
    case Push(e) => (q + [e], Done)
    case PopOp(link, now) => var (e, rest) := Pop(q, link, now); (rest, Popped(e))
    case CancelOp(hCop) => (Cancel(q, hCop), Done)
  }

  /** The queue the operations leave. */
  function QueueAfter(q: seq<Event>, ops: seq<Op>): seq<Event>
    decreases |ops|
  {
    if ops == [] then q else QueueAfter(Apply(q, ops[0]).0, ops[1..])
  }

  function Results(q: seq<Event>, ops: seq<Op>): seq<Result>
    decreases |ops|
  {
    if ops == [] then []
    else
      var (q', r) := Apply(q, ops[0]);
      [r] + Results(q', ops[1..])
  }

  // ---- a list per link ------------------------------------------------------------------------

  type Lists = map<Link, seq<Event>>

  function ListOf(m: Lists, link: Link): seq<Event> {
    if link in m then m[link] else []
  }

  function FirstDue(s: seq<Event>, now: U64, i: nat): (r: nat)
    requires i <= |s|
    ensures i <= r <= |s|
    ensures forall j :: i <= j < r ==> s[j].due > now
    ensures r < |s| ==> s[r].due <= now
    decreases |s| - i
  {
    if i == |s| || s[i].due <= now then i else FirstDue(s, now, i + 1)
  }

  /** The first due event of one link's own list. */
  function PopDue(s: seq<Event>, now: U64): (Option<Event>, seq<Event>) {
    var i := FirstDue(s, now, 0);
    if i < |s| then (Some(s[i]), Without(s, i)) else (None, s)
  }

  function ApplyPerLink(m: Lists, op: Op): (Lists, Result) {
    match op
    case Push(e) => (m[e.link := ListOf(m, e.link) + [e]], Done)
    case PopOp(link, now) => var (e, rest) := PopDue(ListOf(m, link), now); (m[link := rest], Popped(e))
    case CancelOp(hCop) => (map link | link in m :: Cancel(m[link], hCop), Done)
  }

  function ResultsPerLink(m: Lists, ops: seq<Op>): seq<Result>
    decreases |ops|
  {
    if ops == [] then []
    else
      var (m', r) := ApplyPerLink(m, ops[0]);
      [r] + ResultsPerLink(m', ops[1..])
  }

  // ---- projection -------------------------------------------------------------------------------

  function OnLink(link: Link): Event -> bool {
    (e: Event) => e.link == link
  }

  function Project(q: seq<Event>, link: Link): seq<Event> {
    Filter(OnLink(link), q)
  }

  lemma ProjectAppend(a: seq<Event>, b: seq<Event>, link: Link)
    ensures Project(a + b, link) == Project(a, link) + Project(b, link)
  {
    FilterAppend(OnLink(link), a, b);
  }

  lemma ProjectMember(q: seq<Event>, link: Link, e: Event)
    ensures e in Project(q, link) <==> e in q && e.link == link
  {
    FilterMember(OnLink(link), q, e);
  }

  lemma PopDueAt(s: seq<Event>, now: U64, i: nat)
    requires i < |s| && s[i].due <= now && forall j :: 0 <= j < i ==> s[j].due > now
    ensures PopDue(s, now) == (Some(s[i]), Without(s, i))
  {
  }

  lemma PopDueNone(s: seq<Event>, now: U64)
    requires forall e :: e in s ==> e.due > now
    ensures PopDue(s, now) == (None, s)
  {
  }

  /** Pop commutes with projection onto the polled link, and is invisible on every other. */
  lemma PopProjects(q: seq<Event>, link: Link, now: U64, other: Link)
    ensures var (e, rest) := Pop(q, link, now);
            && (e, Project(rest, link)) == PopDue(Project(q, link), now)
            && (other != link ==> Project(rest, other) == Project(q, other))
  {
    var i := FirstReady(q, link, now, 0);
    if i < |q| {
      AroundAt(q, i);
      FilterAround(OnLink(link), q[..i], q[i], q[i + 1..]);
      AroundAt(q, i);
      FilterAround(OnLink(other), q[..i], q[i], q[i + 1..]);
      var s, m := Project(q, link), |Project(q[..i], link)|;
      forall j | 0 <= j < m ensures s[j].due > now {
        ProjectMember(q[..i], link, s[j]);
      }
      assert s[m] == q[i];
      PopDueAt(s, now, m);
      assert Without(s, m) == Project(q[..i], link) + Project(q[i + 1..], link);
    } else {
      forall e | e in Project(q, link) ensures e.due > now {
        ProjectMember(q, link, e);
      }
      PopDueNone(Project(q, link), now);
    }
  }

  lemma CancelProjects(q: seq<Event>, hCop: U32, link: Link)
    ensures Project(Cancel(q, hCop), link) == Cancel(Project(q, link), hCop)
  {
    FilterCommutes(OnLink(link), KeepsCop(hCop), q);
  }

  lemma PushProjects(q: seq<Event>, e: Event, link: Link)
    ensures Project(q + [e], link) == Project(q, link) + (if e.link == link then [e] else [])
  {
    ProjectAppend(q, [e], link);
    FilterOne(OnLink(link), e);
  }

  // ---- refinement ---------------------------------------------------------------------------------

  ghost predicate Refines(q: seq<Event>, m: Lists) {
    forall link :: Project(q, link) == ListOf(m, link)
  }

  lemma StepRefines(q: seq<Event>, m: Lists, op: Op)
    requires Refines(q, m)
    ensures Apply(q, op).1 == ApplyPerLink(m, op).1
    ensures Refines(Apply(q, op).0, ApplyPerLink(m, op).0)
  {
    var q', m' := Apply(q, op).0, ApplyPerLink(m, op).0;
    match op
    case Push(e) =>
      forall link ensures Project(q', link) == ListOf(m', link) {
        PushProjects(q, e, link);
        assert Project(q, link) == ListOf(m, link);
      }
    case PopOp(polled, now) =>
      assert Project(q, polled) == ListOf(m, polled);
      PopProjects(q, polled, now, polled);
      forall link ensures Project(q', link) == ListOf(m', link) {
        PopProjects(q, polled, now, link);
        assert Project(q, link) == ListOf(m, link);
      }
    case CancelOp(hCop) =>
      forall link ensures Project(q', link) == ListOf(m', link) {
        CancelProjects(q, hCop, link);
        assert Project(q, link) == ListOf(m, link);
      }
  }

  /** For every sequence of operations the shared list answers exactly as the per-link lists do. */
  lemma {:induction false} SharedRefinesPerLink(q: seq<Event>, m: Lists, ops: seq<Op>)
    requires Refines(q, m)
    ensures Results(q, ops) == ResultsPerLink(m, ops)
    decreases |ops|
  {
    if ops != [] {
      StepRefines(q, m, ops[0]);
      SharedRefinesPerLink(Apply(q, ops[0]).0, ApplyPerLink(m, ops[0]).0, ops[1..]);
    }
  }

  // ---- noninterference -------------------------------------------------------------------------------

  /** What the polls of one link returned, in order. */
  function PollsOf(q: seq<Event>, ops: seq<Op>, link: Link): seq<Option<Event>>
    decreases |ops|
  {
    if ops == [] then []
    else
      var (q', r) := Apply(q, ops[0]);
      var rest := PollsOf(q', ops[1..], link);
      if ops[0].PopOp? && ops[0].link == link then [r.event] + rest else rest
  }

  /** The link's own operations: its pushes, its polls, and the cancels of the handles it uses. */
  predicate IsOwn(op: Op, link: Link, handles: set<U32>) {
    match op
    case Push(e) => e.link == link
    case PopOp(l, _) => l == link
    case CancelOp(hCop) => hCop in handles
  }

  function Own(ops: seq<Op>, link: Link, handles: set<U32>): seq<Op> {
    if ops == [] then []
    else if IsOwn(ops[0], link, handles) then [ops[0]] + Own(ops[1..], link, handles)
    else Own(ops[1..], link, handles)
  }

  /** All events of the link, queued or to be pushed, bear handles of the given set. */
  ghost predicate UsesOnly(q: seq<Event>, ops: seq<Op>, link: Link, handles: set<U32>) {
    && (forall e :: e in q && e.link == link ==> e.hCop in handles)
    && (forall i :: 0 <= i < |ops| && ops[i].Push? && ops[i].event.link == link ==> ops[i].event.hCop in handles)
  }

  /** An operation of others leaves the link's list as it is. */
  lemma OthersInvisible(q: seq<Event>, op: Op, link: Link, handles: set<U32>)
    requires !IsOwn(op, link, handles)
    requires forall e :: e in q && e.link == link ==> e.hCop in handles
    ensures Project(Apply(q, op).0, link) == Project(q, link)
  {
    match op
    case Push(e) => PushProjects(q, e, link);
    case PopOp(l, now) => PopProjects(q, l, now, link);
    case CancelOp(hCop) =>
      CancelProjects(q, hCop, link);
      forall e | e in Project(q, link) ensures e.hCop != hCop {
        ProjectMember(q, link, e);
      }
      FilterAll(KeepsCop(hCop), Project(q, link));
  }

  /** An own operation does the same to the shared list and to the link's part of it. */
  lemma OwnStep(q: seq<Event>, s: seq<Event>, op: Op, link: Link, handles: set<U32>)
    requires IsOwn(op, link, handles) && Project(q, link) == Project(s, link)
    ensures Project(Apply(q, op).0, link) == Project(Apply(s, op).0, link)
    ensures op.PopOp? ==> Apply(q, op).1 == Apply(s, op).1
  {
    match op
    case Push(e) =>
      PushProjects(q, e, link);
      PushProjects(s, e, link);
    case PopOp(_, now) =>
      PopProjects(q, link, now, link);
      PopProjects(s, link, now, link);
    case CancelOp(hCop) =>
      CancelProjects(q, hCop, link);
      CancelProjects(s, hCop, link);
  }

  lemma StepUsesOnly(q: seq<Event>, ops: seq<Op>, link: Link, handles: set<U32>)
    requires ops != [] && UsesOnly(q, ops, link, handles)
    ensures UsesOnly(Apply(q, ops[0]).0, ops[1..], link, handles)
  {
    var q' := Apply(q, ops[0]).0;
    forall e | e in q' && e.link == link ensures e.hCop in handles {
      match ops[0]
      case Push(_) =>
      case PopOp(_, _) =>
      case CancelOp(hCop) => FilterMember(KeepsCop(hCop), q, e);
    }
  }

  /** What a link's polls return depends only on its own operations: dropping everything else changes nothing. */
  lemma {:induction false} Noninterference(q: seq<Event>, s: seq<Event>, ops: seq<Op>, link: Link, handles: set<U32>)
    requires UsesOnly(q, ops, link, handles)
    requires Project(q, link) == Project(s, link)
    ensures PollsOf(q, ops, link) == PollsOf(s, Own(ops, link, handles), link)
    decreases |ops|
  {
    if ops != [] {
      var op := ops[0];
      var q' := Apply(q, op).0;
      StepUsesOnly(q, ops, link, handles);
      if IsOwn(op, link, handles) {
        OwnStep(q, s, op, link, handles);
        var own := Own(ops, link, handles);
        assert own[0] == op && own[1..] == Own(ops[1..], link, handles);
        Noninterference(q', Apply(s, op).0, ops[1..], link, handles);
      } else {
        OthersInvisible(q, op, link, handles);
        Noninterference(q', s, ops[1..], link, handles);
      }
    }
  }

  /** The handles of the pushes onto one link. */
  ghost function HandlesOf(ops: seq<Op>, link: Link): set<U32> {
    set i | 0 <= i < |ops| && ops[i].Push? && ops[i].event.link == link :: ops[i].event.hCop
  }

  /** Starting empty: two sequences of operations that agree on a link's pushes, polls and cancels of its handles
      give that link the same answers. */
  lemma SameOwnSameAnswers(a: seq<Op>, b: seq<Op>, link: Link)
    requires HandlesOf(a, link) == HandlesOf(b, link)
    requires Own(a, link, HandlesOf(a, link)) == Own(b, link, HandlesOf(b, link))
    ensures PollsOf([], a, link) == PollsOf([], b, link)
  {
    Noninterference([], [], a, link, HandlesOf(a, link));
    Noninterference([], [], b, link, HandlesOf(b, link));
  }
}
