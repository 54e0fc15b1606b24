/** Links stay apart on the level of API calls: without the calls of all other links a link gets the same answers,
    except that handles are counted afresh. */
module LinkAlone {
  import opened Bytes
  import opened Seqs
  import opened EventQueue
  import opened Recording
  import opened Replay
  import opened RunProperties
  import opened LinkRefinement
  import opened EngineLinks

  // ---- handles by counting starts ------------------------------------------------------------------

  predicate IsOwnStart(c: Timed, link: Link) {
    c.call.Start? && c.call.link == link
  }

  /** How many of the first `n` calls are starts on the link. */
  function OwnStarts(calls: seq<Timed>, n: nat, link: Link): (k: nat)
    requires n <= |calls|
    ensures k <= Starts(calls, n)
  {
    if n == 0 then 0 else OwnStarts(calls, n - 1, link) + (if IsOwnStart(calls[n - 1], link) then 1 else 0)
  }

  /** The handle of a start with `k` starts before it. */
  function HandleAfter(k: nat): U32 {
    (FIRST_COP + k + 1) % TWO32
  }

  /** The first start from call `i` on that is given the handle, |calls| if none is. */
  function StartWith(calls: seq<Timed>, h: U32, i: nat): (r: nat)
    requires i <= |calls|
    ensures i <= r <= |calls|
    ensures r < |calls| ==> calls[r].call.Start? && HandleAfter(Starts(calls, r)) == h
    ensures forall j :: i <= j < r && calls[j].call.Start? ==> HandleAfter(Starts(calls, j)) != h
    decreases |calls| - i
  {
    if i == |calls| || (calls[i].call.Start? && HandleAfter(Starts(calls, i)) == h) then i
    else StartWith(calls, h, i + 1)
  }

  lemma CountsDistinct(a: nat, b: nat)
    requires a < b < TWO32
    ensures HandleAfter(a) != HandleAfter(b)
  {
    SameResidue(FIRST_COP + a + 1, FIRST_COP + b + 1);
    NoMultiple(b - a);
  }

  /** With fewer than 2^32 starts a start is found by its handle. */
  lemma FoundByHandle(calls: seq<Timed>, i: nat)
    requires i < |calls| && calls[i].call.Start? && Starts(calls, |calls|) < TWO32
    ensures StartWith(calls, HandleAfter(Starts(calls, i)), 0) == i
  {
    var r := StartWith(calls, HandleAfter(Starts(calls, i)), 0);
    if r < i {
      StartsGrow(calls, r, i);
      CountsDistinct(Starts(calls, r), Starts(calls, i));
    }
  }

  lemma {:induction false} OwnStartsMonotone(calls: seq<Timed>, m: nat, n: nat, link: Link)
    requires m <= n <= |calls|
    ensures OwnStarts(calls, m, link) <= OwnStarts(calls, n, link)
    decreases n
  {
    if m < n {
      OwnStartsMonotone(calls, m, n - 1, link);
    }
  }

  // ---- the link's calls ------------------------------------------------------------------------------

  /** The handle is that of one of the link's starts among the first `n` calls. */
  predicate OwnHandle(calls: seq<Timed>, n: nat, link: Link, h: U32) {
    var i := StartWith(calls, h, 0);
    i < n && i < |calls| && IsOwnStart(calls[i], link)
  }

  /** What a handle becomes when only the link's own starts are counted. */
  function Renamed(calls: seq<Timed>, link: Link, h: U32): U32 {
    var i := StartWith(calls, h, 0);
    if i < |calls| then HandleAfter(OwnStarts(calls, i, link)) else h
  }

  /** Call `k` as the link's own, its handle renamed; nothing if it is another link's. */
  function CallFor(calls: seq<Timed>, k: nat, link: Link): seq<Timed>
    requires k < |calls|
  {
    match calls[k].call
    case Start(l, _, _, _) => if l == link then [calls[k]] else []
    case Poll(l) => if l == link then [calls[k]] else []
    case Cancel(h) =>
      if OwnHandle(calls, k, link, h) then [Timed(calls[k].tick, Call.Cancel(Renamed(calls, link, h)))] else []
  }

  /** The link's starts and polls, and the cancels of handles its starts were given before. */
  function OwnCalls(calls: seq<Timed>, n: nat, link: Link): seq<Timed>
    requires n <= |calls|
  {
    if n == 0 then [] else OwnCalls(calls, n - 1, link) + CallFor(calls, n - 1, link)
  }

  /** Two of the link's handles stay different. */
  lemma RenamedDistinct(calls: seq<Timed>, link: Link, g: U32, h: U32)
    requires Starts(calls, |calls|) < TWO32
    requires OwnHandle(calls, |calls|, link, g) && OwnHandle(calls, |calls|, link, h)
    ensures Renamed(calls, link, g) == Renamed(calls, link, h) <==> g == h
  {
    var i, j := StartWith(calls, g, 0), StartWith(calls, h, 0);
    if i < j {
      OwnCountsDistinct(calls, link, i, j);
    } else if j < i {
      OwnCountsDistinct(calls, link, j, i);
    }
  }

  lemma OwnCountsDistinct(calls: seq<Timed>, link: Link, i: nat, j: nat)
    requires i < j < |calls| && IsOwnStart(calls[i], link) && Starts(calls, |calls|) < TWO32
    ensures HandleAfter(OwnStarts(calls, i, link)) != HandleAfter(OwnStarts(calls, j, link))
  {
    OwnStartsMonotone(calls, i + 1, j, link);
    assert OwnStarts(calls, i + 1, link) == OwnStarts(calls, i, link) + 1;
    StartsMonotone(calls, j, |calls|);
    CountsDistinct(OwnStarts(calls, i, link), OwnStarts(calls, j, link));
  }

  // ---- appending a call to a run -------------------------------------------------------------------------

  lemma {:induction false} BooksPrefix(tape: seq<Recorded>, a: seq<Timed>, b: seq<Timed>, n: nat)
    requires n <= |a|
    ensures Books(tape, a + b, n) == Books(tape, a, n)
  {
    if n > 0 {
      BooksPrefix(tape, a, b, n - 1);
      assert (a + b)[n - 1] == a[n - 1];
    }
  }

  lemma {:induction false} StartsPrefix(a: seq<Timed>, b: seq<Timed>, n: nat)
    requires n <= |a|
    ensures Starts(a + b, n) == Starts(a, n)
  {
    if n > 0 {
      StartsPrefix(a, b, n - 1);
      assert (a + b)[n - 1] == a[n - 1];
    }
  }

  lemma AnswerPrefix(tape: seq<Recorded>, a: seq<Timed>, b: seq<Timed>, i: nat, link: Link)
    requires i < |a|
    ensures AnswerAt(tape, a + b, i, link) == AnswerAt(tape, a, i, link)
  {
    BooksPrefix(tape, a, b, i);
    assert (a + b)[i] == a[i];
  }

  lemma {:induction false} AnswersPrefix(tape: seq<Recorded>, a: seq<Timed>, b: seq<Timed>, n: nat, link: Link)
    requires n <= |a|
    ensures Answers(tape, a + b, n, link) == Answers(tape, a, n, link)
  {
    if n > 0 {
      AnswersPrefix(tape, a, b, n - 1, link);
      AnswerPrefix(tape, a, b, n - 1, link);
    }
  }

  function StateOf(tape: seq<Recorded>, calls: seq<Timed>): State {
    Run(tape, calls, |calls|)
  }

  function AllAnswers(tape: seq<Recorded>, calls: seq<Timed>, link: Link): seq<Option<Event>> {
    Answers(tape, calls, |calls|, link)
  }

  /** What the link hears of one more call. */
  function Heard(tape: seq<Recorded>, s: State, c: Timed, link: Link): seq<Option<Event>> {
    if c.call != Poll(link) then []
    else [match Step(tape, s, c).1 case Delivered(e) => Some(e) case _ => None]
  }

  lemma MoreState(tape: seq<Recorded>, calls: seq<Timed>, c: Timed)
    ensures StateOf(tape, calls + [c]) == Step(tape, StateOf(tape, calls), c).0
  {
    var all, n := calls + [c], |calls|;
    assert all[n] == c;
    BooksPrefix(tape, calls, [c], n);
    RunStep(tape, all, n);
  }

  lemma MoreAnswer(tape: seq<Recorded>, calls: seq<Timed>, c: Timed, link: Link)
    ensures AnswerAt(tape, calls + [c], |calls|, link) == Heard(tape, StateOf(tape, calls), c, link)
  {
    assert (calls + [c])[|calls|] == c;
    BooksPrefix(tape, calls, [c], |calls|);
  }

  lemma MoreAnswers(tape: seq<Recorded>, calls: seq<Timed>, c: Timed, link: Link)
    ensures AllAnswers(tape, calls + [c], link) == AllAnswers(tape, calls, link) + Heard(tape, StateOf(tape, calls), c, link)
  {
    AnswersPrefix(tape, calls, [c], |calls|, link);
    MoreAnswer(tape, calls, c, link);
  }

  lemma MoreStarts(calls: seq<Timed>, c: Timed)
    ensures Starts(calls + [c], |calls| + 1) == Starts(calls, |calls|) + (if c.call.Start? then 1 else 0)
  {
    assert (calls + [c])[|calls|] == c;
    StartsPrefix(calls, [c], |calls|);
  }

  lemma OneStep(tape: seq<Recorded>, calls: seq<Timed>, n: nat, link: Link)
    requires n < |calls|
    ensures Run(tape, calls, n + 1) == Step(tape, Run(tape, calls, n), calls[n]).0
    ensures Answers(tape, calls, n + 1, link) == Answers(tape, calls, n, link) + Heard(tape, Run(tape, calls, n), calls[n], link)
  {
    RunStep(tape, calls, n);
  }

  // ---- renaming handles in a queue -----------------------------------------------------------------------

  function Map<S, T>(f: S -> T, s: seq<S>): (r: seq<T>)
    ensures |r| == |s|
  {
    seq(|s|, i requires 0 <= i < |s| => f(s[i]))
  }

  function MapSome<S, T>(f: S -> T, o: Option<S>): Option<T> {
    match o
    case None => None
    case Some(x) => Some(f(x))
  }

  function MapAnswers(f: Event -> Event, s: seq<Option<Event>>): seq<Option<Event>> {
    Map(o => MapSome(f, o), s)
  }

  /** The event with its handle renamed, everything else as it is. */
  function Rename(calls: seq<Timed>, link: Link): Event -> Event {
    (e: Event) => e.(hCop := Renamed(calls, link, e.hCop))
  }

  lemma MapAppend<S, T>(f: S -> T, a: seq<S>, b: seq<S>)
    ensures Map(f, a + b) == Map(f, a) + Map(f, b)
  {
  }

  lemma MapWithout<S, T>(f: S -> T, s: seq<S>, i: nat)
    requires i < |s|
    ensures Map(f, Without(s, i)) == Without(Map(f, s), i)
  {
  }

  /** Filtering commutes with a map that respects the filters. */
  lemma {:induction false} FilterMap<S, T>(f: S -> T, p: S -> bool, q: T -> bool, s: seq<S>)
    requires forall x :: x in s ==> (p(x) <==> q(f(x)))
    ensures Filter(q, Map(f, s)) == Map(f, Filter(p, s))
  {
    if s != [] {
      FilterMap(f, p, q, s[1..]);
      assert Map(f, s)[1..] == Map(f, s[1..]);
      assert s[0] in s;
      MapAppend(f, [s[0]], Filter(p, s[1..]));
      assert Map(f, [s[0]]) == [f(s[0])];
    }
  }

  ghost predicate OnlyRenames(f: Event -> Event) {
    forall e: Event :: f(e).due == e.due && f(e).link == e.link
  }

  /** A queue of one link is popped at its first due event. */
  lemma PopOnLink(q: seq<Event>, link: Link, now: U64)
    requires forall e :: e in q ==> e.link == link
    ensures Pop(q, link, now) == PopDue(q, now)
  {
    var i, j := FirstReady(q, link, now, 0), FirstDue(q, now, 0);
    assert i < |q| ==> q[i].due <= now;
    assert j < |q| ==> Ready(q[j], link, now);
  }

  lemma PopDueRenamed(f: Event -> Event, s: seq<Event>, now: U64)
    requires OnlyRenames(f)
    ensures var (e, rest) := PopDue(s, now); PopDue(Map(f, s), now) == (MapSome(f, e), Map(f, rest))
  {
    var i, j := FirstDue(s, now, 0), FirstDue(Map(f, s), now, 0);
    assert i < |s| ==> Map(f, s)[i].due <= now;
    assert j < |s| ==> s[j].due <= now;
    if i < |s| {
      MapWithout(f, s, i);
    }
  }

  /** Polling the link's part, renamed, gives the renamed answer and leaves the link's part of the rest, renamed. */
  lemma PollRenamed(f: Event -> Event, q: seq<Event>, link: Link, now: U64)
    requires OnlyRenames(f)
    ensures var (e, rest) := Pop(q, link, now);
            Pop(Map(f, Project(q, link)), link, now) == (MapSome(f, e), Map(f, Project(rest, link)))
  {
    var own := Project(q, link);
    forall e | e in Map(f, own) ensures e.link == link {
      var k :| 0 <= k < |own| && Map(f, own)[k] == e;
      ProjectMember(q, link, own[k]);
    }
    PopProjects(q, link, now, link);
    PopOnLink(Map(f, own), link, now);
    PopDueRenamed(f, own, now);
  }

  /** The events of a start under another handle. */
  lemma ScheduledRenamed(f: Event -> Event, tape: seq<Recorded>, tick: U64, link: Link, copType: U32, data: Option<seq<Byte>>,
                         tag: int, h: U32, h': U32)
    requires forall e: Event :: e.hCop == h ==> f(e) == e.(hCop := h')
    ensures Map(f, Scheduled(tape, tick, link, copType, data, tag, h)) == Scheduled(tape, tick, link, copType, data, tag, h')
  {
  }

  // ---- the two runs side by side -----------------------------------------------------------------------------

  /** The queue and the answers of the whole run, seen by the link, are those of its own calls, handles renamed; all
      its queued events bear handles of its first starts. */
  ghost predicate Beside(tape: seq<Recorded>, calls: seq<Timed>, n: nat, link: Link, own: seq<Timed>, queue: seq<Event>,
                         said: seq<Option<Event>>)
    requires n <= |calls|
  {
    && StateOf(tape, own).queue == Map(Rename(calls, link), Project(queue, link))
    && AllAnswers(tape, own, link) == MapAnswers(Rename(calls, link), said)
    && OwnHandles(calls, n, link, Project(queue, link))
    && Starts(own, |own|) == OwnStarts(calls, n, link)
  }

  ghost predicate OwnHandles(calls: seq<Timed>, n: nat, link: Link, p: seq<Event>) {
    forall e :: e in p ==> OwnHandle(calls, n, link, e.hCop)
  }

  ghost predicate SideBySide(tape: seq<Recorded>, calls: seq<Timed>, n: nat, link: Link)
    requires n <= |calls|
  {
    Beside(tape, calls, n, link, OwnCalls(calls, n, link), Run(tape, calls, n).queue, Answers(tape, calls, n, link))
  }

  lemma NextHandle(tape: seq<Recorded>, calls: seq<Timed>)
    ensures NextCop(StateOf(tape, calls).nextCop) == HandleAfter(Starts(calls, |calls|))
  {
    CounterCountsStarts(tape, calls, |calls|);
    NextCopCounts(Starts(calls, |calls|));
  }

  /** A start on the link adds the same events to both queues, under the two handles. */
  lemma OwnStartBeside(tape: seq<Recorded>, calls: seq<Timed>, n: nat, link: Link, own: seq<Timed>, queue: seq<Event>,
                       said: seq<Option<Event>>, events: seq<Event>)
    requires n < |calls| && Starts(calls, |calls|) < TWO32 && IsOwnStart(calls[n], link)
    requires Beside(tape, calls, n, link, own, queue, said)
    requires var c := calls[n];
             events == Scheduled(tape, c.tick, link, c.call.copType, c.call.data, c.call.tag, HandleAfter(Starts(calls, n)))
    ensures Beside(tape, calls, n + 1, link, own + [calls[n]], queue + events, said)
  {
    var f, c := Rename(calls, link), calls[n];
    MoreState(tape, own, c);
    MoreAnswers(tape, own, c, link);
    MoreStarts(own, c);
    NextHandle(tape, own);
    FoundByHandle(calls, n);
    ScheduledRenamed(f, tape, c.tick, link, c.call.copType, c.call.data, c.call.tag, HandleAfter(Starts(calls, n)),
                     HandleAfter(OwnStarts(calls, n, link)));
    OwnEvents(queue, events, link, HandleAfter(Starts(calls, n)), tape, c);
    MapAppend(f, Project(queue, link), events);
    assert AllAnswers(tape, own, link) + [] == AllAnswers(tape, own, link);
  }

  lemma OwnEvents(queue: seq<Event>, events: seq<Event>, link: Link, h: U32, tape: seq<Recorded>, c: Timed)
    requires IsOwnStart(c, link)
    requires events == Scheduled(tape, c.tick, link, c.call.copType, c.call.data, c.call.tag, h)
    ensures Project(queue + events, link) == Project(queue, link) + events
    ensures forall e :: e in events ==> e.hCop == h
  {
    ScheduledShape(tape, c.tick, link, c.call.copType, c.call.data, c.call.tag, h);
    ProjectAppend(queue, events, link);
    FilterAll(OnLink(link), events);
  }

  /** What a start of the whole run does, its handle by count. */
  lemma StartAdds(tape: seq<Recorded>, calls: seq<Timed>, n: nat, link: Link)
    requires n < |calls| && IsOwnStart(calls[n], link)
    ensures var c := calls[n];
            var h := HandleAfter(Starts(calls, n));
            Run(tape, calls, n + 1).queue
            == Run(tape, calls, n).queue + Scheduled(tape, c.tick, link, c.call.copType, c.call.data, c.call.tag, h)
    ensures Answers(tape, calls, n + 1, link) == Answers(tape, calls, n, link)
  {
    HandleIsCount(tape, calls, n);
    RunStep(tape, calls, n);
    assert Answers(tape, calls, n, link) + [] == Answers(tape, calls, n, link);
  }

  lemma OwnStartStep(tape: seq<Recorded>, calls: seq<Timed>, n: nat, link: Link)
    requires n < |calls| && Starts(calls, |calls|) < TWO32 && IsOwnStart(calls[n], link)
    requires SideBySide(tape, calls, n, link)
    ensures SideBySide(tape, calls, n + 1, link)
  {
    var own, queue, said := OwnCalls(calls, n, link), Run(tape, calls, n).queue, Answers(tape, calls, n, link);
    var c, h := calls[n], HandleAfter(Starts(calls, n));
    StartAdds(tape, calls, n, link);
    OwnStartBeside(tape, calls, n, link, own, queue, said,
                   Scheduled(tape, c.tick, link, c.call.copType, c.call.data, c.call.tag, h));
  }

  lemma OtherStartStep(tape: seq<Recorded>, calls: seq<Timed>, n: nat, link: Link)
    requires n < |calls| && calls[n].call.Start? && calls[n].call.link != link
    requires SideBySide(tape, calls, n, link)
    ensures SideBySide(tape, calls, n + 1, link)
  {
    var own, q := OwnCalls(calls, n, link), Run(tape, calls, n).queue;
    var Start(other, copType, data, tag) := calls[n].call;
    var h := NextCop(Run(tape, calls, n).nextCop);
    var events := Scheduled(tape, calls[n].tick, other, copType, data, tag, h);
    OneStep(tape, calls, n, link);
    ScheduledShape(tape, calls[n].tick, other, copType, data, tag, h);
    ProjectAppend(q, events, link);
    FilterNone(OnLink(link), events);
    assert Project(q, link) + [] == Project(q, link);
    assert own + [] == own;
  }

  /** A poll of the link takes the same event out of both queues. */
  lemma OwnPollBeside(tape: seq<Recorded>, calls: seq<Timed>, n: nat, link: Link, own: seq<Timed>, queue: seq<Event>,
                      said: seq<Option<Event>>)
    requires n < |calls| && calls[n].call == Poll(link)
    requires Beside(tape, calls, n, link, own, queue, said)
    ensures var (e, rest) := Pop(queue, link, NowUs(calls[n].tick));
            Beside(tape, calls, n + 1, link, own + [calls[n]], rest, said + [e])
  {
    var f, c := Rename(calls, link), calls[n];
    var (e, rest) := Pop(queue, link, NowUs(c.tick));
    MoreState(tape, own, c);
    MoreAnswers(tape, own, c, link);
    MoreStarts(own, c);
    PollRenamed(f, queue, link, NowUs(c.tick));
    MapAppend(o => MapSome(f, o), said, [e]);
    RestOnLink(queue, link, NowUs(c.tick));
  }

  lemma RestOnLink(queue: seq<Event>, link: Link, now: U64)
    ensures forall e :: e in Project(Pop(queue, link, now).1, link) ==> e in Project(queue, link)
  {
    var rest := Pop(queue, link, now).1;
    forall e | e in Project(rest, link) ensures e in Project(queue, link) {
      ProjectMember(rest, link, e);
      ProjectMember(queue, link, e);
    }
  }

  lemma OwnPollStep(tape: seq<Recorded>, calls: seq<Timed>, n: nat, link: Link)
    requires n < |calls| && calls[n].call == Poll(link)
    requires SideBySide(tape, calls, n, link)
    ensures SideBySide(tape, calls, n + 1, link)
  {
    var own, queue, said := OwnCalls(calls, n, link), Run(tape, calls, n).queue, Answers(tape, calls, n, link);
    OneStep(tape, calls, n, link);
    OwnPollBeside(tape, calls, n, link, own, queue, said);
  }

  lemma OtherPollStep(tape: seq<Recorded>, calls: seq<Timed>, n: nat, link: Link)
    requires n < |calls| && calls[n].call.Poll? && calls[n].call.link != link
    requires SideBySide(tape, calls, n, link)
    ensures SideBySide(tape, calls, n + 1, link)
  {
    var own, q := OwnCalls(calls, n, link), Run(tape, calls, n).queue;
    OneStep(tape, calls, n, link);
    PopProjects(q, calls[n].call.link, NowUs(calls[n].tick), link);
    assert own + [] == own;
  }

  lemma CancelKeeps(q: seq<Event>, h: U32, link: Link)
    ensures Project(EventQueue.Cancel(q, h), link) == EventQueue.Cancel(Project(q, link), h)
    ensures forall e :: e in EventQueue.Cancel(Project(q, link), h) ==> e in Project(q, link)
  {
    CancelProjects(q, h, link);
    forall e | e in EventQueue.Cancel(Project(q, link), h) ensures e in Project(q, link) {
      FilterMember(KeepsCop(h), Project(q, link), e);
    }
  }

  /** Canceling one of the link's handles does the same to its events under their new handles. */
  lemma CancelRenamed(calls: seq<Timed>, link: Link, p: seq<Event>, h: U32)
    requires Starts(calls, |calls|) < TWO32 && OwnHandle(calls, |calls|, link, h) && OwnHandles(calls, |calls|, link, p)
    ensures EventQueue.Cancel(Map(Rename(calls, link), p), Renamed(calls, link, h))
         == Map(Rename(calls, link), EventQueue.Cancel(p, h))
  {
    var f, h' := Rename(calls, link), Renamed(calls, link, h);
    forall e | e in p ensures KeepsCop(h)(e) <==> KeepsCop(h')(f(e)) {
      RenamedDistinct(calls, link, e.hCop, h);
    }
    FilterMap(f, KeepsCop(h), KeepsCop(h'), p);
  }

  /** A cancel of one of the link's handles cancels the same events in both queues. */
  lemma OwnCancelBeside(tape: seq<Recorded>, calls: seq<Timed>, n: nat, link: Link, own: seq<Timed>, queue: seq<Event>,
                        said: seq<Option<Event>>, h: U32)
    requires n < |calls| && Starts(calls, |calls|) < TWO32 && calls[n].call == Call.Cancel(h)
    requires OwnHandle(calls, n, link, h) && Beside(tape, calls, n, link, own, queue, said)
    ensures Beside(tape, calls, n + 1, link, own + [Timed(calls[n].tick, Call.Cancel(Renamed(calls, link, h)))],
                   EventQueue.Cancel(queue, h), said)
  {
    var c := Timed(calls[n].tick, Call.Cancel(Renamed(calls, link, h)));
    CancelKeeps(queue, h, link);
    MoreState(tape, own, c);
    MoreAnswers(tape, own, c, link);
    MoreStarts(own, c);
    CancelRenamed(calls, link, Project(queue, link), h);
    assert AllAnswers(tape, own, link) + [] == AllAnswers(tape, own, link);
  }

  lemma OwnCancelStep(tape: seq<Recorded>, calls: seq<Timed>, n: nat, link: Link, h: U32)
    requires n < |calls| && Starts(calls, |calls|) < TWO32 && calls[n].call == Call.Cancel(h)
    requires OwnHandle(calls, n, link, h) && SideBySide(tape, calls, n, link)
    ensures SideBySide(tape, calls, n + 1, link)
  {
    var own, queue, said := OwnCalls(calls, n, link), Run(tape, calls, n).queue, Answers(tape, calls, n, link);
    OneStep(tape, calls, n, link);
    OwnCancelBeside(tape, calls, n, link, own, queue, said, h);
    assert said + [] == said;
  }

  lemma OtherCancelStep(tape: seq<Recorded>, calls: seq<Timed>, n: nat, link: Link, h: U32)
    requires n < |calls| && calls[n].call == Call.Cancel(h) && !OwnHandle(calls, n, link, h)
    requires SideBySide(tape, calls, n, link)
    ensures SideBySide(tape, calls, n + 1, link)
  {
    var own, q := OwnCalls(calls, n, link), Run(tape, calls, n).queue;
    OneStep(tape, calls, n, link);
    CancelKeeps(q, h, link);
    FilterAll(KeepsCop(h), Project(q, link));
    assert own + [] == own;
  }

  lemma CallStep(tape: seq<Recorded>, calls: seq<Timed>, n: nat, link: Link)
    requires n < |calls| && Starts(calls, |calls|) < TWO32 && SideBySide(tape, calls, n, link)
    ensures SideBySide(tape, calls, n + 1, link)
  {
    match calls[n].call
    case Start(l, _, _, _) =>
      if l == link {
        OwnStartStep(tape, calls, n, link);
      } else {
        OtherStartStep(tape, calls, n, link);
      }
    case Poll(l) =>
      if l == link {
        OwnPollStep(tape, calls, n, link);
      } else {
        OtherPollStep(tape, calls, n, link);
      }
    case Cancel(h) =>
      if OwnHandle(calls, n, link, h) {
        OwnCancelStep(tape, calls, n, link, h);
      } else {
        OtherCancelStep(tape, calls, n, link, h);
      }
  }

  lemma StartSideBySide(tape: seq<Recorded>, calls: seq<Timed>, link: Link)
    ensures forall k :: 0 <= k <= 0 ==> SideBySide(tape, calls, k, link)
  {
    assert Run(tape, calls, 0) == INITIAL && Project([], link) == [];
    assert StateOf(tape, []) == INITIAL;
  }

  lemma SideBySideUpTo(tape: seq<Recorded>, calls: seq<Timed>, n: nat, link: Link)
    requires n < |calls| && Starts(calls, |calls|) < TWO32
    requires forall k :: 0 <= k <= n ==> SideBySide(tape, calls, k, link)
    ensures forall k :: 0 <= k <= n + 1 ==> SideBySide(tape, calls, k, link)
  {
    CallStep(tape, calls, n, link);
  }

  lemma {:induction false} AlwaysSideBySide(tape: seq<Recorded>, calls: seq<Timed>, n: nat, link: Link)
    requires n <= |calls| && Starts(calls, |calls|) < TWO32
    ensures forall k :: 0 <= k <= n ==> SideBySide(tape, calls, k, link)
  {
    if n == 0 {
      StartSideBySide(tape, calls, link);
    } else {
      AlwaysSideBySide(tape, calls, n - 1, link);
      SideBySideUpTo(tape, calls, n - 1, link);
    }
  }

  /** In every run of fewer than 2^32 starts: with every call of the other links dropped, a link's polls return the same
      events at the same times, with the same payloads and tags; only the handles are counted afresh, different ones
      staying different. */
  lemma AnswersAlone(tape: seq<Recorded>, calls: seq<Timed>, link: Link)
    requires Starts(calls, |calls|) < TWO32
    ensures AllAnswers(tape, OwnCalls(calls, |calls|, link), link)
         == MapAnswers(Rename(calls, link), AllAnswers(tape, calls, link))
  {
    AlwaysSideBySide(tape, calls, |calls|, link);
    assert SideBySide(tape, calls, |calls|, link);
  }
}
