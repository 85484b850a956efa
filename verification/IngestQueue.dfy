/**
 The comic ingest queue: threads around one lock and its condition variable. Each event is what
 one thread does between taking the lock and giving it up (or going to sleep in `wait`).
*/
module IngestQueue {
  type Thread = nat

  /**
   `active` and `waiting` are the counters of the program. `sleepers` is the condition's waiter list:
   threads inside `wait` that no `notify` has picked yet, a timed-out one included until it has the lock
   again. `woken` threads were picked by a `notify` and have not run since. `sessions` hold a slot.
   `announced` has, for each queued thread, its `queue_position` from its last pass before `wait`.
  */
  datatype Queue = Queue(max: int, active: int, waiting: int,
                         sleepers: seq<Thread>, woken: set<Thread>, sessions: set<Thread>, announced: map<Thread, int>)

  /** `hurried` says that the deadline has passed when the thread looks at the clock. */
  datatype Event =
    | Arrive(t: Thread, hurried: bool)
    | Resume(t: Thread, hurried: bool)
    | End(t: Thread)

  /** What `begin_comic_ingest_session` has decided for the thread of the event. */
  datatype Verdict = Admitted(position: int) | Denied(position: int) | Asleep(position: int) | Ended

  predicate Queued(q: Queue, t: Thread) {
    t in q.sleepers || t in q.woken
  }

  predicate Enabled(q: Queue, e: Event) {
    match e
    case Arrive(t, _) => !Queued(q, t) && t !in q.sessions
    case Resume(t, _) => Queued(q, t)
    case End(t) => t in q.sessions
  }

  /** `condition.notify()`: the longest-waiting sleeper is picked, if there is one. */
  function Notify(q: Queue): Queue {
    if q.sleepers == [] then q
    else q.(sleepers := q.sleepers[1..], woken := q.woken + {q.sleepers[0]})
  }

  function Without(s: seq<Thread>, t: Thread): seq<Thread> {
    if s == [] then []
    else if s[0] == t then s[1..]
    else [s[0]] + Without(s[1..], t)
  }

  /**
   The loop of `begin_comic_ingest_session` from the test of its condition, for a thread already counted in
   `waiting` or not.
  */
  function Try(q: Queue, t: Thread, queued: bool, hurried: bool): (Queue, Verdict) {
    if q.active >= q.max then
      var q1 := if queued then q else q.(waiting := q.waiting + 1);
      if hurried then (q1.(waiting := q1.waiting - 1, announced := q1.announced - {t}), Denied(q1.waiting))
      else (q1.(sleepers := q1.sleepers + [t], announced := q1.announced[t := q1.waiting]), Asleep(q1.waiting))
    else
      (q.(waiting := if queued then q.waiting - 1 else q.waiting, active := q.active + 1, sessions := q.sessions + {t},
          announced := q.announced - {t}),
       Admitted(if queued && t in q.announced then q.announced[t] else 0))
  }

  function Next(q: Queue, e: Event): (Queue, Verdict)
    requires Enabled(q, e)
  {
    match e
    case Arrive(t, hurried) => Try(q, t, false, hurried)
    case Resume(t, hurried) => Try(q.(sleepers := Without(q.sleepers, t), woken := q.woken - {t}), t, true, hurried)
    case End(t) =>
      (Notify(q.(active := if q.active > 0 then q.active - 1 else q.active, sessions := q.sessions - {t})), Ended)
  }

  function Init(max: int): Queue {
    Queue(max, 0, 0, [], {}, {}, map[])
  }

  // ---- Safety in every interleaving

  ghost predicate NoRepeats(s: seq<Thread>) {
    forall i, j :: 0 <= i < j < |s| ==> s[i] != s[j]
  }

  /** The queued threads have been told a position, and it is at least one. */
  ghost predicate AnnouncedOk(q: Queue) {
    && (forall t :: t in q.announced <==> Queued(q, t))
    && (forall t :: t in q.announced ==> 1 <= q.announced[t])
  }

  /** Each thread is in one place, and the counters count the threads. */
  ghost predicate Counted(q: Queue) {
    && NoRepeats(q.sleepers)
    && (forall t :: t in q.sleepers ==> t !in q.woken && t !in q.sessions)
    && q.woken !! q.sessions
    && q.active == |q.sessions|
    && q.waiting == |q.sleepers| + |q.woken|
    && AnnouncedOk(q)
  }

  /** No wakeup is lost: while a thread sleeps, every slot is taken or promised to a thread that was notified. */
  ghost predicate NoneLost(q: Queue) {
    q.sleepers != [] ==> q.active + |q.woken| >= q.max
  }

  ghost predicate Safe(q: Queue) {
    Counted(q) && q.active <= q.max && NoneLost(q)
  }

  lemma {:induction false} WithoutRemoves(s: seq<Thread>, t: Thread)
    requires NoRepeats(s)
    ensures NoRepeats(Without(s, t)) && (forall u :: u in Without(s, t) <==> u in s && u != t)
    ensures |Without(s, t)| == if t in s then |s| - 1 else |s|
  {
    if s != [] {
      var rest := s[1..];
      assert forall i :: 0 <= i < |rest| ==> rest[i] == s[i + 1];
      assert s[0] !in rest;
      assert forall u :: u in s <==> u == s[0] || u in rest;
      WithoutRemoves(rest, t);
      if s[0] != t {
        assert forall u :: u in Without(s, t) <==> u == s[0] || u in Without(rest, t);
      }
    }
  }

  lemma AppendKeeps(s: seq<Thread>, t: Thread)
    requires NoRepeats(s) && t !in s
    ensures NoRepeats(s + [t])
  {
  }

  lemma TryAnnounces(q: Queue, t: Thread, queued: bool, hurried: bool)
    requires t !in q.sleepers && t !in q.woken
    requires q.waiting == |q.sleepers| + |q.woken| + (if queued then 1 else 0)
    requires forall u :: u in q.announced <==> Queued(q, u) || (queued && u == t)
    requires forall u :: u in q.announced ==> 1 <= q.announced[u]
    ensures AnnouncedOk(Try(q, t, queued, hurried).0)
  {
    forall u ensures u in q.sleepers + [t] <==> u in q.sleepers || u == t {
    }
  }

  /** One pass through the loop, for a thread that is neither asleep nor notified any more. */
  lemma TryKeeps(q: Queue, t: Thread, queued: bool, hurried: bool)
    requires 0 < q.max && q.active <= q.max && NoRepeats(q.sleepers)
    requires forall u :: u in q.sleepers ==> u !in q.woken && u !in q.sessions
    requires q.woken !! q.sessions && t !in q.sleepers && t !in q.woken && t !in q.sessions
    requires q.active == |q.sessions|
    requires q.waiting == |q.sleepers| + |q.woken| + (if queued then 1 else 0)
    requires q.sleepers != [] ==> q.active + |q.woken| >= q.max - (if queued then 1 else 0)
    requires forall u :: u in q.announced <==> Queued(q, u) || (queued && u == t)
    requires forall u :: u in q.announced ==> 1 <= q.announced[u]
    ensures Safe(Try(q, t, queued, hurried).0)
  {
    AppendKeeps(q.sleepers, t);
    TryAnnounces(q, t, queued, hurried);
    assert q.sessions + {t} - {t} == q.sessions;
    hide AnnouncedOk, Queued;
  }

  lemma ResumeKeeps(q: Queue, t: Thread, hurried: bool)
    requires 0 < q.max && Safe(q) && Queued(q, t)
    ensures Safe(Next(q, Resume(t, hurried)).0)
  {
    WithoutRemoves(q.sleepers, t);
    var q1 := q.(sleepers := Without(q.sleepers, t), woken := q.woken - {t});
    assert q1.sleepers != [] ==> q1.sleepers[0] in q.sleepers;
    hide Without, NoRepeats;
    TryKeeps(q1, t, true, hurried);
  }

  lemma EndKeeps(q: Queue, t: Thread)
    requires 0 < q.max && Safe(q) && t in q.sessions
    ensures Safe(Next(q, End(t)).0)
  {
    assert |q.sessions - {t}| == |q.sessions| - 1;
    if q.sleepers != [] {
      var rest := q.sleepers[1..];
      assert q.sleepers[0] in q.sleepers;
      assert forall i :: 0 <= i < |rest| ==> rest[i] == q.sleepers[i + 1];
    }
  }

  lemma NextKeeps(q: Queue, e: Event)
    requires 0 < q.max && Safe(q) && Enabled(q, e)
    ensures Safe(Next(q, e).0) && Next(q, e).0.max == q.max
  {
    hide NoRepeats;
    match e
    case Arrive(t, hurried) => TryKeeps(q, t, false, hurried);
    case Resume(t, hurried) =>
      hide Safe;
      ResumeKeeps(q, t, hurried);
    case End(t) =>
      hide Safe;
      EndKeeps(q, t);
  }

  ghost predicate Legal(q: Queue, events: seq<Event>)
    decreases |events|
  {
    events != [] ==> Enabled(q, events[0]) && Legal(Next(q, events[0]).0, events[1..])
  }

  function After(q: Queue, events: seq<Event>): Queue
    requires Legal(q, events)
    decreases |events|
  {
    if events == [] then q else After(Next(q, events[0]).0, events[1..])
  }

  lemma {:induction false} AfterKeeps(q: Queue, events: seq<Event>)
    requires 0 < q.max && Safe(q) && Legal(q, events)
    ensures Safe(After(q, events))
    decreases |events|
  {
    if events != [] {
      NextKeeps(q, events[0]);
      AfterKeeps(Next(q, events[0]).0, events[1..]);
    }
  }

  /** In every interleaving, from the start: the slot limit, exact counters, and no lost wakeup. */
  lemma EveryInterleavingSafe(max: int, events: seq<Event>)
    requires 0 < max && Legal(Init(max), events)
    ensures Safe(After(Init(max), events))
  {
    AfterKeeps(Init(max), events);
  }

  /** What the program tells a thread: it is admitted only into a free slot, and a place in the queue is never zero. */
  lemma VerdictHonest(q: Queue, e: Event)
    requires 0 < q.max && Safe(q) && Enabled(q, e) && !e.End?
    ensures match Next(q, e).1
      case Admitted(position) => q.active < q.max && Next(q, e).0.sessions == q.sessions + {e.t}
                                 && position == if e.Resume? then q.announced[e.t] else 0
      case Denied(position) => q.active >= q.max && e.hurried && position == Next(q, e).0.waiting + 1
                               && !Queued(Next(q, e).0, e.t)
      case Asleep(position) => q.active >= q.max && !e.hurried && position == Next(q, e).0.waiting >= 1
                               && e.t in Next(q, e).0.announced && Next(q, e).0.announced[e.t] == position
      case Ended => false
  {
    WithoutRemoves(q.sleepers, e.t);
  }

  /** The end of a session frees its slot and picks the thread that has been asleep longest, if there is one. */
  lemma EndPicksFirst(q: Queue, t: Thread)
    requires 0 < q.max && Safe(q) && t in q.sessions
    ensures var next := Next(q, End(t)).0;
      && next.active == q.active - 1 && next.sessions == q.sessions - {t} && next.waiting == q.waiting
      && (q.sleepers == [] ==> next.sleepers == [] && next.woken == q.woken)
      && (q.sleepers != [] ==> next.sleepers == q.sleepers[1..] && next.woken == q.woken + {q.sleepers[0]})
  {
  }

  /** A thread that goes to sleep does so behind all others; one that is admitted or refused leaves no other's place. */
  lemma OthersKeepPlace(q: Queue, e: Event)
    requires Enabled(q, e) && !e.End?
    ensures var next := Next(q, e).0;
      var rest := if e.Resume? then Without(q.sleepers, e.t) else q.sleepers;
      && next.sleepers == (if Next(q, e).1.Asleep? then rest + [e.t] else rest)
      && next.woken == q.woken - (if e.Resume? then {e.t} else {})
      && next.sessions == q.sessions + (if Next(q, e).1.Admitted? then {e.t} else {})
  {
    hide Without, Queued;
  }

  /** What a waiting thread was told stays as it is until that thread runs again, whatever the others do. */
  lemma AnnouncedStays(q: Queue, e: Event, t: Thread)
    requires 0 < q.max && Safe(q) && Enabled(q, e) && Queued(q, t) && e.t != t
    ensures Queued(Next(q, e).0, t) && Next(q, e).0.announced[t] == q.announced[t]
  {
    WithoutRemoves(q.sleepers, e.t);
    if e.End? && q.sleepers != [] {
      assert q.sleepers == [q.sleepers[0]] + q.sleepers[1..];
    }
  }

  // ---- The queue drains

  /** A session ends, or a notified thread runs before its deadline. */
  predicate Draining(q: Queue, e: Event) {
    match e
    case Arrive(_, _) => false
    case Resume(t, hurried) => t in q.woken && !hurried
    case End(t) => t in q.sessions
  }

  ghost predicate Drains(q: Queue, events: seq<Event>)
    decreases |events|
  {
    events != [] ==> Enabled(q, events[0]) && Draining(q, events[0]) && Drains(Next(q, events[0]).0, events[1..])
  }

  function Work(q: Queue): nat {
    2 * |q.sessions| + 2 * |q.sleepers| + 3 * |q.woken|
  }

  lemma DrainStep(q: Queue, e: Event)
    requires 0 < q.max && Safe(q) && Enabled(q, e) && Draining(q, e)
    ensures Work(Next(q, e).0) < Work(q) && !Next(q, e).1.Denied?
  {
    NextKeeps(q, e);
    if e.Resume? {
      WithoutRemoves(q.sleepers, e.t);
      assert |q.woken - {e.t}| == |q.woken| - 1;
    }
  }

  /** Without new arrivals and timeouts the queue cannot go on for ever. */
  lemma {:induction false} DrainBounded(q: Queue, events: seq<Event>)
    requires 0 < q.max && Safe(q) && Drains(q, events)
    ensures |events| <= Work(q)
    decreases |events|
  {
    if events != [] {
      DrainStep(q, events[0]);
      NextKeeps(q, events[0]);
      DrainBounded(Next(q, events[0]).0, events[1..]);
    }
  }

  /** And it only stops once every queued thread has been admitted and every session has ended. */
  lemma DrainComplete(q: Queue)
    requires 0 < q.max && Safe(q) && forall e :: Enabled(q, e) ==> !Draining(q, e)
    ensures q.sleepers == [] && q.woken == {} && q.sessions == {} && q.waiting == 0 && q.active == 0
  {
    if q.woken != {} {
      var t :| t in q.woken;
      assert Draining(q, Resume(t, false));
    }
    if q.sessions != {} {
      var t :| t in q.sessions;
      assert Draining(q, End(t));
    }
  }

  /** A thread that sleeps while nobody has been notified sleeps because every slot is in use. */
  lemma SleepingMeansFull(q: Queue)
    requires 0 < q.max && Safe(q) && q.sleepers != [] && q.woken == {}
    ensures q.active == q.max && exists t :: t in q.sessions
  {
    assert q.sessions != {};
  }

  // ---- The two counters as the program keeps them

  /**
   `_ComicIngestQueueState`. Each method is one stretch of code that holds the lock; `queue` is the state
   of all the threads, of which the program itself only keeps the two counters.
  */
  class IngestQueueState {
    const max: int
    var active: int
    var waiting: int
    ghost var queue: Queue

    ghost predicate Valid()
      reads this
    {
      0 < max == queue.max && Safe(queue) && active == queue.active && waiting == queue.waiting
    }

    constructor (max: int)
      requires 0 < max
      ensures Valid() && this.max == max && queue == Init(max)
    {
      this.max, active, waiting, queue := max, 0, 0, Init(max);
    }

    /**
     The loop from its test to the next `wait` or the way out; `position` is the `queue_position` of the thread
     so far.
    */
    method Pass(queued: bool, position: int, hurried: bool) returns (verdict: Verdict)
      requires 0 < max
      modifies `active, `waiting
      ensures old(active) >= max && hurried ==>
                active == old(active) && verdict == Denied(if queued then old(waiting) else old(waiting) + 1)
                && waiting == if queued then old(waiting) - 1 else old(waiting)
      ensures old(active) >= max && !hurried ==>
                active == old(active) && verdict == Asleep(waiting)
                && waiting == if queued then old(waiting) else old(waiting) + 1
      ensures old(active) < max ==>
                active == old(active) + 1 && verdict == Admitted(position)
                && waiting == if queued then old(waiting) - 1 else old(waiting)
    {
      if active >= max {
        if !queued {
          waiting := waiting + 1;
        }
        if hurried {
          verdict := Denied(waiting);
          waiting := waiting - 1;
        } else {
          verdict := Asleep(waiting);
        }
      } else {
        verdict := Admitted(position);
        if queued {
          waiting := waiting - 1;
        }
        active := active + 1;
      }
    }

    /** A new caller up to its admission, its refusal or its first `wait`. */
    method Enter(t: Thread, hurried: bool) returns (verdict: Verdict)
      requires Valid() && Enabled(queue, Arrive(t, hurried))
      modifies this
      ensures Valid() && (queue, verdict) == Next(old(queue), Arrive(t, hurried))
    {
      NextKeeps(queue, Arrive(t, hurried));
      verdict := Pass(false, 0, hurried);
      queue := Next(queue, Arrive(t, hurried)).0;
    }

    /** A caller back from `wait`, notified or timed out, up to the same points; `position` is what it was last told. */
    method Wake(t: Thread, position: int, hurried: bool) returns (verdict: Verdict)
      requires Valid() && Enabled(queue, Resume(t, hurried)) && position == queue.announced[t]
      modifies this
      ensures Valid() && (queue, verdict) == Next(old(queue), Resume(t, hurried))
    {
      NextKeeps(queue, Resume(t, hurried));
      verdict := Pass(true, position, hurried);
      queue := Next(queue, Resume(t, hurried)).0;
    }

    /** `end_comic_ingest_session`. */
    method Leave(t: Thread)
      requires Valid() && Enabled(queue, End(t))
      modifies this
      ensures Valid() && queue == Next(old(queue), End(t)).0
    {
      NextKeeps(queue, End(t));
      if active > 0 {
        active := active - 1;
      }
      queue := Next(queue, End(t)).0;
    }
  }
}
