/**
 The upload limiter's rule for one user, over the whole history: at most `concurrent` sessions open at
 once, and at most `requests` admitted in any window.
*/
module UploadRule {
  import opened SlidingWindow

  datatype Limits = Limits(window: real, requests: nat, concurrent: int)

  predicate Sound(l: Limits) {
    0.0 <= l.window && 0 < l.requests
  }

  /** All admissions of a user so far, and the sessions not yet ended. */
  datatype Ledger = Ledger(admitted: seq<real>, open: int)

  datatype Verdict = Allowed | ConcurrencyLimited | RateLimited(retryAfter: int)

  const NOBODY := Ledger([], 0)

  function Begin(l: Limits, g: Ledger, now: real): (Ledger, Verdict)
    requires Sound(l)
  {
    if g.open >= l.concurrent then (g, ConcurrencyLimited)
    else
      match Ask(g.admitted, now, l.window, l.requests)
      case Wait(retryAfter) => (g, RateLimited(retryAfter))
      case Admit => (Ledger(g.admitted + [now], g.open + 1), Allowed)
  }

  /** An end without an open session changes nothing. */
  function End(g: Ledger): Ledger {
    if g.open <= 1 then g.(open := 0) else g.(open := g.open - 1)
  }

  ghost predicate Kept(l: Limits, g: Ledger, clock: real) {
    && Ordered(g.admitted) && NotAfter(g.admitted, clock) && Spaced(g.admitted, l.window, l.requests)
    && 0 <= g.open && (g.open <= l.concurrent || g.open == 0)
  }

  lemma BeginKeeps(l: Limits, g: Ledger, clock: real, now: real)
    requires Sound(l) && Kept(l, g, clock) && clock <= now
    ensures Kept(l, Begin(l, g, now).0, now)
  {
    AdmitIffSpaced(g.admitted, now, l.window, l.requests);
  }

  /** Nothing is refused that the two limits would have allowed. */
  lemma AllowedIff(l: Limits, g: Ledger, clock: real, now: real)
    requires Sound(l) && Kept(l, g, clock) && clock <= now
    ensures Begin(l, g, now).1 == Allowed
            <==> g.open + 1 <= l.concurrent && Spaced(g.admitted + [now], l.window, l.requests)
  {
    AdmitIffSpaced(g.admitted, now, l.window, l.requests);
  }

  /** Which refusal it is: the sessions are asked first, and then the window, with its wait. */
  lemma RefusedBy(l: Limits, g: Ledger, clock: real, now: real)
    requires Sound(l) && Kept(l, g, clock) && clock <= now
    ensures Begin(l, g, now).1 == ConcurrencyLimited <==> g.open >= l.concurrent
    ensures Begin(l, g, now).1.RateLimited? <==>
              g.open < l.concurrent && !Spaced(g.admitted + [now], l.window, l.requests)
    ensures Begin(l, g, now).1.RateLimited? ==>
              Ask(g.admitted, now, l.window, l.requests) == Wait(Begin(l, g, now).1.retryAfter)
    ensures Begin(l, g, now).1 != Allowed ==> Begin(l, g, now).0 == g
    ensures Begin(l, g, now).1 == Allowed ==> Begin(l, g, now).0 == Ledger(g.admitted + [now], g.open + 1)
    ensures End(g).admitted == g.admitted && End(g).open == if g.open > 0 then g.open - 1 else 0
  {
    AdmitIffSpaced(g.admitted, now, l.window, l.requests);
  }

  // ---- Whole runs of one user

  datatype Call = BeginAt(now: real) | Finish

  ghost predicate InTime(calls: seq<Call>, clock: real) {
    calls != [] ==>
      match calls[0]
      case BeginAt(now) => clock <= now && InTime(calls[1..], now)
      case Finish => InTime(calls[1..], clock)
  }

  function Run(l: Limits, g: Ledger, calls: seq<Call>): Ledger
    requires Sound(l)
    decreases |calls|
  {
    if calls == [] then g
    else
      Run(l, match calls[0] { case BeginAt(now) => Begin(l, g, now).0 case Finish => End(g) }, calls[1..])
  }

  function Last(calls: seq<Call>, clock: real): real
    decreases |calls|
  {
    if calls == [] then clock
    else Last(calls[1..], match calls[0] { case BeginAt(now) => now case Finish => clock })
  }

  lemma {:induction false} RunKeeps(l: Limits, g: Ledger, calls: seq<Call>, clock: real)
    requires Sound(l) && Kept(l, g, clock) && InTime(calls, clock)
    ensures Kept(l, Run(l, g, calls), Last(calls, clock))
    decreases |calls|
  {
    if calls != [] {
      match calls[0] {
        case BeginAt(now) =>
          BeginKeeps(l, g, clock, now);
          RunKeeps(l, Begin(l, g, now).0, calls[1..], now);
        case Finish =>
          RunKeeps(l, End(g), calls[1..], clock);
      }
    }
  }

  /**
   However a user begins and ends uploads, no window holds more than the limit and no more sessions are open
   than allowed.
  */
  lemma EveryRunBounded(l: Limits, calls: seq<Call>, clock: real, from: real)
    requires Sound(l) && InTime(calls, clock)
    ensures var g := Run(l, NOBODY, calls);
            && CountWithin(g.admitted, from, from + l.window) <= l.requests
            && g.open <= (if l.concurrent > 0 then l.concurrent else 0)
  {
    RunKeeps(l, NOBODY, calls, clock);
    WindowHoldsAtMost(Run(l, NOBODY, calls).admitted, from, l.window, l.requests);
  }

  /** Every end belongs to a session that is open. */
  ghost predicate Paired(l: Limits, g: Ledger, calls: seq<Call>)
    requires Sound(l)
    decreases |calls|
  {
    calls != [] ==>
      match calls[0]
      case BeginAt(now) => Paired(l, Begin(l, g, now).0, calls[1..])
      case Finish => 0 < g.open && Paired(l, End(g), calls[1..])
  }

  function Finishes(calls: seq<Call>): nat {
    if calls == [] then 0 else (if calls[0].Finish? then 1 else 0) + Finishes(calls[1..])
  }

  /** Sessions are conserved: those open are those admitted less those ended. */
  lemma {:induction false} SessionsBalance(l: Limits, g: Ledger, calls: seq<Call>)
    requires Sound(l) && Paired(l, g, calls)
    ensures var h := Run(l, g, calls);
            h.open - |h.admitted| == g.open - |g.admitted| - Finishes(calls)
    decreases |calls|
  {
    if calls != [] {
      match calls[0] {
        case BeginAt(now) => SessionsBalance(l, Begin(l, g, now).0, calls[1..]);
        case Finish => SessionsBalance(l, End(g), calls[1..]);
      }
    }
  }
}

/** The two limiters as the program keeps them: pruned lists under a key, garbage-collected on every call. */
module RateLimits {
  import opened SlidingWindow
  import opened Text
  import opened UploadRule

  const MAX_TRACKED_KEYS := 10000

  // ---- Tables with defaults, as `dict.get(key, default)` reads them

  function Times(m: map<string, seq<real>>, k: string): seq<real> {
    if k in m then m[k] else []
  }

  function Flying(m: map<string, int>, k: string): int {
    if k in m then m[k] else 0
  }

  function LedgerOf(admitted: map<string, seq<real>>, open: map<string, int>, user: string): Ledger {
    Ledger(Times(admitted, user), Flying(open, user))
  }

  /** One user's ledger was replaced, every other one kept. */
  ghost predicate Booked(a: map<string, seq<real>>, o: map<string, int>, a': map<string, seq<real>>,
                         o': map<string, int>, user: string, g: Ledger)
  {
    && LedgerOf(a', o', user) == g
    && forall other :: other != user ==> LedgerOf(a', o', other) == LedgerOf(a, o, other)
  }

  lemma BookedSame(a: map<string, seq<real>>, o: map<string, int>, user: string)
    ensures Booked(a, o, a, o, user, LedgerOf(a, o, user))
  {
  }

  lemma BookedPut(a: map<string, seq<real>>, o: map<string, int>, user: string, times: seq<real>, n: int)
    ensures Booked(a, o, a[user := times], o[user := n], user, Ledger(times, n))
    ensures Booked(a, o, a, o[user := n], user, Ledger(Times(a, user), n))
  {
  }

  /** On the current window, what is stored is what was admitted. */
  ghost predicate Agrees(stored: map<string, seq<real>>, admitted: map<string, seq<real>>, floor: real) {
    forall k :: Recent(Times(stored, k), floor) == Recent(Times(admitted, k), floor)
  }

  lemma AgreesAt(stored: map<string, seq<real>>, admitted: map<string, seq<real>>, key: string, floor: real)
    requires Agrees(stored, admitted, floor)
    ensures Recent(Times(stored, key), floor) == Recent(Times(admitted, key), floor)
  {
  }

  lemma SizeWithout<K, V>(m: map<K, V>, keys: set<K>)
    ensures |m - keys| <= |m| && (keys <= m.Keys ==> |m - keys| == |m| - |keys|)
  {
    assert (m - keys).Keys == m.Keys - keys;
    assert m.Keys == (m.Keys - keys) + m.Keys * keys;
    if keys <= m.Keys {
      assert m.Keys * keys == keys;
    }
  }

  lemma AgreesLater(stored: map<string, seq<real>>, admitted: map<string, seq<real>>, early: real, late: real)
    requires early <= late && Agrees(stored, admitted, early)
    ensures Agrees(stored, admitted, late)
  {
    forall k ensures Recent(Times(stored, k), late) == Recent(Times(admitted, k), late) {
      AgreeLater(Times(stored, k), Times(admitted, k), early, late);
    }
  }

  lemma StaleNothing(times: seq<real>, cutoff: real, floor: real)
    requires Stale(times, cutoff) && cutoff <= floor
    ensures Recent(times, floor) == []
  {
    forall i | 0 <= i < |times| ensures times[i] < floor {
      assert times[i] in times;
    }
    RecentNothing(times, floor);
  }

  /** Forgetting a stale key changes no later decision: its newest entry is two windows old. */
  lemma AgreesWithout(stored: map<string, seq<real>>, admitted: map<string, seq<real>>, keys: set<string>, now: real,
                      window: real)
    requires 0.0 <= window && Agrees(stored, admitted, now - window)
    requires forall k :: k in keys && k in stored ==> Stale(stored[k], now - window * 2.0)
    ensures Agrees(stored - keys, admitted, now - window)
  {
    forall k ensures Recent(Times(stored - keys, k), now - window) == Recent(Times(admitted, k), now - window) {
      if k in keys && k in stored {
        StaleNothing(stored[k], now - window * 2.0, now - window);
      }
      assert Recent(Times(stored, k), now - window) == Recent(Times(admitted, k), now - window);
    }
  }

  /** Storing the filtered list back. */
  lemma AgreesPut(stored: map<string, seq<real>>, admitted: map<string, seq<real>>, key: string, floor: real)
    requires Agrees(stored, admitted, floor)
    ensures Agrees(stored[key := Recent(Times(stored, key), floor)], admitted, floor)
  {
    RecentTwice(Times(stored, key), floor, floor);
    var next := stored[key := Recent(Times(stored, key), floor)];
    forall k ensures Recent(Times(next, k), floor) == Recent(Times(admitted, k), floor) {
      assert Recent(Times(stored, k), floor) == Recent(Times(admitted, k), floor);
    }
  }

  /** Storing it with the new admission. */
  lemma AgreesAdmit(stored: map<string, seq<real>>, admitted: map<string, seq<real>>, key: string, now: real,
                    floor: real)
    requires Agrees(stored, admitted, floor)
    ensures Agrees(stored[key := Recent(Times(stored, key), floor) + [now]],
                   admitted[key := Times(admitted, key) + [now]], floor)
  {
    var kept := Recent(Times(stored, key), floor);
    RecentTwice(Times(stored, key), floor, floor);
    RecentAppend(kept, now, floor);
    RecentAppend(Times(admitted, key), now, floor);
    var next := stored[key := kept + [now]];
    var longer := admitted[key := Times(admitted, key) + [now]];
    forall k ensures Recent(Times(next, k), floor) == Recent(Times(longer, k), floor) {
      assert Recent(Times(stored, k), floor) == Recent(Times(admitted, k), floor);
    }
  }

  ghost predicate Disciplined(times: seq<real>, clock: real, window: real, limit: nat) {
    Ordered(times) && NotAfter(times, clock) && Spaced(times, window, limit)
  }

  ghost predicate Lawful(admitted: map<string, seq<real>>, clock: real, window: real, limit: nat) {
    forall k :: Disciplined(Times(admitted, k), clock, window, limit)
  }

  lemma LawfulLater(admitted: map<string, seq<real>>, clock: real, now: real, window: real, limit: nat)
    requires Lawful(admitted, clock, window, limit) && clock <= now
    ensures Lawful(admitted, now, window, limit)
  {
    forall k ensures Disciplined(Times(admitted, k), now, window, limit) {
      assert Disciplined(Times(admitted, k), clock, window, limit);
    }
  }

  lemma LawfulAdmit(admitted: map<string, seq<real>>, key: string, now: real, window: real, limit: nat)
    requires Lawful(admitted, now, window, limit) && 0 < limit && Ask(Times(admitted, key), now, window, limit).Admit?
    ensures Lawful(admitted[key := Times(admitted, key) + [now]], now, window, limit)
  {
    var times := Times(admitted, key);
    assert Disciplined(times, now, window, limit);
    AdmitIffSpaced(times, now, window, limit);
    var longer := admitted[key := times + [now]];
    forall k ensures Disciplined(Times(longer, k), now, window, limit) {
      assert Disciplined(Times(admitted, k), now, window, limit);
    }
  }

  // ---- The limiter on POST requests, by client address

  const POST_WINDOW := 60.0
  const POST_REQUESTS: nat := 30

  /** What the POST limiter keeps true of its table and the history behind it. */
  ghost predicate PostSane(stamps: map<string, seq<real>>, admitted: map<string, seq<real>>, clock: real,
                           evicted: bool)
  {
    && (forall k :: k in stamps ==> stamps[k] != [])
    && (!evicted ==>
          Agrees(stamps, admitted, clock - POST_WINDOW) && Lawful(admitted, clock, POST_WINDOW, POST_REQUESTS))
    && |stamps| <= MAX_TRACKED_KEYS + 1
  }

  lemma SizePut<K, V>(m: map<K, V>, k: K, v: V)
    ensures |m[k := v]| <= |m| + 1
  {
    assert m[k := v].Keys == m.Keys + {k};
  }

  /** The two ways a check leaves the table. */
  lemma PostSaneAfter(stamps: map<string, seq<real>>, admitted: map<string, seq<real>>, clock: real, now: real,
                      evicted: bool, key: string)
    requires clock <= now && |stamps| <= MAX_TRACKED_KEYS && forall k :: k in stamps ==> stamps[k] != []
    requires !evicted ==>
               Agrees(stamps, admitted, now - POST_WINDOW) && Lawful(admitted, clock, POST_WINDOW, POST_REQUESTS)
    ensures var recent := Recent(Times(stamps, key), now - POST_WINDOW);
            && (!evicted ==> Ask(Times(admitted, key), now, POST_WINDOW, POST_REQUESTS)
                             == if |recent| >= POST_REQUESTS then Wait(RetryAfter(recent[0], POST_WINDOW, now))
                                else Admit)
            && (|recent| >= POST_REQUESTS ==> PostSane(stamps[key := recent], admitted, now, evicted))
            && (|recent| < POST_REQUESTS ==>
                  PostSane(stamps[key := recent + [now]], admitted[key := Times(admitted, key) + [now]], now, evicted))
  {
    hide Agrees, Lawful, Recent, RetryAfter;
    var floor := now - POST_WINDOW;
    var recent := Recent(Times(stamps, key), floor);
    SizePut(stamps, key, recent);
    SizePut(stamps, key, recent + [now]);
    if !evicted {
      AgreesAt(stamps, admitted, key, floor);
      LawfulLater(admitted, clock, now, POST_WINDOW, POST_REQUESTS);
      AgreesPut(stamps, admitted, key, floor);
      AgreesAdmit(stamps, admitted, key, now, floor);
      if |recent| < POST_REQUESTS {
        LawfulAdmit(admitted, key, now, POST_WINDOW, POST_REQUESTS);
      }
    }
  }

  /** Some keys went, none of them with a newer entry than any that stayed, and the others are as they were. */
  ghost predicate Outlived(before: map<string, seq<real>>, after: map<string, seq<real>>) {
    && (forall k :: k in before ==> before[k] != [])
    && (forall k :: k in after ==> k in before && after[k] == before[k])
    && (forall e, k :: e in before && e !in after && k in after ==> Latest(before[e]) <= Latest(before[k]))
  }

  lemma OutlivedOne(before: map<string, seq<real>>, after: map<string, seq<real>>, oldest: string)
    requires Outlived(before, after) && oldest in after
    requires forall k :: k in after ==> Latest(before[oldest]) <= Latest(before[k])
    ensures Outlived(before, after - {oldest})
  {
    hide Latest;
  }

  class PostLimiter {
    var stamps: map<string, seq<real>>

    /** Everything ever admitted, the last time seen, and whether keys were ever evicted over the cap. */
    ghost var admitted: map<string, seq<real>>
    ghost var clock: real
    ghost var evicted: bool

    ghost predicate Valid()
      reads this
    {
      PostSane(stamps, admitted, clock, evicted)
    }

    constructor (start: real)
      ensures Valid() && !evicted && clock == start && admitted == map[]
    {
      stamps, admitted, clock, evicted := map[], map[], start, false;
    }

    /** `min(stamps, key=lambda k: max(stamps[k]))`, the next key of the sorted list. */
    method OldestKey() returns (oldest: string)
      requires stamps != map[] && forall k :: k in stamps ==> stamps[k] != []
      ensures oldest in stamps && forall k :: k in stamps ==> Latest(stamps[oldest]) <= Latest(stamps[k])
    {
      oldest :| oldest in stamps;
      var rest := stamps.Keys - {oldest};
      while rest != {}
        invariant rest <= stamps.Keys && oldest in stamps
        invariant forall k :: k in stamps && k !in rest ==> Latest(stamps[oldest]) <= Latest(stamps[k])
        decreases |rest|
      {
        var k :| k in rest;
        if Latest(stamps[k]) < Latest(stamps[oldest]) {
          oldest := k;
        }
        rest := rest - {k};
      }
    }

    method DropStale(now: real)
      requires Valid() && clock <= now
      modifies `stamps
      ensures |stamps| <= |old(stamps)| && forall k :: k in stamps ==> stamps[k] != []
      ensures stamps == old(stamps) - set k | k in old(stamps) && Stale(old(stamps)[k], now - POST_WINDOW * 2.0)
      ensures !evicted ==> Agrees(stamps, admitted, now - POST_WINDOW)
    {
      var stale := set k | k in stamps && Stale(stamps[k], now - POST_WINDOW * 2.0);
      if !evicted {
        AgreesLater(stamps, admitted, clock - POST_WINDOW, now - POST_WINDOW);
        AgreesWithout(stamps, admitted, stale, now, POST_WINDOW);
      }
      SizeWithout(stamps, stale);
      hide Agrees, Recent, Stale, Lawful;
      stamps := stamps - stale;
    }

    method EvictOldest()
      requires forall k :: k in stamps ==> stamps[k] != []
      modifies `stamps, `evicted
      ensures |stamps| <= MAX_TRACKED_KEYS && forall k :: k in stamps ==> stamps[k] != []
      ensures evicted == (old(evicted) || |old(stamps)| > MAX_TRACKED_KEYS)
      ensures |old(stamps)| <= MAX_TRACKED_KEYS ==> stamps == old(stamps)
      ensures |old(stamps)| > MAX_TRACKED_KEYS ==> |stamps| == MAX_TRACKED_KEYS
      ensures Outlived(old(stamps), stamps)
    {
      while |stamps| > MAX_TRACKED_KEYS
        invariant forall k :: k in stamps ==> stamps[k] != []
        invariant evicted == (old(evicted) || stamps != old(stamps))
        invariant stamps != old(stamps) ==> |stamps| < |old(stamps)| && |old(stamps)| > MAX_TRACKED_KEYS
        invariant |old(stamps)| > MAX_TRACKED_KEYS ==> |stamps| >= MAX_TRACKED_KEYS
        invariant Outlived(old(stamps), stamps)
        decreases |stamps|
      {
        var oldest := OldestKey();
        SizeWithout(stamps, {oldest});
        OutlivedOne(old(stamps), stamps, oldest);
        hide Outlived;
        stamps := stamps - {oldest};
        evicted := true;
      }
    }

    method Prune(now: real)
      requires Valid() && clock <= now
      modifies `stamps, `evicted
      ensures |stamps| <= MAX_TRACKED_KEYS && forall k :: k in stamps ==> stamps[k] != []
      ensures evicted ==> old(evicted) || |old(stamps)| > MAX_TRACKED_KEYS
      ensures !evicted ==> !old(evicted) && Agrees(stamps, admitted, now - POST_WINDOW)
                           && Lawful(admitted, clock, POST_WINDOW, POST_REQUESTS)
      ensures var current := old(stamps) - set k | k in old(stamps) && Stale(old(stamps)[k], now - POST_WINDOW * 2.0);
              && Outlived(current, stamps)
              && |stamps| == if |current| > MAX_TRACKED_KEYS then MAX_TRACKED_KEYS else |current|
    {
      hide Agrees, Outlived, Stale, Latest, Recent, Lawful;
      DropStale(now);
      EvictOldest();
    }

    /**
     `check_post_rate_limit`: until keys are evicted over the cap, it answers as the whole history does,
     and the table stays bounded in any case.
    */
    method Check(client: string, now: real) returns (retryAfter: int)
      requires Valid() && clock <= now
      modifies this
      ensures Valid() && clock == now
      ensures evicted ==> old(evicted) || |old(stamps)| > MAX_TRACKED_KEYS
      ensures !evicted ==>
        match Ask(Times(old(admitted), client), now, POST_WINDOW, POST_REQUESTS)
        case Admit => retryAfter == 0 && admitted == old(admitted)[client := Times(old(admitted), client) + [now]]
        case Wait(wait) => retryAfter == wait && admitted == old(admitted)
    {
      hide Agrees, Lawful, Recent, PostSane, Ask, RetryAfter, Times, Outlived, Stale, Latest;
      Prune(now);
      PostSaneAfter(stamps, admitted, clock, now, evicted, client);
      var recent := Recent(Times(stamps, client), now - POST_WINDOW);
      clock := now;
      if |recent| >= POST_REQUESTS {
        retryAfter := RetryAfter(recent[0], POST_WINDOW, now);
        stamps := stamps[client := recent];
      } else {
        stamps := stamps[client := recent + [now]];
        admitted := admitted[client := Times(admitted, client) + [now]];
        retryAfter := 0;
      }
    }

    /** Until an eviction, no window holds more admitted requests of an address than the limit. */
    lemma WindowsBounded(client: string, from: real)
      requires Valid() && !evicted
      ensures CountWithin(Times(admitted, client), from, from + POST_WINDOW) <= POST_REQUESTS
    {
      assert Disciplined(Times(admitted, client), clock, POST_WINDOW, POST_REQUESTS);
      WindowHoldsAtMost(Times(admitted, client), from, POST_WINDOW, POST_REQUESTS);
    }

    /**
     Until an eviction, the wait an address is told is worth what it says: at least a second; no series of requests
     within a wait that was a second or more gets any in; a request one second after it gets in.
    */
    lemma WaitIsHonest(client: string, now: real, later: real, requests: seq<real>)
      requires Valid() && !evicted && clock <= now <= later
      requires Ask(Times(admitted, client), now, POST_WINDOW, POST_REQUESTS).Wait?
      ensures var times := Times(admitted, client);
              var wait := Ask(times, now, POST_WINDOW, POST_REQUESTS).retryAfter;
              var asked := Recent(times, now - POST_WINDOW)[0] + POST_WINDOW - now;
              && wait >= 1 && (asked < 1.0 ==> wait == 1)
              && (asked >= 1.0 ==> wait as real <= asked < (wait + 1) as real)
              && (asked >= 1.0 && (forall i :: 0 <= i < |requests| ==> now <= requests[i] <= now + wait as real) ==>
                    AskAll(times, requests, POST_WINDOW, POST_REQUESTS) == times)
              && (later >= now + (wait + 1) as real ==> Ask(times, later, POST_WINDOW, POST_REQUESTS).Admit?)
    {
      var times := Times(admitted, client);
      assert Disciplined(times, clock, POST_WINDOW, POST_REQUESTS);
      hide PostSane, Spaced, Ordered, Recent, AskAll;
      var wait := Ask(times, now, POST_WINDOW, POST_REQUESTS).retryAfter;
      RetryAfterHonest(times, now, later, POST_WINDOW, POST_REQUESTS);
      if Recent(times, now - POST_WINDOW)[0] + POST_WINDOW - now >= 1.0
         && forall i :: 0 <= i < |requests| ==> now <= requests[i] <= now + wait as real {
        NoneAdmittedWhileWaiting(times, now, requests, POST_WINDOW, POST_REQUESTS);
      }
    }
  }

  // ---- The limiter on uploads, by user name

  ghost predicate OpenExact(l: Limits, inFlight: map<string, int>, open: map<string, int>) {
    && (forall k :: Flying(inFlight, k) == Flying(open, k))
    && (forall k :: 0 <= Flying(open, k) && (Flying(open, k) <= l.concurrent || Flying(open, k) == 0))
  }

  /**
   What the upload limiter keeps true: exact open counts always, and the rule's history until keys are evicted
   over the cap.
  */
  ghost predicate UploadSane(l: Limits, attempts: map<string, seq<real>>, inFlight: map<string, int>,
                             admitted: map<string, seq<real>>, open: map<string, int>, clock: real, evicted: bool)
  {
    && Sound(l)
    && OpenExact(l, inFlight, open)
    && (!evicted ==> Agrees(attempts, admitted, clock - l.window) && Lawful(admitted, clock, l.window, l.requests))
  }

  predicate AllIdle(inFlight: map<string, int>, keys: set<string>) {
    forall k :: k in keys ==> Flying(inFlight, k) <= 0
  }

  /** No user with an open upload lost its entry. */
  ghost predicate Spared(open: map<string, int>, before: map<string, seq<real>>, after: map<string, seq<real>>,
                         inFlight: map<string, int>)
  {
    forall k :: Flying(open, k) > 0 ==> (k in after <==> k in before) && k in inFlight
  }

  lemma SparedWithout(l: Limits, attempts: map<string, seq<real>>, inFlight: map<string, int>, open: map<string, int>,
                      keys: set<string>)
    requires OpenExact(l, inFlight, open) && AllIdle(inFlight, keys)
    ensures Spared(open, attempts, attempts - keys, inFlight - keys)
  {
    forall k | Flying(open, k) > 0
      ensures (k in attempts - keys <==> k in attempts) && k in inFlight - keys
    {
      assert Flying(inFlight, k) == Flying(open, k);
    }
  }

  lemma SparedTwice(open: map<string, int>, a: map<string, seq<real>>, b: map<string, seq<real>>,
                    c: map<string, seq<real>>, f: map<string, int>, g: map<string, int>)
    requires Spared(open, a, b, f) && Spared(open, b, c, g)
    ensures Spared(open, a, c, g)
  {
  }

  lemma OpenExactWithout(l: Limits, inFlight: map<string, int>, open: map<string, int>, keys: set<string>)
    requires OpenExact(l, inFlight, open) && AllIdle(inFlight, keys)
    ensures OpenExact(l, inFlight - keys, open)
  {
    var next := inFlight - keys;
    forall k ensures Flying(next, k) == Flying(open, k) {
      assert Flying(inFlight, k) == Flying(open, k);
    }
  }

  lemma OpenExactPut(l: Limits, inFlight: map<string, int>, open: map<string, int>, key: string, n: int)
    requires OpenExact(l, inFlight, open) && 0 <= n && (n <= l.concurrent || n == 0)
    ensures OpenExact(l, inFlight[key := n], open[key := n])
    ensures n == 0 ==> OpenExact(l, inFlight - {key}, open[key := 0])
  {
    var put, next := inFlight[key := n], open[key := n];
    forall k
      ensures Flying(put, k) == Flying(next, k) && 0 <= Flying(next, k)
              && (Flying(next, k) <= l.concurrent || Flying(next, k) == 0)
    {
      assert Flying(inFlight, k) == Flying(open, k) && 0 <= Flying(open, k);
    }
    if n == 0 {
      var popped := inFlight - {key};
      forall k ensures Flying(popped, k) == Flying(next, k) {
        assert Flying(inFlight, k) == Flying(open, k);
      }
    }
  }

  lemma SaneSound(l: Limits, attempts: map<string, seq<real>>, inFlight: map<string, int>,
                  admitted: map<string, seq<real>>, open: map<string, int>, clock: real, evicted: bool)
    requires UploadSane(l, attempts, inFlight, admitted, open, clock, evicted)
    ensures Sound(l)
  {
  }

  function StaleKeys(attempts: map<string, seq<real>>, inFlight: map<string, int>, cutoff: real): set<string> {
    set k | k in attempts && Stale(attempts[k], cutoff) && Flying(inFlight, k) <= 0
  }

  lemma StaleKeysIdle(l: Limits, attempts: map<string, seq<real>>, inFlight: map<string, int>,
                      admitted: map<string, seq<real>>, open: map<string, int>, clock: real, now: real, evicted: bool)
    requires UploadSane(l, attempts, inFlight, admitted, open, clock, evicted) && clock <= now
    ensures var keys := StaleKeys(attempts, inFlight, now - l.window * 2.0);
            && Sound(l) && OpenExact(l, inFlight, open)
            && AllIdle(inFlight, keys) && |attempts - keys| <= |attempts|
            && (!evicted ==> Agrees(attempts - keys, admitted, now - l.window))
  {
    var keys := StaleKeys(attempts, inFlight, now - l.window * 2.0);
    hide Recent, Agrees, Lawful, OpenExact, Flying, Stale;
    SizeWithout(attempts, keys);
    if !evicted {
      AgreesLater(attempts, admitted, clock - l.window, now - l.window);
      AgreesWithout(attempts, admitted, keys, now, l.window);
    }
  }

  /** The three ways a begin leaves the tables. */
  lemma UploadSaneAfter(l: Limits, attempts: map<string, seq<real>>, inFlight: map<string, int>,
                        admitted: map<string, seq<real>>, open: map<string, int>, clock: real, now: real,
                        evicted: bool, key: string)
    requires clock <= now && Sound(l) && OpenExact(l, inFlight, open)
    requires !evicted ==> Agrees(attempts, admitted, now - l.window) && Lawful(admitted, clock, l.window, l.requests)
    ensures var recent := Recent(Times(attempts, key), now - l.window);
            && Flying(inFlight, key) == Flying(open, key)
            && (!evicted ==> recent == Recent(Times(admitted, key), now - l.window))
            && UploadSane(l, attempts[key := recent], inFlight, admitted, open, now, evicted)
            && (Flying(open, key) < l.concurrent && |recent| < l.requests ==>
                  UploadSane(l, attempts[key := recent + [now]], inFlight[key := Flying(inFlight, key) + 1],
                             admitted[key := Times(admitted, key) + [now]], open[key := Flying(open, key) + 1],
                             now, evicted))
  {
    hide Agrees, Lawful, Recent, Flying;
    var floor := now - l.window;
    var recent := Recent(Times(attempts, key), floor);
    if Flying(open, key) < l.concurrent {
      OpenExactPut(l, inFlight, open, key, Flying(open, key) + 1);
    }
    hide OpenExact;
    if !evicted {
      AgreesAt(attempts, admitted, key, floor);
      LawfulLater(admitted, clock, now, l.window, l.requests);
      AgreesPut(attempts, admitted, key, floor);
      AgreesAdmit(attempts, admitted, key, now, floor);
      if |recent| < l.requests {
        LawfulAdmit(admitted, key, now, l.window, l.requests);
      }
    }
  }

  lemma EndSane(l: Limits, attempts: map<string, seq<real>>, inFlight: map<string, int>,
                admitted: map<string, seq<real>>, open: map<string, int>, clock: real, evicted: bool, user: string)
    requires UploadSane(l, attempts, inFlight, admitted, open, clock, evicted)
    ensures var n := Flying(inFlight, user);
            var g := UploadRule.End(LedgerOf(admitted, open, user));
            && (n <= 1 ==> UploadSane(l, attempts, inFlight - {user}, admitted, open[user := 0], clock, evicted)
                           && Booked(admitted, open, admitted, open[user := 0], user, g))
            && (n > 1 ==> UploadSane(l, attempts, inFlight[user := n - 1], admitted, open[user := n - 1], clock,
                                     evicted)
                          && Booked(admitted, open, admitted, open[user := n - 1], user, g))
  {
    var left := if Flying(inFlight, user) <= 1 then 0 else Flying(inFlight, user) - 1;
    assert Flying(inFlight, user) == Flying(open, user);
    OpenExactPut(l, inFlight, open, user, left);
    BookedPut(admitted, open, user, Times(admitted, user), left);
    hide Booked, OpenExact, Agrees, Lawful;
  }

  /** The rule decided for this user, and its new ledger was booked. */
  ghost predicate Decided(l: Limits, a: map<string, seq<real>>, o: map<string, int>, a': map<string, seq<real>>,
                          o': map<string, int>, user: string, now: real, verdict: Verdict)
    requires Sound(l)
  {
    var (g, decided) := UploadRule.Begin(l, LedgerOf(a, o, user), now);
    verdict == decided && Booked(a, o, a', o', user, g)
  }

  /** What the rule decides, read off the pruned list. */
  lemma DecidedByTables(l: Limits, times: seq<real>, admitted: map<string, seq<real>>, open: map<string, int>,
                        now: real, user: string)
    requires Sound(l) && Recent(times, now - l.window) == Recent(Times(admitted, user), now - l.window)
    ensures var recent := Recent(times, now - l.window);
            var n := Flying(open, user);
            if n >= l.concurrent then Decided(l, admitted, open, admitted, open, user, now, ConcurrencyLimited)
            else if |recent| >= l.requests then
              Decided(l, admitted, open, admitted, open, user, now, RateLimited(RetryAfter(recent[0], l.window, now)))
            else
              Decided(l, admitted, open, admitted[user := Times(admitted, user) + [now]], open[user := n + 1], user,
                      now, Allowed)
  {
    BookedSame(admitted, open, user);
    BookedPut(admitted, open, user, Times(admitted, user) + [now], Flying(open, user) + 1);
    hide Booked, Recent, RetryAfter;
  }

  /** The decision of `begin_upload_session`, from the counter and the pruned list. */
  function Judge(l: Limits, flying: int, recent: seq<real>, now: real): Verdict
    requires Sound(l)
  {
    if flying >= l.concurrent then ConcurrencyLimited
    else if |recent| >= l.requests then RateLimited(RetryAfter(recent[0], l.window, now))
    else Allowed
  }

  /** A refusal leaves the tables sane, and until an eviction it is the rule's refusal. */
  lemma RefusalSane(l: Limits, attempts: map<string, seq<real>>, inFlight: map<string, int>,
                    admitted: map<string, seq<real>>, open: map<string, int>, clock: real, now: real, evicted: bool,
                    user: string, recent: seq<real>)
    requires clock <= now && Sound(l) && OpenExact(l, inFlight, open)
             && recent == Recent(Times(attempts, user), now - l.window)
    requires !evicted ==> Agrees(attempts, admitted, now - l.window) && Lawful(admitted, clock, l.window, l.requests)
    requires Judge(l, Flying(inFlight, user), recent, now) != Allowed
    ensures UploadSane(l, attempts[user := recent], inFlight, admitted, open, now, evicted)
    ensures !evicted ==>
              Decided(l, admitted, open, admitted, open, user, now, Judge(l, Flying(inFlight, user), recent, now))
  {
    hide Agrees, Lawful, Recent, UploadSane, OpenExact, Flying, Decided, RetryAfter;
    UploadSaneAfter(l, attempts, inFlight, admitted, open, clock, now, evicted, user);
    if !evicted {
      DecidedByTables(l, Times(attempts, user), admitted, open, now, user);
    }
  }

  /** So does an admission, once it is recorded. */
  lemma AdmissionSane(l: Limits, attempts: map<string, seq<real>>, inFlight: map<string, int>,
                      admitted: map<string, seq<real>>, open: map<string, int>, clock: real, now: real, evicted: bool,
                      user: string, recent: seq<real>)
    requires clock <= now && Sound(l) && OpenExact(l, inFlight, open)
             && recent == Recent(Times(attempts, user), now - l.window)
    requires !evicted ==> Agrees(attempts, admitted, now - l.window) && Lawful(admitted, clock, l.window, l.requests)
    requires Judge(l, Flying(inFlight, user), recent, now) == Allowed
    ensures var booked, n := admitted[user := Times(admitted, user) + [now]], open[user := Flying(open, user) + 1];
            && UploadSane(l, attempts[user := recent + [now]], inFlight[user := Flying(inFlight, user) + 1], booked,
                          n, now, evicted)
            && (!evicted ==> Decided(l, admitted, open, booked, n, user, now, Allowed))
  {
    hide Agrees, Lawful, Recent, UploadSane, OpenExact, Flying, Decided, RetryAfter;
    UploadSaneAfter(l, attempts, inFlight, admitted, open, clock, now, evicted, user);
    if !evicted {
      DecidedByTables(l, Times(attempts, user), admitted, open, now, user);
    }
  }

  class UploadLimiter {
    const limits: Limits
    var attempts: map<string, seq<real>>
    var inFlight: map<string, int>

    /**
     Everything ever admitted, the sessions open, the last time seen, and whether keys were ever evicted over
     the cap.
    */
    ghost var admitted: map<string, seq<real>>
    ghost var open: map<string, int>
    ghost var clock: real
    ghost var evicted: bool

    ghost predicate Valid()
      reads this
    {
      UploadSane(limits, attempts, inFlight, admitted, open, clock, evicted)
    }

    ghost function Book(user: string): Ledger
      reads this
    {
      LedgerOf(admitted, open, user)
    }

    constructor (limits: Limits, start: real)
      requires Sound(limits)
      ensures Valid() && !evicted && clock == start && this.limits == limits
      ensures admitted == map[] && open == map[]
    {
      this.limits := limits;
      attempts, inFlight, admitted, open, clock, evicted := map[], map[], map[], map[], start, false;
    }

    /** Drops keys from both tables, none of them with an upload open. */
    method Drop(keys: set<string>)
      requires Sound(limits) && OpenExact(limits, inFlight, open)
      requires AllIdle(inFlight, keys)
      modifies `attempts, `inFlight
      ensures attempts == old(attempts) - keys && inFlight == old(inFlight) - keys
      ensures OpenExact(limits, inFlight, open)
      ensures Spared(open, old(attempts), attempts, inFlight)
    {
      OpenExactWithout(limits, inFlight, open, keys);
      SparedWithout(limits, attempts, inFlight, open, keys);
      hide OpenExact, Spared, Flying;
      attempts := attempts - keys;
      inFlight := inFlight - keys;
    }

    method DropStale(now: real)
      requires Valid() && clock <= now
      modifies `attempts, `inFlight
      ensures OpenExact(limits, inFlight, open) && Spared(open, old(attempts), attempts, inFlight)
      ensures |attempts| <= |old(attempts)|
      ensures attempts == old(attempts) - StaleKeys(old(attempts), old(inFlight), now - limits.window * 2.0)
      ensures !evicted ==> Agrees(attempts, admitted, now - limits.window)
    {
      StaleKeysIdle(limits, attempts, inFlight, admitted, open, clock, now, evicted);
      hide Agrees, Lawful, StaleKeys, OpenExact, Spared, AllIdle, UploadSane;
      Drop(StaleKeys(attempts, inFlight, now - limits.window * 2.0));
    }

    /** `_prune_stale_upload_rate_entries`; which of the idle keys go over the cap is left open. */
    method Prune(now: real)
      requires Valid() && clock <= now
      modifies `attempts, `inFlight, `evicted
      ensures OpenExact(limits, inFlight, open) && Spared(open, old(attempts), attempts, inFlight)
      ensures evicted ==> old(evicted) || |old(attempts)| > MAX_TRACKED_KEYS
      ensures !evicted ==> !old(evicted) && Agrees(attempts, admitted, now - limits.window)
                           && Lawful(admitted, clock, limits.window, limits.requests)
      ensures var current := old(attempts) - StaleKeys(old(attempts), old(inFlight), now - limits.window * 2.0);
              && (forall k :: k in attempts ==> k in current && attempts[k] == current[k])
              && (|current| <= MAX_TRACKED_KEYS ==> attempts == current)
    {
      hide StaleKeys;
      DropStale(now);
      hide Agrees, Lawful, OpenExact, Flying, Spared;
      ghost var fresher, flying := attempts, inFlight;
      if |attempts| > MAX_TRACKED_KEYS {
        assert AllIdle(inFlight, {});
        var victims: set<string> :| victims <= attempts.Keys && AllIdle(inFlight, victims);
        Drop(victims);
        SparedTwice(open, old(attempts), fresher, attempts, flying, inFlight);
        evicted := true;
      }
    }

    method Weigh(user: string, recent: seq<real>, now: real) returns (verdict: Verdict)
      requires Sound(limits)
      ensures verdict == Judge(limits, Flying(inFlight, user), recent, now)
    {
      if Flying(inFlight, user) >= limits.concurrent {
        verdict := ConcurrencyLimited;
      } else if |recent| >= limits.requests {
        verdict := RateLimited(RetryAfter(recent[0], limits.window, now));
      } else {
        verdict := Allowed;
      }
    }

    method Record(user: string, times: seq<real>, now: real)
      modifies `attempts, `inFlight, `admitted, `open
      ensures attempts == old(attempts)[user := times]
              && inFlight == old(inFlight)[user := Flying(old(inFlight), user) + 1]
      ensures admitted == old(admitted)[user := Times(old(admitted), user) + [now]]
      ensures open == old(open)[user := Flying(old(open), user) + 1]
    {
      attempts := attempts[user := times];
      inFlight := inFlight[user := Flying(inFlight, user) + 1];
      admitted := admitted[user := Times(admitted, user) + [now]];
      open := open[user := Flying(open, user) + 1];
    }

    method Decide(user: string, now: real) returns (verdict: Verdict)
      requires Sound(limits) && OpenExact(limits, inFlight, open) && clock <= now
      requires !evicted ==> Agrees(attempts, admitted, now - limits.window)
                            && Lawful(admitted, clock, limits.window, limits.requests)
      modifies `attempts, `inFlight, `admitted, `open, `clock
      ensures Valid()
      ensures !evicted ==> Decided(limits, old(admitted), old(open), admitted, open, user, now, verdict)
    {
      hide Agrees, Lawful, Recent, UploadSane, OpenExact, Flying, Decided, Times, Judge;
      var recent := Recent(Times(attempts, user), now - limits.window);
      verdict := Weigh(user, recent, now);
      if verdict == Allowed {
        AdmissionSane(limits, attempts, inFlight, admitted, open, clock, now, evicted, user, recent);
        Record(user, recent + [now], now);
      } else {
        RefusalSane(limits, attempts, inFlight, admitted, open, clock, now, evicted, user, recent);
        attempts := attempts[user := recent];
      }
      clock := now;
    }

    /**
     `begin_upload_session`: until keys are evicted over the cap, it decides as the rule does on the
     whole history, and books the session the same way. A blank name is always let in, unrecorded.
    */
    method Begin(username: string, now: real) returns (verdict: Verdict)
      requires Valid() && clock <= now
      modifies this
      ensures Sound(limits) && Valid()
      ensures evicted ==> old(evicted) || |old(attempts)| > MAX_TRACKED_KEYS
      ensures var user := Lower(Strip(username));
              && (user == "" ==> verdict == Allowed && admitted == old(admitted) && open == old(open))
              && (user != "" && !evicted ==>
                  Decided(limits, old(admitted), old(open), admitted, open, user, now, verdict))
    {
      var user := Lower(Strip(username));
      hide UploadSane, Booked, Agrees, Lawful, OpenExact, Flying, Spared, Decided, Lower, Strip;
      SaneSound(limits, attempts, inFlight, admitted, open, clock, evicted);
      if user == "" {
        verdict := Allowed;
      } else {
        Prune(now);
        verdict := Decide(user, now);
      }
    }

    /** `end_upload_session`. */
    method End(username: string)
      requires Valid()
      modifies `inFlight, `open
      ensures Valid()
      ensures var user := Lower(Strip(username));
              if user == "" then open == old(open)
              else Booked(admitted, old(open), admitted, open, user, UploadRule.End(old(Book(user))))
    {
      var user := Lower(Strip(username));
      hide UploadSane, Booked, Flying, Lower, Strip, Booked, UploadRule.End;
      if user != "" {
        EndSane(limits, attempts, inFlight, admitted, open, clock, evicted, user);
        var current := Flying(inFlight, user);
        if current <= 1 {
          inFlight := inFlight - {user};
          open := open[user := 0];
        } else {
          inFlight := inFlight[user := current - 1];
          open := open[user := current - 1];
        }
      }
    }

    /**
     The counter the program consults is exactly the number of open sessions, and within the limit, even after
     an eviction.
    */
    lemma InFlightIsOpen(user: string)
      requires Valid()
      ensures Flying(inFlight, user) == Book(user).open
      ensures 0 <= Book(user).open <= (if limits.concurrent > 0 then limits.concurrent else 0)
    {
      assert Flying(inFlight, user) == Flying(open, user);
    }

    /** Until an eviction, no window holds more admissions of a user than the limit. */
    lemma WindowsBounded(user: string, from: real)
      requires Valid() && !evicted
      ensures CountWithin(Book(user).admitted, from, from + limits.window) <= limits.requests
    {
      assert Disciplined(Times(admitted, user), clock, limits.window, limits.requests);
      WindowHoldsAtMost(Book(user).admitted, from, limits.window, limits.requests);
    }
  }
}
