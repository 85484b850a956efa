/**
 The rule both sliding-window limiters decide by, over the whole history of admissions of one key.
 Time is a real number of seconds.
*/
module SlidingWindow {

  /** `[t for t in times if t >= floor]`. */
  function Recent(times: seq<real>, floor: real): seq<real> {
    if times == [] then []
    else if times[0] >= floor then [times[0]] + Recent(times[1..], floor)
    else Recent(times[1..], floor)
  }

  /** `max(times)`. */
  function Latest(times: seq<real>): (r: real)
    requires times != []
    ensures r in times && forall t :: t in times ==> t <= r
  {
    if |times| == 1 then times[0]
    else
      var rest := Latest(times[1..]);
      assert times == [times[0]] + times[1..];
      if times[0] >= rest then times[0] else rest
  }

  /** The prune test of one key: `not attempts or max(attempts) < cutoff`. */
  predicate Stale(times: seq<real>, cutoff: real) {
    times == [] || Latest(times) < cutoff
  }

  ghost predicate Ordered(times: seq<real>) {
    forall i, j :: 0 <= i <= j < |times| ==> times[i] <= times[j]
  }

  ghost predicate NotAfter(times: seq<real>, now: real) {
    forall i :: 0 <= i < |times| ==> times[i] <= now
  }

  /** Any `limit + 1` admissions in a row take more than a window. */
  ghost predicate Spaced(times: seq<real>, window: real, limit: nat) {
    forall i :: 0 <= i && i + limit < |times| ==> times[i + limit] - times[i] > window
  }

  // ---- Facts about `Recent`

  lemma {:induction false} RecentTwice(times: seq<real>, early: real, late: real)
    requires early <= late
    ensures Recent(Recent(times, early), late) == Recent(times, late)
  {
    if times != [] {
      RecentTwice(times[1..], early, late);
      if times[0] >= early {
        assert Recent(times, early)[1..] == Recent(times[1..], early);
      }
    }
  }

  lemma {:induction false} RecentAppend(times: seq<real>, t: real, floor: real)
    ensures Recent(times + [t], floor) == Recent(times, floor) + (if t >= floor then [t] else [])
  {
    if times == [] {
      assert times + [t] == [t] && [t][1..] == [];
    } else {
      assert (times + [t])[1..] == times[1..] + [t];
      RecentAppend(times[1..], t, floor);
    }
  }

  lemma {:induction false} RecentNothing(times: seq<real>, floor: real)
    requires forall i :: 0 <= i < |times| ==> times[i] < floor
    ensures Recent(times, floor) == []
  {
    if times != [] {
      RecentNothing(times[1..], floor);
    }
  }

  lemma {:induction false} RecentAll(times: seq<real>, floor: real)
    requires forall i :: 0 <= i < |times| ==> times[i] >= floor
    ensures Recent(times, floor) == times
  {
    if times != [] {
      RecentAll(times[1..], floor);
    }
  }

  /** Two lists that agree on a window agree on every later one, and still agree once both record the same admission. */
  lemma AgreeLater(a: seq<real>, b: seq<real>, early: real, late: real)
    requires early <= late && Recent(a, early) == Recent(b, early)
    ensures Recent(a, late) == Recent(b, late)
    ensures Recent(Recent(a, late), late) == Recent(b, late)
  {
    RecentTwice(a, early, late);
    RecentTwice(b, early, late);
    RecentTwice(a, late, late);
  }

  lemma OrderedRest(times: seq<real>)
    requires times != [] && Ordered(times)
    ensures Ordered(times[1..])
  {
    assert forall i :: 0 <= i < |times[1..]| ==> times[1..][i] == times[i + 1];
  }

  /** In an ordered history the recent admissions are its tail. */
  lemma {:induction false} RecentIsTail(times: seq<real>, floor: real) returns (cut: nat)
    requires Ordered(times)
    ensures cut <= |times| && Recent(times, floor) == times[cut..]
    ensures forall i :: 0 <= i < |times| ==> (i < cut <==> times[i] < floor)
  {
    if times == [] {
      cut := 0;
    } else {
      OrderedRest(times);
      if times[0] >= floor {
        RecentAll(times, floor);
        cut := 0;
      } else {
        var c := RecentIsTail(times[1..], floor);
        cut := c + 1;
        assert times[1..][c..] == times[cut..];
        forall i | 0 <= i < |times|
          ensures i < cut <==> times[i] < floor
        {
          if i > 0 {
            assert times[i] == times[1..][i - 1];
          }
        }
      }
    }
  }

  // ---- The limit

  /** How many admissions fall in the closed interval. */
  function CountWithin(times: seq<real>, from: real, to: real): nat {
    if times == [] then 0 else (if from <= times[0] <= to then 1 else 0) + CountWithin(times[1..], from, to)
  }

  /**
   A request is let in exactly when the history with it still has more than a window between any `limit + 1`
   admissions.
  */
  lemma AdmitIffSpaced(times: seq<real>, now: real, window: real, limit: nat)
    requires Ordered(times) && NotAfter(times, now) && Spaced(times, window, limit) && 0 < limit
    ensures |Recent(times, now - window)| < limit <==> Spaced(times + [now], window, limit)
    ensures Ordered(times + [now])
  {
    var longer := times + [now];
    var cut := RecentIsTail(times, now - window);
    if |times| - cut >= limit {
      var i := |times| - limit;
      assert longer[i + limit] - longer[i] <= window;
    } else {
      forall i | 0 <= i && i + limit < |longer|
        ensures longer[i + limit] - longer[i] > window
      {
        if i + limit < |times| {
          assert times[i + limit] - times[i] > window;
        }
      }
    }
  }

  lemma {:induction false} CountBounds(times: seq<real>, from: real, to: real)
    ensures CountWithin(times, from, to) <= |times|
    ensures (forall i :: 0 <= i < |times| ==> times[i] > to) ==> CountWithin(times, from, to) == 0
  {
    if times != [] {
      CountBounds(times[1..], from, to);
    }
  }

  lemma {:induction false} CountSplit(a: seq<real>, b: seq<real>, from: real, to: real)
    ensures CountWithin(a + b, from, to) == CountWithin(a, from, to) + CountWithin(b, from, to)
  {
    if a == [] {
      assert a + b == b;
    } else {
      assert (a + b)[1..] == a[1..] + b;
      CountSplit(a[1..], b, from, to);
    }
  }

  /** No closed window of `window` seconds holds more than `limit` admissions. */
  lemma {:induction false} WindowHoldsAtMost(times: seq<real>, from: real, window: real, limit: nat)
    requires Ordered(times) && Spaced(times, window, limit)
    ensures CountWithin(times, from, from + window) <= limit
  {
    if times != [] {
      var rest := times[1..];
      assert forall i :: 0 <= i < |rest| ==> rest[i] == times[i + 1];
      assert Spaced(rest, window, limit) by {
        forall i | 0 <= i && i + limit < |rest|
          ensures rest[i + limit] - rest[i] > window
        {
          assert times[i + 1 + limit] - times[i + 1] > window;
        }
      }
      if from <= times[0] {
        var n := if limit <= |times| then limit else |times|;
        assert times == times[..n] + times[n..];
        CountSplit(times[..n], times[n..], from, from + window);
        CountBounds(times[..n], from, from + window);
        forall i | 0 <= i < |times[n..]|
          ensures times[n..][i] > from + window
        {
          assert times[0 + limit] - times[0] > window;
        }
        CountBounds(times[n..], from, from + window);
      } else {
        WindowHoldsAtMost(rest, from, window, limit);
      }
    }
  }

  // ---- One decision, and the wait it tells the caller

  datatype Answer = Admit | Wait(retryAfter: int)

  /** `int(max(1, oldest + window - now))`. */
  function RetryAfter(oldest: real, window: real, now: real): int {
    var wait := oldest + window - now;
    if wait >= 1.0 then wait.Floor else 1
  }

  function Ask(times: seq<real>, now: real, window: real, limit: nat): Answer
    requires 0 < limit
  {
    var recent := Recent(times, now - window);
    if |recent| >= limit then Wait(RetryAfter(recent[0], window, now)) else Admit
  }

  lemma SpacedAt(times: seq<real>, now: real, window: real, limit: nat, i: nat)
    requires NotAfter(times, now) && Spaced(times, window, limit) && i + limit < |times|
    ensures times[i] < now - window
  {
    assert times[i + limit] <= now;
  }

  /** A window never holds more than the limit, counted back from the newest admission. */
  lemma AtMostLimit(times: seq<real>, now: real, window: real, limit: nat, cut: nat)
    requires NotAfter(times, now) && Spaced(times, window, limit) && cut < |times| && times[cut] >= now - window
    ensures |times| - cut <= limit
  {
    if cut + limit < |times| {
      SpacedAt(times, now, window, limit, cut);
    }
  }

  /**
   After a refusal with no admission since, a request gets in exactly when the oldest counted admission has left
   the window.
  */
  lemma AdmittedIff(times: seq<real>, now: real, later: real, window: real, limit: nat)
    requires 0 < limit && 0.0 <= window && Ordered(times) && NotAfter(times, now) && Spaced(times, window, limit)
    requires now <= later && Ask(times, now, window, limit).Wait?
    ensures Ask(times, later, window, limit).Admit? <==> later > Recent(times, now - window)[0] + window
  {
    var cut := RecentIsTail(times, now - window);
    var next := RecentIsTail(times, later - window);
    assert Recent(times, now - window)[0] == times[cut];
    AtMostLimit(times, now, window, limit, cut);
    assert cut < next <==> times[cut] < later - window;
  }

  /**
   What `retry_after` is worth: when the wait was at least a second, asking before it is over is
   refused; and a request one second after it is let in.
  */
  lemma RetryAfterHonest(times: seq<real>, now: real, later: real, window: real, limit: nat)
    requires 0 < limit && 0.0 <= window && Ordered(times) && NotAfter(times, now) && Spaced(times, window, limit)
    requires now <= later && Ask(times, now, window, limit).Wait?
    ensures var answer := Ask(times, now, window, limit);
            var oldest := Recent(times, now - window)[0];
            && answer.retryAfter >= 1
            && (oldest + window - now < 1.0 ==> answer.retryAfter == 1)
            && (oldest + window - now >= 1.0 ==>
                  answer.retryAfter as real <= oldest + window - now < (answer.retryAfter + 1) as real)
            && (oldest + window - now >= 1.0 && later <= now + answer.retryAfter as real ==>
                  Ask(times, later, window, limit).Wait?)
            && (later >= now + (answer.retryAfter + 1) as real ==> Ask(times, later, window, limit).Admit?)
  {
    AdmittedIff(times, now, later, window, limit);
  }

  /** The admissions after a row of requests. */
  function AskAll(times: seq<real>, requests: seq<real>, window: real, limit: nat): seq<real>
    requires 0 < limit
    decreases |requests|
  {
    if requests == [] then times
    else
      AskAll(match Ask(times, requests[0], window, limit) { case Admit => times + [requests[0]] case Wait(_) => times },
             requests[1..], window, limit)
  }

  /** After a refusal with a wait of a second or more, no request whatever gets in until the wait is over. */
  lemma {:induction false} NoneAdmittedWhileWaiting(times: seq<real>, now: real, requests: seq<real>, window: real,
                                                    limit: nat)
    requires 0 < limit && 0.0 <= window && Ordered(times) && NotAfter(times, now) && Spaced(times, window, limit)
    requires Ask(times, now, window, limit).Wait? && Recent(times, now - window)[0] + window - now >= 1.0
    requires forall i :: 0 <= i < |requests| ==>
      now <= requests[i] <= now + Ask(times, now, window, limit).retryAfter as real
    ensures AskAll(times, requests, window, limit) == times
    decreases |requests|
  {
    if requests != [] {
      assert now <= requests[0] <= now + Ask(times, now, window, limit).retryAfter as real;
      RetryAfterHonest(times, now, requests[0], window, limit);
      var rest := requests[1..];
      assert forall i :: 0 <= i < |rest| ==> rest[i] == requests[i + 1];
      NoneAdmittedWhileWaiting(times, now, rest, window, limit);
    }
  }
}
