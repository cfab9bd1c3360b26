/** What the sliding-window limiter guarantees over whole runs. */
module SlidingWindowRuns {
  import opened Timeline
  import opened SlidingWindow

  /** Admitted requests stamped in the half-open interval [lo, lo + window) of milliseconds. */
  function InWindow(h: seq<nat>, lo: int, window: nat): nat {
    Count(h, lo * MS, (lo + window) * MS)
  }

  ghost predicate WithinLimit(h: seq<nat>, window: nat, limit: int) {
    forall lo :: InWindow(h, lo, window) <= limit
  }

  ghost predicate NoRepeats(h: seq<nat>) {
    forall i, j :: 0 <= i < j < |h| ==> h[i] != h[j]
  }

  /** The history of admitted requests once `requests` have been served after h. */
  ghost function Serve(h: seq<nat>, requests: seq<nat>, window: nat, limit: int): seq<nat>
    decreases |requests|
  {
    if requests == [] then h
    else
      var next := if Decide(h, requests[0], window, limit).allowed then h + [requests[0]] else h;
      Serve(next, requests[1..], window, limit)
  }

  lemma InWindowAppend(h: seq<nat>, t: nat, lo: int, window: nat)
    ensures InWindow(h + [t], lo, window)
            == InWindow(h, lo, window) + if lo <= Ms(t) < lo + window then 1 else 0
  {
    CountAppend(h, t, lo * MS, (lo + window) * MS);
  }

  lemma FrontHasNoRepeats(h: seq<nat>)
    requires |h| > 0 && NoRepeats(h)
    ensures NoRepeats(h[..|h| - 1]) && h[|h| - 1] !in h[..|h| - 1]
  {}

  /** The set the script counts, against the history: repeated instants collapse. */
  lemma {:induction false} LiveIsWindow(h: seq<nat>, nowMs: nat, window: nat)
    requires forall i :: 0 <= i < |h| ==> Ms(h[i]) <= nowMs
    ensures |Live(h, window, nowMs)| <= InWindow(h, nowMs - window + 1, window)
    ensures NoRepeats(h) ==> |Live(h, window, nowMs)| == InWindow(h, nowMs - window + 1, window)
    ensures Live(h, window, nowMs) == {} ==> InWindow(h, nowMs - window + 1, window) == 0
  {
    if h == [] {
      assert Live(h, window, nowMs) == {};
    } else {
      var n := |h| - 1;
      var front, t := h[..n], h[n];
      assert h == front + [t];
      LiveIsWindow(front, nowMs, window);
      InWindowAppend(front, t, nowMs - window + 1, window);
      var late := Ms(t) + window > nowMs;
      assert Live(h, window, nowMs) == Live(front, window, nowMs) + if late then {t} else {};
      if NoRepeats(h) { FrontHasNoRepeats(h); }
    }
  }

  /** A request is admitted exactly when the history stays within the limit with it at its end. */
  lemma AdmitsIffWithinLimit(h: seq<nat>, now: nat, window: nat, limit: int)
    requires limit == 1 || (limit > 1 && NoRepeats(h))
    requires WithinLimit(h, window, limit)
    requires forall i :: 0 <= i < |h| ==> h[i] <= now
    ensures Decide(h, now, window, limit).allowed <==> WithinLimit(h + [now], window, limit)
  {
    var first := Ms(now) - window + 1;
    LiveIsWindow(h, Ms(now), window);
    InWindowAppend(h, now, first, window);
    if WithinLimit(h + [now], window, limit) {
      assert InWindow(h + [now], first, window) <= limit;
    }
    if Decide(h, now, window, limit).allowed {
      forall lo
        ensures InWindow(h + [now], lo, window) <= limit
      {
        InWindowAppend(h, now, lo, window);
        assert InWindow(h, lo, window) <= limit;
        if lo <= Ms(now) < lo + window { EarlierStartHoldsMore(h, now, lo, first, window); }
      }
    }
  }

  /** Of the windows that hold the newest instant, the one it closes holds the most. */
  lemma {:induction false} EarlierStartHoldsMore(h: seq<nat>, now: nat, lo: int, first: int, window: nat)
    requires forall i :: 0 <= i < |h| ==> h[i] <= now
    requires first == Ms(now) - window + 1 <= lo
    ensures InWindow(h, lo, window) <= InWindow(h, first, window)
  {
    if h != [] {
      var n := |h| - 1;
      assert h == h[..n] + [h[n]];
      EarlierStartHoldsMore(h[..n], now, lo, first, window);
      InWindowAppend(h[..n], h[n], lo, window);
      InWindowAppend(h[..n], h[n], first, window);
    }
  }

  ghost predicate Increasing(h: seq<nat>) {
    forall i, j :: 0 <= i < j < |h| ==> h[i] < h[j]
  }

  ghost predicate NonDecreasing(h: seq<nat>) {
    forall i, j :: 0 <= i < j < |h| ==> h[i] <= h[j]
  }

  lemma SplitIncreasing(h: seq<nat>, more: seq<nat>)
    requires |more| > 0 && Increasing(h + more)
    ensures Increasing(h + [more[0]] + more[1..]) && Increasing(h + more[1..])
    ensures more[0] !in h
  {
    var all, skipped := h + more, h + more[1..];
    assert h + [more[0]] + more[1..] == all;
    assert forall i :: 0 <= i < |h| ==> all[i] == h[i];
    assert all[|h|] == more[0];
    assert forall i :: 0 <= i < |skipped| ==> skipped[i] == all[if i < |h| then i else i + 1];
  }

  lemma LiveAppend(h: seq<nat>, t: nat, window: nat)
    requires window >= 1 && t !in h
    ensures |Live(h + [t], window, Ms(t))| == |Live(h, window, Ms(t))| + 1
  {
    assert Live(h + [t], window, Ms(t)) == Live(h, window, Ms(t)) + {t};
  }

  /** Every run of requests at distinct instants stays within the limit in every window. */
  lemma {:induction false} ServeWithinLimit(h: seq<nat>, requests: seq<nat>, window: nat, limit: int)
    requires limit >= 1 && WithinLimit(h, window, limit)
    requires Increasing(h + requests) || (limit == 1 && NonDecreasing(h + requests))
    ensures WithinLimit(Serve(h, requests, window, limit), window, limit)
    decreases |requests|
  {
    if requests != [] {
      var t, rest := requests[0], requests[1..];
      var all := h + requests;
      assert forall i :: 0 <= i < |h| ==> all[i] == h[i];
      assert all[|h|] == t;
      AdmitsIffWithinLimit(h, t, window, limit);
      if Decide(h, t, window, limit).allowed {
        assert h + [t] + rest == all;
        ServeWithinLimit(h + [t], rest, window, limit);
      } else {
        var skipped := h + rest;
        assert forall i :: 0 <= i < |skipped| ==> skipped[i] == all[if i < |h| then i else i + 1];
        ServeWithinLimit(h, rest, window, limit);
      }
    }
  }

  /** Requests at one instant all carry the same set member. */
  lemma {:induction false} RepeatsAreAllAdmitted(k: nat, n: nat, t: nat, window: nat, limit: int)
    requires limit >= 2
    ensures Serve(Repeat(t, k), Repeat(t, n), window, limit) == Repeat(t, k + n)
    decreases n
  {
    var h := Repeat(t, k);
    if n == 0 {
      assert Repeat(t, k + n) == h;
    } else {
      assert Live(h, window, Ms(t)) <= {t};
      assert |Live(h, window, Ms(t))| <= 1 by { SubsetSize(Live(h, window, Ms(t)), {t}); }
      assert h + [t] == Repeat(t, k + 1);
      assert Repeat(t, n)[1..] == Repeat(t, n - 1);
      RepeatsAreAllAdmitted(k + 1, n - 1, t, window, limit);
      assert Repeat(t, k + n) == Repeat(t, (k + 1) + (n - 1));
    }
  }

  lemma {:induction false} SubsetSize(a: set<nat>, b: set<nat>)
    requires a <= b
    ensures |a| <= |b| && (a != b ==> |a| < |b|)
  {
    if a != {} {
      var x :| x in a;
      SubsetSize(a - {x}, b - {x});
    }
  }

  lemma {:induction false} SameInstantCount(t: nat, n: nat, lo: int, window: nat)
    requires lo <= Ms(t) < lo + window
    ensures InWindow(Repeat(t, n), lo, window) == n
  {
    if n > 0 {
      assert Repeat(t, n) == Repeat(t, n - 1) + [t];
      SameInstantCount(t, n - 1, lo, window);
      InWindowAppend(Repeat(t, n - 1), t, lo, window);
    }
  }

  /**
   * Two requests in the same nanosecond share one member, so the log undercounts them: without the
   * assumption that admitted instants differ, only a limit of 1 bounds every run.
   */
  lemma BoundsRepeatsIffLimitIsOne(window: nat, limit: int)
    requires limit >= 1 && window >= 1
    ensures (forall requests: seq<nat> :: NonDecreasing(requests) ==>
              WithinLimit(Serve([], requests, window, limit), window, limit))
            <==> limit == 1
  {
    if limit == 1 {
      forall requests: seq<nat> | NonDecreasing(requests)
        ensures WithinLimit(Serve([], requests, window, limit), window, limit)
      {
        assert [] + requests == requests;
        assert WithinLimit([], window, limit);
        ServeWithinLimit([], requests, window, limit);
      }
    } else {
      var burst := Repeat(0, limit + 1);
      RepeatsAreAllAdmitted(0, limit + 1, 0, window, limit);
      assert Repeat(0, 0) == [];
      SameInstantCount(0, limit + 1, 0, window);
      assert NonDecreasing(burst) && Serve([], burst, window, limit) == burst;
      assert InWindow(burst, 0, window) > limit;
    }
  }

  /** remaining = r: of the requests that follow in the same millisecond, exactly r are admitted. */
  lemma {:induction false} SameMillisecond(h: seq<nat>, more: seq<nat>, nowMs: nat, window: nat, limit: int)
    requires window >= 1 && Increasing(h + more)
    requires forall i :: 0 <= i < |more| ==> Ms(more[i]) == nowMs
    ensures var room := limit - |Live(h, window, nowMs)|;
            Serve(h, more, window, limit) == h + more[..if room < 0 then 0 else if room < |more| then room else |more|]
    decreases |more|
  {
    if more != [] {
      var t, rest := more[0], more[1..];
      SplitIncreasing(h, more);
      if Decide(h, t, window, limit).allowed {
        LiveAppend(h, t, window);
        SameMillisecond(h + [t], rest, nowMs, window, limit);
      } else {
        SameMillisecond(h, rest, nowMs, window, limit);
      }
    }
  }

  lemma RemainingIsExact(h: seq<nat>, now: nat, more: seq<nat>, window: nat, limit: int)
    requires window >= 1 && Increasing(h + [now] + more)
    requires forall i :: 0 <= i < |more| ==> Ms(more[i]) == Ms(now)
    requires Decide(h, now, window, limit).allowed
    ensures var r := Decide(h, now, window, limit).remaining;
            r >= 0 && Serve(h + [now], more, window, limit) == h + [now] + more[..if r < |more| then r else |more|]
  {
    assert h + [now] + more == h + ([now] + more);
    SplitIncreasing(h, [now] + more);
    LiveAppend(h, now, window);
    assert ([now] + more)[1..] == more;
    SameMillisecond(h + [now], more, Ms(now), window, limit);
  }

  /** retry = d: from `now` on, requests are denied before now + d and admitted from now + d on. */
  lemma RetryIsExact(h: seq<nat>, now: nat, t: nat, window: nat, limit: int)
    requires limit >= 1 && NoRepeats(h) && WithinLimit(h, window, limit) && now <= t
    requires forall i :: 0 <= i < |h| ==> h[i] <= now
    requires !Decide(h, now, window, limit).allowed
    ensures Decide(h, now, window, limit).retryMs >= 1
    ensures Decide(h, t, window, limit).allowed <==> Ms(t) >= Ms(now) + Decide(h, now, window, limit).retryMs
  {
    var live, later := Live(h, window, Ms(now)), Live(h, window, Ms(t));
    LiveIsWindow(h, Ms(now), window);
    assert InWindow(h, Ms(now) - window + 1, window) <= limit;
    assert |live| == limit;
    HasOldest(live);
    var o :| IsOldest(o, live) && OldestMs(live) == Ms(o);
    assert later <= live;
    SubsetSize(later, live);
    if Ms(t) < Ms(o) + window {
      assert later == live;
    } else {
      assert o !in later;
    }
  }

  /** Without a positive limit a key never admits anything, and asks every caller to wait for a whole window. */
  lemma {:induction false} NothingIsServedWithoutLimit(requests: seq<nat>, window: nat, limit: int)
    requires limit <= 0
    ensures Serve([], requests, window, limit) == []
    ensures forall now: nat :: Decide([], now, window, limit) == Reply(false, 0, window)
  {
    if requests != [] { NothingIsServedWithoutLimit(requests[1..], window, limit); }
    forall now: nat
      ensures Decide([], now, window, limit) == Reply(false, 0, window)
    {
      assert Live([], window, Ms(now)) == {};
    }
  }

  // ---- a window too short for its limit ----

  function Upto(n: nat): (r: seq<nat>)
    ensures |r| == n && forall i :: 0 <= i < n ==> r[i] == i
  {
    seq(n, i => i)
  }

  function Span(lo: nat, hi: nat): (s: set<nat>)
    requires lo <= hi
    ensures |s| == hi - lo && forall x :: x in s <==> lo <= x < hi
    decreases hi
  {
    if lo == hi then {} else Span(lo, hi - 1) + {hi - 1}
  }

  /** A window holds no more different instants than it has nanoseconds. */
  lemma WindowHolds(h: seq<nat>, nowMs: nat, window: nat)
    requires forall i :: 0 <= i < |h| ==> Ms(h[i]) <= nowMs
    ensures |Live(h, window, nowMs)| <= window * MS
  {
    var first := nowMs - window + 1;
    var lo: nat, hi: nat := if first < 0 then 0 else first * MS, (nowMs + 1) * MS;
    assert Live(h, window, nowMs) <= Span(lo, hi);
    SubsetSize(Live(h, window, nowMs), Span(lo, hi));
  }

  lemma {:induction false} WideLimitServesAll(h: seq<nat>, requests: seq<nat>, window: nat, limit: int)
    requires limit > window * MS && NonDecreasing(h + requests)
    ensures Serve(h, requests, window, limit) == h + requests
    decreases |requests|
  {
    if requests == [] {
      assert h + requests == h;
    } else {
      var t, all := requests[0], h + requests;
      assert all[|h|] == t && forall i :: 0 <= i < |h| ==> all[i] == h[i];
      WindowHolds(h, Ms(t), window);
      assert h + [t] + requests[1..] == all;
      WideLimitServesAll(h + [t], requests[1..], window, limit);
    }
  }

  lemma {:induction false} LiveIsNoMore(h: seq<nat>, nowMs: nat, window: nat)
    ensures |Live(h, window, nowMs)| <= |h|
  {
    if h != [] {
      var front, t := h[..|h| - 1], h[|h| - 1];
      LiveIsNoMore(front, nowMs, window);
      assert h == front + [t];
      assert Live(h, window, nowMs) <= Live(front, window, nowMs) + {t};
      SubsetSize(Live(h, window, nowMs), Live(front, window, nowMs) + {t});
    }
  }

  lemma {:induction false} FewAreServed(h: seq<nat>, requests: seq<nat>, window: nat, limit: int)
    requires |h| + |requests| <= limit
    ensures Serve(h, requests, window, limit) == h + requests
    decreases |requests|
  {
    if requests == [] {
      assert h + requests == h;
    } else {
      LiveIsNoMore(h, Ms(requests[0]), window);
      assert h + [requests[0]] + requests[1..] == h + requests;
      FewAreServed(h + [requests[0]], requests[1..], window, limit);
    }
  }

  lemma {:induction false} ServeJoins(h: seq<nat>, a: seq<nat>, b: seq<nat>, window: nat, limit: int)
    ensures Serve(h, a + b, window, limit) == Serve(Serve(h, a, window, limit), b, window, limit)
    decreases |a|
  {
    if a == [] {
      assert a + b == b;
    } else {
      assert (a + b)[1..] == a[1..] + b;
      var next := if Decide(h, a[0], window, limit).allowed then h + [a[0]] else h;
      ServeJoins(next, a[1..], b, window, limit);
    }
  }

  lemma FirstInstantsAreLive(n: nat, window: nat)
    requires 1 <= n <= window * MS
    ensures |Live(Upto(n), window, Ms(n - 1))| == n
  {
    var h, live := Upto(n), Live(Upto(n), window, Ms(n - 1));
    forall x: nat | x < n
      ensures x in live
    {
      assert h[x] == x;
      assert Ms(x) + window > Ms(n - 1);
    }
    assert live == Span(0, n);
  }

  lemma ServeOne(h: seq<nat>, t: nat, window: nat, limit: int)
    ensures Serve(h, [t], window, limit) == if Decide(h, t, window, limit).allowed then h + [t] else h
  {
    assert [t][1..] == [];
  }

  /** After `limit` instants of one window, the last of them is turned away the second time. */
  lemma FullWindowTurnsAway(window: nat, limit: nat)
    requires 1 <= limit <= window * MS
    ensures Serve([], Upto(limit) + [limit - 1], window, limit) == Upto(limit)
  {
    FewAreServed([], Upto(limit), window, limit);
    assert [] + Upto(limit) == Upto(limit);
    ServeJoins([], Upto(limit), [limit - 1], window, limit);
    FirstInstantsAreLive(limit, window);
    ServeOne(Upto(limit), limit - 1, window, limit);
  }

  /** The limiter turns no request away exactly when its limit exceeds the nanoseconds of its window in milliseconds. */
  lemma LimitsNothingIffWindowIsShort(window: nat, limit: nat)
    requires limit >= 1
    ensures (forall requests: seq<nat> :: NonDecreasing(requests) ==> Serve([], requests, window, limit) == requests)
            <==> limit > window * MS
  {
    if limit > window * MS {
      forall requests: seq<nat> | NonDecreasing(requests)
        ensures Serve([], requests, window, limit) == requests
      {
        assert [] + requests == requests;
        WideLimitServesAll([], requests, window, limit);
      }
    } else {
      FullWindowTurnsAway(window, limit);
      var requests := Upto(limit) + [limit - 1];
      assert NonDecreasing(requests) && |requests| == limit + 1;
      assert Serve([], requests, window, limit) != requests;
    }
  }
}
