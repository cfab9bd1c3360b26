/** What the GCRA limiter guarantees over whole runs. */
module GcraRuns {
  import opened Timeline
  import opened Arith
  import opened Gcra

  /** The stream granted once `requests` have been served after h. */
  function Serve(h: seq<int>, requests: seq<int>, emission: nat, tolerance: int): seq<int>
    decreases |requests|
  {
    if requests == [] then h
    else
      var next := if Decide(h, requests[0], emission, tolerance).Admitted? then h + [requests[0]] else h;
      Serve(next, requests[1..], emission, tolerance)
  }

  lemma {:induction false} ServeIsGranted(h: seq<int>, requests: seq<int>, emission: nat, tolerance: int)
    requires Granted(h, emission, tolerance)
    ensures Granted(Serve(h, requests, emission, tolerance), emission, tolerance)
    decreases |requests|
  {
    if requests != [] {
      Extend(h, requests[0], emission, tolerance);
      if Decide(h, requests[0], emission, tolerance).Admitted? {
        ServeIsGranted(h + [requests[0]], requests[1..], emission, tolerance);
      } else {
        ServeIsGranted(h, requests[1..], emission, tolerance);
      }
    }
  }

  lemma GrantedSpan(h: seq<int>, i: nat, n: nat, emission: nat, tolerance: int)
    requires emission > 0 || tolerance != 0
    requires Granted(h, emission, tolerance) && i + n < |h|
    ensures n * emission <= h[i + n] - h[i] + tolerance
  {
    GrantedIffConforms(h, emission, tolerance);
    var j := i + n;
    var span := h[j] - h[i];
    assert j - i == n;
  }

  /** In any run, n + 1 consecutive admissions span at least n emissions less the tolerance. */
  lemma AdmissionBound(requests: seq<int>, i: nat, n: nat, emission: nat, tolerance: int)
    requires emission > 0 || tolerance != 0
    requires i + n < |Serve([], requests, emission, tolerance)|
    ensures var h := Serve([], requests, emission, tolerance);
            n * emission <= h[i + n] - h[i] + tolerance
  {
    ServeIsGranted([], requests, emission, tolerance);
    GrantedSpan(Serve([], requests, emission, tolerance), i, n, emission, tolerance);
  }

  lemma {:induction false} ServeIsOrdered(h: seq<int>, requests: seq<int>, emission: nat, tolerance: int)
    requires Ordered(h + requests)
    ensures Ordered(Serve(h, requests, emission, tolerance))
    decreases |requests|
  {
    var all := h + requests;
    if requests == [] {
      assert all == h;
    } else {
      var t, rest := requests[0], requests[1..];
      assert h + [t] + rest == all;
      var skipped := h + rest;
      assert forall i :: 0 <= i < |skipped| ==> skipped[i] == all[if i < |h| then i else i + 1];
      ServeIsOrdered(h + [t], rest, emission, tolerance);
      ServeIsOrdered(h, rest, emission, tolerance);
    }
  }

  lemma IntervalSpan(h: seq<int>, lo: int, hi: int, emission: nat, tolerance: nat)
    requires emission > 0 && Ordered(h) && Granted(h, emission, tolerance)
    ensures Count(h, lo, hi) > 0 ==> (Count(h, lo, hi) - 1) * emission <= hi - 1 - lo + tolerance
  {
    if Count(h, lo, hi) > 0 {
      var i, n := FirstAndLast(h, lo, hi);
      GrantedSpan(h, i, n, emission, tolerance);
    }
  }

  lemma GrantedCount(h: seq<int>, lo: int, length: nat, emission: nat, tolerance: nat)
    requires emission > 0 && Ordered(h) && Granted(h, emission, tolerance)
    ensures Count(h, lo, lo + length + 1) <= (length + tolerance) / emission + 1
  {
    var n := Count(h, lo, lo + length + 1);
    if n > 0 {
      IntervalSpan(h, lo, lo + length + 1, emission, tolerance);
      AtMost(n - 1, length + tolerance, emission);
    } else {
      AtMost(0, length + tolerance, emission);
    }
  }

  /** Any interval of `length` ms holds at most floor((length + tolerance) / emission) + 1 admissions. */
  lemma IntervalBound(requests: seq<int>, lo: int, length: nat, emission: nat, tolerance: nat)
    requires emission > 0 && Ordered(requests)
    ensures Count(Serve([], requests, emission, tolerance), lo, lo + length + 1) <= (length + tolerance) / emission + 1
  {
    assert [] + requests == requests;
    ServeIsOrdered([], requests, emission, tolerance);
    ServeIsGranted([], requests, emission, tolerance);
    GrantedCount(Serve([], requests, emission, tolerance), lo, length, emission, tolerance);
  }

  lemma FirstAndLast(h: seq<int>, lo: int, hi: int) returns (i: nat, n: nat)
    requires Ordered(h) && Count(h, lo, hi) > 0
    ensures n == Count(h, lo, hi) - 1 && i + n < |h| && lo <= h[i] && h[i + n] < hi
  {
    var j;
    i, j := CountSpan(h, lo, hi);
    n := j - i;
  }

  /** A run loses no request exactly when the requests themselves conform. */
  lemma {:induction false} AllServedIffConform(h: seq<int>, requests: seq<int>, emission: nat, tolerance: int)
    requires emission > 0 || tolerance != 0
    requires Granted(h, emission, tolerance)
    ensures Serve(h, requests, emission, tolerance) == h + requests <==> Conforms(h + requests, emission, tolerance)
    ensures |Serve(h, requests, emission, tolerance)| <= |h + requests|
    decreases |requests|
  {
    GrantedIffConforms(h + requests, emission, tolerance);
    if requests == [] {
      assert h + requests == h;
    } else {
      var t, rest := requests[0], requests[1..];
      assert h + [t] + rest == h + requests;
      Extend(h, t, emission, tolerance);
      if Decide(h, t, emission, tolerance).Admitted? {
        AllServedIffConform(h + [t], rest, emission, tolerance);
      } else {
        AllServedIffConform(h, rest, emission, tolerance);
        if Granted(h + requests, emission, tolerance) {
          GrantedPrefix(h + [t], rest, emission, tolerance);
        }
      }
    }
  }

  lemma {:induction false} GrantedPrefix(h: seq<int>, more: seq<int>, emission: nat, tolerance: int)
    requires Granted(h + more, emission, tolerance)
    ensures Granted(h, emission, tolerance)
  {
    if more == [] {
      assert h + more == h;
    } else {
      assert (h + more)[..|h + more| - 1] == h + more[..|more| - 1];
      GrantedPrefix(h, more[..|more| - 1], emission, tolerance);
    }
  }

  /** A stream paced at the emission interval or slower is never rejected, whatever the tolerance. */
  lemma PacedConforms(h: seq<int>, emission: nat, tolerance: nat)
    requires forall k :: 0 <= k < |h| - 1 ==> h[k + 1] - h[k] >= emission
    ensures Conforms(h, emission, tolerance)
  {
    forall i, j | 0 <= i <= j < |h|
      ensures (j - i) * emission <= h[j] - h[i] + tolerance
    {
      Pace(h, i, j, emission);
    }
  }

  lemma {:induction false} Pace(h: seq<int>, i: nat, j: nat, emission: nat)
    requires i <= j < |h|
    requires forall k :: 0 <= k < |h| - 1 ==> h[k + 1] - h[k] >= emission
    ensures (j - i) * emission <= h[j] - h[i]
    decreases j - i
  {
    if i < j {
      Pace(h, i, j - 1, emission);
      Successor(j - 1 - i, emission);
      assert h[(j - 1) + 1] - h[j - 1] >= emission;
    }
  }

  /** An idle key takes floor(tolerance / emission) + 1 requests at once, and no more. */
  lemma IdleBurst(now: int, n: nat, emission: nat, tolerance: nat)
    requires emission > 0
    ensures Granted(Repeat(now, n), emission, tolerance) <==> n <= tolerance / emission + 1
  {
    if n == 0 {
      LargestMultiple(tolerance, emission, 0);
    } else {
      var h: seq<int> := [now];
      assert Repeat(now, n) == h + Repeat(now, n - 1);
      assert h[..0] == [];
      BurstTat(h, now, n - 1, emission, tolerance);
      LargestMultiple(tolerance, emission, n - 1);
      if n > 1 { Successor(n - 2, emission); }
    }
  }

  /** With an emission of 0 ms and some tolerance every request is let through, and only then. */
  lemma LimitsNothingIffNoEmission(now: int, emission: nat, tolerance: int)
    ensures (forall n: nat :: Granted(Repeat(now, n), emission, tolerance)) <==> emission == 0 && tolerance > 0
  {
    if tolerance < 0 || (emission == 0 && tolerance == 0) {
      assert Repeat(now, 1)[..0] == [];
      assert !Granted(Repeat(now, 1), emission, tolerance);
    } else if emission == 0 {
      forall n: nat
        ensures Granted(Repeat(now, n), emission, tolerance)
      {
        GrantedIffConforms(Repeat(now, n), emission, tolerance);
      }
    } else {
      var n: nat := tolerance / emission + 2;
      IdleBurst(now, n, emission, tolerance);
      assert !Granted(Repeat(now, n), emission, tolerance);
    }
  }

  /** On a fresh key every call fails, for SET refuses an expiry of 0 ms, exactly with no emission and no tolerance. */
  lemma FailsAlwaysIff(emission: nat, tolerance: int)
    ensures (forall now :: Decide([], now, emission, tolerance).Failed?) <==> emission == 0 && tolerance == 0
  {
    if !(emission == 0 && tolerance == 0) {
      assert !Decide([], 0, emission, tolerance).Failed?;
    }
  }

  /** A failed call leaves the key as it was, so such a key admits nothing in any run. */
  lemma {:induction false} NothingIsServedOnFailure(requests: seq<int>)
    ensures Serve([], requests, 0, 0) == []
  {
    if requests != [] { NothingIsServedOnFailure(requests[1..]); }
  }
}
