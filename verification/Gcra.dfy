/**
 * The GCRA script of the rate limiter (ITU-T Recommendation I.371, Annex A): one stored theoretical
 * arrival time per key. Times, emission and tolerance are in milliseconds.
 *
 * The reference is a property of the admitted times alone. A stream conforms when any n + 1 of its
 * arrivals span at least n emission intervals, up to the tolerance; the script is shown to admit a
 * request exactly when the admitted stream still conforms with that request at its end.
 */
module Gcra {
  import opened Wrappers
  import opened Timeline
  import opened Arith

  ghost predicate Conforms(h: seq<int>, emission: nat, tolerance: int) {
    forall i, j :: 0 <= i <= j < |h| ==> (j - i) * emission <= h[j] - h[i] + tolerance
  }

  // What the script replies. With an emission of 0 ms the script divides by zero after it has admitted
  // the request, so the reply then carries no defined remaining; SET refuses a PX of 0, which aborts it.
  datatype Reply = Admitted(remaining: Option<nat>) | Rejected(retryMs: nat) | Failed

  /** The theoretical arrival time after a non-empty stream. */
  function Tat(h: seq<int>, emission: nat): int
    requires |h| > 0
  {
    var n := |h| - 1;
    (if n == 0 then h[0] else Max(Tat(h[..n], emission), h[n])) + emission
  }

  function Headroom(slack: int, emission: nat): int
    requires emission > 0
  {
    Max(slack / emission, 0)
  }

  /** The reply to a request at `now` after the admitted stream h, for a key that never expires. */
  function Decide(h: seq<int>, now: int, emission: nat, tolerance: int): Reply {
    var tat := if |h| == 0 then now else Tat(h, emission);
    var early := Max(tat, now) - now;
    if now < tat - tolerance then Rejected(tat - tolerance - now)
    else if early + emission + tolerance <= 0 then Failed
    else if emission == 0 then Admitted(None)
    else Admitted(Some(Headroom(tolerance - early, emission)))
  }

  /** Every request of the stream was admitted after the ones before it. */
  ghost predicate Granted(h: seq<int>, emission: nat, tolerance: int) {
    |h| > 0 ==>
      var n := |h| - 1;
      Granted(h[..n], emission, tolerance) && Decide(h[..n], h[n], emission, tolerance).Admitted?
  }

  class Cell {
    const emission: nat
    const tolerance: int
    var tat: Option<int>
    var expiresAt: int
    ghost var admitted: seq<int>
    ghost var clock: int

    ghost predicate Valid()
      reads this
    {
      && Granted(admitted, emission, tolerance)
      && (|admitted| > 0 ==> tolerance >= 0)
      && match tat
         case Some(v) => |admitted| > 0 && v == Tat(admitted, emission) && v + tolerance <= expiresAt
         case None => |admitted| == 0 || Tat(admitted, emission) + tolerance <= clock
    }

    constructor (emission: nat, tolerance: int, start: int)
      ensures Valid() && admitted == [] && clock == start
      ensures this.emission == emission && this.tolerance == tolerance
    {
      this.emission, this.tolerance := emission, tolerance;
      tat, expiresAt, admitted, clock := None, 0, [], start;
    }

    /**
     * One run of the script. `swept` says whether Redis has already reclaimed the key, which it may do
     * at any instant from expiresAt on; the reply promised is that of a key that never expires.
     */
    method Allow(now: int, swept: bool) returns (r: Reply)
      requires Valid() && clock <= now
      modifies this
      ensures Valid() && clock == now
      ensures r == Decide(old(admitted), now, emission, tolerance)
      ensures admitted == if r.Admitted? then old(admitted) + [now] else old(admitted)
    {
      Extend(admitted, now, emission, tolerance);
      if swept && tat.Some? && expiresAt <= now { tat := None; }
      clock := now;
      var t := tat.GetOr(now);
      var allowAt := t - tolerance;
      if now < allowAt { return Rejected(allowAt - now); }
      var newTat := Max(t, now) + emission;
      var ttl := newTat - now + tolerance;
      if ttl <= 0 { return Failed; }
      r := if emission == 0 then Admitted(None)
           else Admitted(Some(Headroom(tolerance - (newTat - now - emission), emission)));
      assert r == Decide(admitted, now, emission, tolerance);
      tat, expiresAt, admitted := Some(newTat), now + ttl, admitted + [now];
    }
  }

  /** What one more admission does to the theoretical arrival time and to the granted stream. */
  lemma Extend(h: seq<int>, t: int, emission: nat, tolerance: int)
    ensures Tat(h + [t], emission) == (if |h| == 0 then t else Max(Tat(h, emission), t)) + emission
    ensures Granted(h + [t], emission, tolerance)
            <==> Granted(h, emission, tolerance) && Decide(h, t, emission, tolerance).Admitted?
  {
    assert (h + [t])[..|h|] == h;
  }

  /** The stored scalar is the latest of the instants each past arrival allows. */
  lemma {:induction false} TatIsLatestBound(h: seq<int>, emission: nat) returns (at: nat)
    requires |h| > 0
    ensures forall i :: 0 <= i < |h| ==> h[i] + (|h| - i) * emission <= Tat(h, emission)
    ensures at < |h| && Tat(h, emission) == h[at] + (|h| - at) * emission
  {
    var n := |h| - 1;
    at := n;
    if n > 0 {
      var front := h[..n];
      var k := TatIsLatestBound(front, emission);
      forall i | 0 <= i < n
        ensures h[i] + (|h| - i) * emission <= Tat(h, emission)
      {
        assert front[i] == h[i];
        Successor(n - i, emission);
      }
      if Tat(front, emission) > h[n] {
        at := k;
        Successor(n - k, emission);
      }
    }
  }

  lemma ToleranceSign(h: seq<int>, emission: nat, tolerance: int)
    requires |h| > 0 && Conforms(h, emission, tolerance)
    ensures tolerance >= 0
  {
    var first := h[0];
  }

  /** One comparison with the stored scalar decides conformance of the whole extended stream. */
  lemma ConformsAppend(h: seq<int>, t: int, emission: nat, tolerance: int)
    ensures Conforms(h + [t], emission, tolerance)
            <==> Conforms(h, emission, tolerance) && tolerance >= 0
                 && (|h| == 0 || Tat(h, emission) <= t + tolerance)
  {
    var g, n := h + [t], |h|;
    if Conforms(g, emission, tolerance) {
      ToleranceSign(g, emission, tolerance);
      forall i, j | 0 <= i <= j < n
        ensures (j - i) * emission <= h[j] - h[i] + tolerance
      {
        assert g[i] == h[i] && g[j] == h[j];
      }
      if n > 0 {
        var at := TatIsLatestBound(h, emission);
        assert (n - at) * emission <= g[n] - g[at] + tolerance;
      }
    } else if n > 0 {
      var at := TatIsLatestBound(h, emission);
    }
  }

  /** The script grants exactly the conforming streams. */
  lemma {:induction false} GrantedIffConforms(h: seq<int>, emission: nat, tolerance: int)
    requires emission > 0 || tolerance != 0
    ensures Granted(h, emission, tolerance) <==> Conforms(h, emission, tolerance)
  {
    if |h| > 0 {
      var front, t := h[..|h| - 1], h[|h| - 1];
      assert h == front + [t];
      GrantedIffConforms(front, emission, tolerance);
      ConformsAppend(front, t, emission, tolerance);
      if |front| > 0 && Conforms(front, emission, tolerance) { ToleranceSign(front, emission, tolerance); }
    }
  }

  /** A request is admitted exactly when the granted stream conforms with it at its end. */
  lemma AdmitsIffConforms(h: seq<int>, now: int, emission: nat, tolerance: int)
    requires Granted(h, emission, tolerance) && (emission > 0 || tolerance != 0)
    ensures Decide(h, now, emission, tolerance).Admitted? <==> Conforms(h + [now], emission, tolerance)
  {
    GrantedIffConforms(h + [now], emission, tolerance);
    assert (h + [now])[..|h|] == h;
  }

  lemma {:induction false} BurstTat(h: seq<int>, now: int, j: nat, emission: nat, tolerance: int)
    requires |h| > 0 && Granted(h, emission, tolerance) && tolerance >= 0 && emission > 0
    requires now <= Tat(h, emission)
    ensures Tat(h + Repeat(now, j), emission) == Tat(h, emission) + j * emission
    ensures Granted(h + Repeat(now, j), emission, tolerance)
            <==> j == 0 || Tat(h, emission) + (j - 1) * emission <= now + tolerance
  {
    if j == 0 {
      assert h + Repeat(now, 0) == h;
    } else {
      BurstTat(h, now, j - 1, emission, tolerance);
      var g := h + Repeat(now, j - 1);
      assert h + Repeat(now, j) == g + [now];
      Extend(g, now, emission, tolerance);
      Successor(j - 1, emission);
      Successor(j - 2, emission);
      assert (j - 1) * emission >= 0;
    }
  }

  /** remaining = k: exactly k more requests at the same instant are admitted. */
  lemma RemainingIsExact(h: seq<int>, now: int, j: nat, emission: nat, tolerance: int)
    requires Granted(h, emission, tolerance) && emission > 0
    requires Decide(h, now, emission, tolerance).Admitted?
    ensures Granted(h + [now] + Repeat(now, j), emission, tolerance)
            <==> j <= Decide(h, now, emission, tolerance).remaining.value
  {
    var g := h + [now];
    assert g[..|h|] == h;
    var early := Tat(g, emission) - now - emission;
    assert 0 <= early <= tolerance by { AdmittedInTime(h, now, emission, tolerance); }
    BurstTat(g, now, j, emission, tolerance);
    LargestMultiple(tolerance - early, emission, j);
    if j > 0 { Successor(j - 1, emission); }
  }

  lemma AdmittedInTime(h: seq<int>, now: int, emission: nat, tolerance: int)
    requires Granted(h, emission, tolerance)
    requires Decide(h, now, emission, tolerance).Admitted?
    ensures tolerance >= 0
    ensures now + emission <= Tat(h + [now], emission) <= now + emission + tolerance
  {
    assert (h + [now])[..|h|] == h;
    assert tolerance >= 0 by {
      if tolerance < 0 {
        GrantedIffConforms(h + [now], emission, tolerance);
        ToleranceSign(h + [now], emission, tolerance);
      }
    }
  }

  /** retry = d: every request before now + d is rejected and one from now + d on is admitted. */
  lemma RetryIsExact(h: seq<int>, now: int, t: int, emission: nat, tolerance: nat)
    requires now <= t && (emission > 0 || tolerance > 0)
    requires Decide(h, now, emission, tolerance).Rejected?
    ensures Decide(h, t, emission, tolerance).Admitted?
            <==> t >= now + Decide(h, now, emission, tolerance).retryMs
    ensures Decide(h, now, emission, tolerance).retryMs > 0
  {}
}
