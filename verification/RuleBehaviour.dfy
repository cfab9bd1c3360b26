/** From a plan's rule to what the limiter then does. */
module RuleBehaviour {
  import opened Wrappers
  import opened Timeline
  import opened Arith
  import opened RateRule
  import opened Text
  import Gcra
  import GcraRuns
  import SlidingWindowRuns

  ghost predicate Usable(rule: Rule) {
    rule.limit > 0 && rule.window > 0 && rule.burst >= 0
  }

  /** Truncating to nanoseconds and then to milliseconds loses no more than truncating once. */
  lemma EmissionTruncatesOnce(rule: Rule)
    requires Usable(rule)
    ensures EmissionMs(rule) == rule.window / (rule.limit * MS)
  {
    NestedFloor(rule.window, rule.limit, MS);
  }

  /** Between Burst emissions and Burst emissions rounded up to whole milliseconds. */
  lemma ToleranceBounds(rule: Rule)
    requires Usable(rule) && Fits64(rule.burst * EmissionInterval(rule))
    ensures rule.burst * EmissionMs(rule) <= ToleranceMs(rule) <= rule.burst * (EmissionMs(rule) + 1)
    ensures ToleranceMs(rule) == rule.burst * EmissionMs(rule) + rule.burst * SubMs(rule) / MS
  {
    SplitProduct(rule.burst, EmissionInterval(rule));
    SplitBounds(rule.burst, EmissionInterval(rule) / MS, SubMs(rule));
  }

  lemma SplitBounds(b: nat, q: nat, f: nat)
    requires f < MS
    ensures b * q <= b * q + b * f / MS <= b * (q + 1)
  {
    AtMostProduct(b, f, MS);
    assert b * MS / MS == b;
    assert b * (q + 1) == b * q + b;
  }

  lemma SplitProduct(b: nat, e: nat)
    ensures b * e / MS == b * (e / MS) + b * (e % MS) / MS
    ensures b * (e / MS + 1) == b * (e / MS) + b && b * e >= 0
  {
    var q, f := e / MS, e % MS;
    assert b * e == (b * q) * MS + b * f by {
      assert e == q * MS + f;
      assert b * (q * MS + f) == (b * q) * MS + b * f;
    }
  }

  /** The part of an emission below one millisecond, which the script never sees. */
  function SubMs(rule: Rule): nat
    requires Usable(rule)
  {
    EmissionInterval(rule) % MS
  }

  /**
   * An idle key takes at least Burst + 1 requests at once; exactly that many when the sub-millisecond
   * parts of Burst emissions stay below one emission, in particular when the emission is whole.
   */
  lemma IdleKeyBurst(rule: Rule, now: int, n: nat)
    requires Usable(rule) && EmissionMs(rule) >= 1 && Fits64(rule.burst * EmissionInterval(rule))
    ensures ToleranceMs(rule) >= 0
    ensures n <= rule.burst + 1 ==> Gcra.Granted(Repeat(now, n), EmissionMs(rule), ToleranceMs(rule))
    ensures Gcra.Granted(Repeat(now, rule.burst + 2), EmissionMs(rule), ToleranceMs(rule))
            <==> rule.burst * SubMs(rule) / MS >= EmissionMs(rule)
  {
    ToleranceBounds(rule);
    var e, tol, b := EmissionMs(rule), ToleranceMs(rule), rule.burst;
    AtMostProduct(b, 0, e);
    GcraRuns.IdleBurst(now, n, e, tol);
    GcraRuns.IdleBurst(now, b + 2, e, tol);
    LargestMultiple(tol, e, b);
    LargestMultiple(tol, e, b + 1);
    Successor(b, e);
  }

  /** A stream paced at the emission interval or slower is served whole from a fresh key. */
  lemma PacedStreamIsServed(rule: Rule, requests: seq<int>)
    requires Usable(rule) && EmissionMs(rule) >= 1
    requires forall k :: 0 <= k < |requests| - 1 ==> requests[k + 1] - requests[k] >= EmissionMs(rule)
    ensures ToleranceMs(rule) >= 0 ==> GcraRuns.Serve([], requests, EmissionMs(rule), ToleranceMs(rule)) == requests
  {
    if ToleranceMs(rule) >= 0 {
      GcraRuns.PacedConforms(requests, EmissionMs(rule), ToleranceMs(rule));
      assert [] + requests == requests;
      GcraRuns.AllServedIffConform([], requests, EmissionMs(rule), ToleranceMs(rule));
    }
  }

  /** The fastest paced stream: one request every EmissionMs. */
  function Metronome(rule: Rule, n: nat): (r: seq<int>)
    ensures |r| == n && forall k :: 0 <= k < n ==> r[k] == k * EmissionMs(rule)
  {
    seq(n, k => k * EmissionMs(rule))
  }

  /**
   * The limiter holds a paced client to Limit requests per Window exactly when Limit whole-millisecond
   * emissions fill the window: request number Limit, counted from 0, is always served, and truncation
   * puts it before the window has passed otherwise.
   */
  lemma PacedRateIsExactIffEmissionIsWhole(rule: Rule)
    requires Usable(rule) && EmissionMs(rule) >= 1
    ensures var served := GcraRuns.Serve([], Metronome(rule, rule.limit + 1), EmissionMs(rule), ToleranceMs(rule));
            ToleranceMs(rule) >= 0 ==>
              && served == Metronome(rule, rule.limit + 1)
              && served[rule.limit] * MS <= rule.window
              && (served[rule.limit] * MS == rule.window <==> rule.window % (rule.limit * MS) == 0)
  {
    var e, l := EmissionMs(rule), rule.limit;
    var beat := Metronome(rule, l + 1);
    forall k | 0 <= k < |beat| - 1
      ensures beat[k + 1] - beat[k] >= e
    {
      Successor(k, e);
    }
    PacedStreamIsServed(rule, beat);
    EmissionTruncatesOnce(rule);
    Quantum(rule.window, l, MS);
    assert beat[l] * MS == (l * e) * MS;
  }

  lemma Quantum(w: nat, l: nat, m: nat)
    requires l > 0 && m > 0
    ensures l * m > 0
    ensures (l * (w / (l * m))) * m == w - w % (l * m)
  {
    assert l * m > 0;
    var q := w / (l * m);
    assert (l * q) * m == (l * m) * q;
  }

  // ---- rules as a plan writes them ----

  /** What a fresh key does with the calls it gets. */
  datatype Regime = Blocked | Broken | Unlimited | Metered

  function RegimeOf(rule: Rule): Regime {
    if ToleranceMs(rule) < 0 then Blocked
    else if EmissionMs(rule) > 0 then Metered
    else if ToleranceMs(rule) > 0 then Unlimited
    else Broken
  }

  /**
   * Each regime is exactly one behaviour: every call is rejected, every call fails, every burst passes,
   * or some burst passes and some other does not.
   */
  lemma ParsedMeterRegimes(raw: RawRule, lib: Library)
    ensures var parsed := Parse(raw, lib);
            parsed.Ok? && parsed.value.algorithm.GcraMeter? ==>
              var e, tol := EmissionMs(parsed.value), ToleranceMs(parsed.value);
              && e >= 0
              && (RegimeOf(parsed.value).Blocked? <==> forall now :: Gcra.Decide([], now, e, tol).Rejected?)
              && (RegimeOf(parsed.value).Broken? <==> forall now :: Gcra.Decide([], now, e, tol).Failed?)
              && (RegimeOf(parsed.value).Unlimited? <==> forall n: nat :: Gcra.Granted(Repeat(0, n), e, tol))
              && (RegimeOf(parsed.value).Metered?
                  <==> Gcra.Granted(Repeat(0, 1), e, tol) && exists n: nat :: !Gcra.Granted(Repeat(0, n), e, tol))
  {
    var parsed := Parse(raw, lib);
    if parsed.Ok? && parsed.value.algorithm.GcraMeter? {
      ParsedRuleIsUsable(raw, lib);
      EmissionTruncatesOnce(parsed.value);
      FreshKey(EmissionMs(parsed.value), ToleranceMs(parsed.value));
    }
  }

  lemma FreshKey(e: nat, tol: int)
    ensures tol < 0 <==> forall now :: Gcra.Decide([], now, e, tol).Rejected?
    ensures e == 0 && tol == 0 <==> forall now :: Gcra.Decide([], now, e, tol).Failed?
    ensures e == 0 && tol > 0 <==> forall n: nat :: Gcra.Granted(Repeat(0, n), e, tol)
    ensures Gcra.Granted(Repeat(0, 1), e, tol) <==> tol >= 0 && e + tol > 0
  {
    GcraRuns.FailsAlwaysIff(e, tol);
    GcraRuns.LimitsNothingIffNoEmission(0, e, tol);
    if tol >= 0 { assert !Gcra.Decide([], 0, e, tol).Rejected?; }
    assert Repeat(0, 1)[..0] == [];
  }

  /** The regime read off the rule itself, as long as Burst emissions fit 64 bits. */
  lemma RegimeIsReadOffTheRule(raw: RawRule, lib: Library)
    ensures var parsed := Parse(raw, lib);
            parsed.Ok? && parsed.value.algorithm.GcraMeter? ==>
              var rule := parsed.value;
              Fits64(rule.burst * EmissionInterval(rule)) ==>
                && !RegimeOf(rule).Blocked?
                && (RegimeOf(rule).Metered? <==> rule.window >= rule.limit * MS)
                && (RegimeOf(rule).Broken?
                    <==> rule.window < rule.limit * MS && rule.burst * EmissionInterval(rule) < MS)
  {
    var parsed := Parse(raw, lib);
    if parsed.Ok? && parsed.value.algorithm.GcraMeter? {
      var rule := parsed.value;
      ParsedRuleIsUsable(raw, lib);
      EmissionTruncatesOnce(rule);
      SplitProduct(rule.burst, EmissionInterval(rule));
      WholeIff(rule.window, rule.limit * MS);
    }
  }

  lemma WholeIff(w: nat, m: nat)
    requires m > 0
    ensures w / m > 0 <==> w >= m
  {}

  // A fresh key takes exactly floor(tolerance / emission) + 1 requests at once, which is Burst + 1 or more
  // unless the product of the two has wrapped.
  ghost predicate ServesBurst(rule: Rule, now: int)
    requires EmissionMs(rule) > 0
  {
    var e, tol := EmissionMs(rule), ToleranceMs(rule);
    && (forall n: nat :: Gcra.Granted(Repeat(now, n), e, tol) <==> n <= tol / e + 1)
    && (Fits64(rule.burst * EmissionInterval(rule)) ==> rule.burst <= tol / e)
  }

  ghost predicate ServesPaced(rule: Rule, requests: seq<int>)
    requires EmissionMs(rule) >= 0
  {
    (forall k :: 0 <= k < |requests| - 1 ==> requests[k + 1] - requests[k] >= EmissionMs(rule)) ==>
      GcraRuns.Serve([], requests, EmissionMs(rule), ToleranceMs(rule)) == requests
  }

  ghost predicate KeepsBound(rule: Rule, requests: seq<int>, lo: int, length: nat)
    requires EmissionMs(rule) > 0
  {
    var e, tol := EmissionMs(rule), ToleranceMs(rule);
    Ordered(requests) ==>
      Count(GcraRuns.Serve([], requests, e, tol), lo, lo + length + 1) <= (length + tol) / e + 1
  }

  /**
   * What a metered rule promises every caller: a fresh key takes floor(tolerance / emission) + 1 requests at
   * once, at least Burst + 1 where Burst emissions fit 64 bits; a client paced at the emission loses nothing;
   * and no interval of `length` ms admits more than floor((length + tolerance) / emission) + 1.
   */
  lemma ParsedMeterServes(raw: RawRule, lib: Library, now: int, requests: seq<int>, lo: int, length: nat)
    ensures var parsed := Parse(raw, lib);
            parsed.Ok? && parsed.value.algorithm.GcraMeter? && RegimeOf(parsed.value).Metered? ==>
              && ServesBurst(parsed.value, now) && ServesPaced(parsed.value, requests)
              && KeepsBound(parsed.value, requests, lo, length)
  {
    var parsed := Parse(raw, lib);
    if parsed.Ok? && parsed.value.algorithm.GcraMeter? && RegimeOf(parsed.value).Metered? {
      ParsedRuleIsUsable(raw, lib);
      MeterServes(parsed.value, now, requests);
      MeterKeepsBound(parsed.value, requests, lo, length);
    }
  }

  lemma MeterKeepsBound(rule: Rule, requests: seq<int>, lo: int, length: nat)
    ensures RegimeOf(rule).Metered? ==> KeepsBound(rule, requests, lo, length)
  {
    if RegimeOf(rule).Metered? && Ordered(requests) {
      GcraRuns.IntervalBound(requests, lo, length, EmissionMs(rule), ToleranceMs(rule));
    }
  }

  lemma MeterServesBurst(rule: Rule, now: int)
    requires Usable(rule) && RegimeOf(rule).Metered?
    ensures ServesBurst(rule, now)
  {
    var e, tol := EmissionMs(rule), ToleranceMs(rule);
    forall n: nat
      ensures Gcra.Granted(Repeat(now, n), e, tol) <==> n <= tol / e + 1
    {
      GcraRuns.IdleBurst(now, n, e, tol);
    }
    if Fits64(rule.burst * EmissionInterval(rule)) {
      ToleranceBounds(rule);
      AtMost(rule.burst, tol, e);
    }
  }

  lemma MeterServes(rule: Rule, now: int, requests: seq<int>)
    requires Usable(rule) && RegimeOf(rule).Metered?
    ensures ServesBurst(rule, now) && ServesPaced(rule, requests)
  {
    MeterServesBurst(rule, now);
    if forall k :: 0 <= k < |requests| - 1 ==> requests[k + 1] - requests[k] >= EmissionMs(rule) {
      PacedStreamIsServed(rule, requests);
    }
  }

  /** What the limiter admits of these requests on a fresh key of a sliding-window rule. */
  ghost function WindowServes(rule: Rule, requests: seq<nat>): seq<nat> {
    SlidingWindowRuns.Serve([], requests, if WindowMs(rule) < 0 then 0 else WindowMs(rule), rule.limit)
  }

  /** "limit per window" parses when both are positive, and is rejected by the first that is not. */
  lemma WindowIsParsed(raw: RawRule, lib: Library)
    requires raw.algorithm == "sliding_window_counter"
    ensures var w := lib.parseDuration(raw.window);
            Parse(raw, lib) == if raw.limit <= 0 then Err(BadLimit)
                               else if w.Some? && w.value > 0 then Ok(Rule(SlidingWindowCounter, raw.limit, w.value, 0))
                               else Err(BadWindow)
  {}

  lemma UnknownAlgorithmIsRejected(raw: RawRule, lib: Library)
    requires raw.algorithm != "sliding_window_counter" && raw.algorithm != "gcra"
    ensures Parse(raw, lib) == Err(UnknownAlgorithm)
  {}

  /**
   * A plan's "limit requests per window" keeps its limit in every window of whole milliseconds, for requests at
   * distinct instants; it turns nothing away exactly when the limit exceeds the nanoseconds of those milliseconds.
   */
  lemma ParsedWindowLimits(raw: RawRule, lib: Library, w: int, requests: seq<nat>)
    requires raw.algorithm == "sliding_window_counter" && raw.limit > 0
    ensures lib.parseDuration(raw.window) == Some(w) && w > 0 ==>
              && Parse(raw, lib).Ok?
              && var rule := Parse(raw, lib).value;
                 && (SlidingWindowRuns.Increasing(requests) ==>
                       SlidingWindowRuns.WithinLimit(WindowServes(rule, requests), w / 1_000_000, raw.limit))
                 && ((forall all: seq<nat> :: SlidingWindowRuns.NonDecreasing(all) ==> WindowServes(rule, all) == all)
                     <==> raw.limit > w - w % 1_000_000)
  {
    if lib.parseDuration(raw.window) == Some(w) && w > 0 {
      var rule := Parse(raw, lib).value;
      assert [] + requests == requests;
      if SlidingWindowRuns.Increasing(requests) {
        assert SlidingWindowRuns.WithinLimit([], WindowMs(rule), rule.limit);
        SlidingWindowRuns.ServeWithinLimit([], requests, WindowMs(rule), rule.limit);
      }
      SlidingWindowRuns.LimitsNothingIffWindowIsShort(WindowMs(rule), rule.limit);
    }
  }

  /** A window below one millisecond reaches the script as 0. */
  lemma ShortWindowLimitsNothing(raw: RawRule, lib: Library, w: int, all: seq<nat>)
    requires raw.algorithm == "sliding_window_counter" && raw.limit > 0 && 0 < w < 1_000_000
    requires SlidingWindowRuns.NonDecreasing(all)
    ensures lib.parseDuration(raw.window) == Some(w) ==>
              var rule := Parse(raw, lib);
              rule.Ok? && WindowMs(rule.value) == 0 && WindowServes(rule.value, all) == all
  {
    if lib.parseDuration(raw.window) == Some(w) { ParsedWindowLimits(raw, lib, w, all); }
  }

  /** One request per second with a burst of 9.3 * 10^9: Burst emissions leave 64 bits, and everything is rejected. */
  lemma HugeBurstBlocks(raw: RawRule, lib: Library)
    requires raw.algorithm == "gcra" && raw.rate == "1/s" && raw.burst == 9_300_000_000
    ensures lib.atoi("1") == Some(1) && lib.parseDuration("1s") == Some(1_000_000_000) ==>
              Parse(raw, lib).Ok? && RegimeOf(Parse(raw, lib).value).Blocked?
  {
    var n, unit := "1", "s";
    assert n + "/" + unit == "1/s";
    assert Trim("1") == "1" && Trim("s") == "s" && "1" + "s" == "1s";
    RateIsParsed(raw, n, unit, lib);
  }
}
