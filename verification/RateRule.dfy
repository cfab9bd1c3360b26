/** Plan rules such as "10/s" and the millisecond parameters the scripts receive. Durations are in nanoseconds. */
module RateRule {
  import opened Text
  import opened Wrappers

  const MS: int := 1_000_000

  datatype Algorithm = SlidingWindowCounter | GcraMeter

  datatype RawRule = RawRule(algorithm: string, limit: int, window: string, rate: string, burst: int)

  datatype Rule = Rule(algorithm: Algorithm, limit: int, window: int, burst: int)

  datatype RuleError = UnknownAlgorithm | BadLimit | BadWindow | BadRate

  /** The standard-library parsers the rule relies on: None stands for their error return. */
  datatype Library = Library(parseDuration: string -> Option<int>, atoi: string -> Option<int>)

  /** strings.SplitN(s, "/", 2): the text before and after the first slash, if there is one. */
  function SplitAtSlash(s: string): Option<(string, string)> {
    if s == "" then None
    else if s[0] == '/' then Some(("", s[1..]))
    else match SplitAtSlash(s[1..])
         case None => None
         case Some(parts) => Some(([s[0]] + parts.0, parts.1))
  }

  function ParseRate(rate: string, lib: Library): Result<(int, int), RuleError> {
    match SplitAtSlash(rate)
    case None => Err(BadRate)
    case Some(parts) =>
      var n := lib.atoi(Trim(parts.0));
      if n.None? || n.value <= 0 then Err(BadRate)
      else
        var unit := if Trim(parts.1) == "" then "s" else Trim(parts.1);
        var window := lib.parseDuration("1" + unit);
        if window.None? || window.value <= 0 then Err(BadRate) else Ok((n.value, window.value))
  }

  function Parse(raw: RawRule, lib: Library): Result<Rule, RuleError> {
    if raw.algorithm == "sliding_window_counter" then
      if raw.limit <= 0 then Err(BadLimit)
      else
        var window := lib.parseDuration(raw.window);
        if window.None? || window.value <= 0 then Err(BadWindow)
        else Ok(Rule(SlidingWindowCounter, raw.limit, window.value, 0))
    else if raw.algorithm == "gcra" then
      match ParseRate(raw.rate, lib)
      case Err(e) => Err(e)
      case Ok(parts) => Ok(Rule(GcraMeter, parts.0, parts.1, Max(raw.burst, 0)))
    else Err(UnknownAlgorithm)
  }

  /** The parts of a rate are the text around its first slash. */
  lemma {:induction false} SplitAtSlashIsFirst(before: string, after: string)
    requires '/' !in before
    ensures SplitAtSlash(before + "/" + after) == Some((before, after))
  {
    var s := before + "/" + after;
    if before != "" {
      assert s[1..] == before[1..] + "/" + after;
      SplitAtSlashIsFirst(before[1..], after);
      assert before == [before[0]] + before[1..];
    } else {
      assert s[1..] == after;
    }
  }

  lemma {:induction false} NoSlashNoParts(s: string)
    ensures SplitAtSlash(s).None? <==> '/' !in s
  {
    if s != "" {
      NoSlashNoParts(s[1..]);
      assert s == [s[0]] + s[1..];
    }
  }

  /** "n/unit" is n per unit, white space aside, or per second without a unit; without a slash it is no rate. */
  lemma RateIsParsed(raw: RawRule, n: string, unit: string, lib: Library)
    requires raw.algorithm == "gcra" && '/' !in n
    ensures raw.rate == n + "/" + unit ==>
              var count := lib.atoi(Trim(n));
              var window := lib.parseDuration(if Trim(unit) == "" then "1s" else "1" + Trim(unit));
              Parse(raw, lib) == if count.Some? && count.value > 0 && window.Some? && window.value > 0
                                 then Ok(Rule(GcraMeter, count.value, window.value, Max(raw.burst, 0)))
                                 else Err(BadRate)
    ensures raw.rate == n ==> Parse(raw, lib) == Err(BadRate)
  {
    SplitAtSlashIsFirst(n, unit);
    NoSlashNoParts(n);
    assert "1" + "s" == "1s";
  }

  /** A rule that parses has a positive limit and window and a burst of at least 0. */
  lemma ParsedRuleIsUsable(raw: RawRule, lib: Library)
    requires Parse(raw, lib).Ok?
    ensures var rule := Parse(raw, lib).value;
            rule.limit > 0 && rule.window > 0 && rule.burst >= 0
  {}

  function EmissionInterval(rule: Rule): int {
    if rule.limit <= 0 then rule.window else TruncDiv(rule.window, rule.limit)
  }

  /** Go's integer division, towards zero. */
  function TruncDiv(a: int, b: int): int
    requires b > 0
  {
    if a >= 0 then a / b else -(-a / b)
  }

  function Milliseconds(d: int): int { TruncDiv(d, 1_000_000) }

  /** Whole milliseconds are cut off towards zero, also from a product that has overflowed. */
  lemma MillisecondsAreCutOff(d: int)
    ensures d >= 0 ==> Milliseconds(d) >= 0 && 0 <= d - 1_000_000 * Milliseconds(d) < 1_000_000
    ensures d <= 0 ==> Milliseconds(d) <= 0 && 0 <= 1_000_000 * Milliseconds(d) - d < 1_000_000
  {}

  /** What runGCRA passes to the script: both values truncated to milliseconds, the product in 64 bits. */
  function EmissionMs(rule: Rule): int { Milliseconds(EmissionInterval(rule)) }

  function ToleranceMs(rule: Rule): int { Milliseconds(Wrap64(rule.burst * EmissionInterval(rule))) }

  /** What runSlidingWindow passes to the script. */
  function WindowMs(rule: Rule): int { Milliseconds(rule.window) }
}
