/** The rounding of integers to float64: to the nearest multiple of their unit in the last place, ties to even. */
module Float64 {

  // 2^53: integers up to this size are exact.
  const EXACT: int := 9_007_199_254_740_992

  /** The distance of neighbouring float64 values around m. */
  function Ulp(m: nat): (u: nat)
    ensures u >= 1
  {
    if m < EXACT then 1 else 2 * Ulp(m / 2)
  }

  /** q * u + r, for a remainder r, rounded to a multiple of u. */
  function Rounded(q: nat, r: nat, u: nat): nat {
    if 2 * r < u || (2 * r == u && q % 2 == 0) then q * u else (q + 1) * u
  }

  function RoundTo(m: nat, u: nat): nat
    requires u >= 1
  {
    Rounded(m / u, m % u, u)
  }

  function Nearest(n: int): int {
    if n < 0 then -(RoundTo(-n, Ulp(-n)) as int) else RoundTo(n, Ulp(n))
  }

  /**
   * What a float64 can be. Fractions stand for themselves; beyond 2^53 there are none, and only the integers that
   * rounding keeps.
   */
  predicate Representable(x: real) {
    -EXACT as real <= x <= EXACT as real || (x == x.Floor as real && Nearest(x.Floor) == x.Floor)
  }

  type Double = x: real | Representable(x)

  lemma {:induction false} UlpRange(m: nat)
    ensures m < EXACT * Ulp(m) && (Ulp(m) > 1 ==> 2 * m >= EXACT * Ulp(m)) && (Ulp(m) > 1 ==> Ulp(m) % 2 == 0)
  {
    if m >= EXACT { UlpRange(m / 2); }
  }

  /** Units are powers of two: the unit of a larger number is the same or at least twice as large. */
  lemma {:induction false} UlpGrows(m: nat, n: nat)
    requires m <= n
    ensures Ulp(m) == Ulp(n) || 2 * Ulp(m) <= Ulp(n)
  {
    if m >= EXACT { UlpGrows(m / 2, n / 2); }
  }

  lemma Further(a: nat, b: nat, u: nat)
    requires a < b
    ensures a * u + u == (a + 1) * u <= b * u
  {
    assert b * u == (a + 1) * u + (b - a - 1) * u;
    assert (b - a - 1) * u >= 0;
  }

  lemma Multiples(a: nat, b: nat, u: nat)
    ensures a < b ==> a * u + u <= b * u
    ensures a <= b ==> a * u <= b * u
    ensures (a + 1) * u == a * u + u
  {
    Further(a, a + 1, u);
    if a < b { Further(a, b, u); }
  }

  /** Rounding goes to one of the two neighbours, at no more than half a unit's distance. */
  lemma RoundsToNeighbour(q: nat, r: nat, u: nat)
    requires r < u
    ensures var n := Rounded(q, r, u);
            && (n == q * u || n == q * u + u) && (r == 0 ==> n == q * u)
            && 2 * (n - (q * u + r)) <= u && 2 * (q * u + r - n) <= u
  {
    Multiples(q, q, u);
  }

  lemma RoundedGrows(p: nat, r: nat, q: nat, s: nat, u: nat)
    requires r < u && s < u && p * u + r <= q * u + s
    ensures Rounded(p, r, u) <= Rounded(q, s, u)
  {
    RoundsToNeighbour(p, r, u);
    RoundsToNeighbour(q, s, u);
    Multiples(p, q, u);
    Multiples(q, p, u);
  }

  // A number of the binade in which u is the unit, by its quotient.
  lemma QuotientInRange(q: nat, r: nat, u: nat)
    requires r < u && q * u + r < EXACT * u
    ensures q + 1 <= EXACT && q * u + u <= EXACT * u
    ensures u % 2 == 0 && 2 * (q * u + r) >= EXACT * u ==> 2 * (q * u) >= EXACT * u
  {
    Multiples(EXACT, q, u);
    Multiples(q, EXACT, u);
    Multiples(q, EXACT / 2, u);
    Multiples(EXACT / 2, q, u);
    if q >= EXACT { assert false; }
  }

  lemma Parts(m: nat, u: nat) returns (q: nat, r: nat)
    requires u >= 1
    ensures q == m / u && r == m % u && r < u && m == q * u + r && RoundTo(m, u) == Rounded(q, r, u)
  {
    q, r := m / u, m % u;
  }

  /** A rounded number stays within the range in which its unit is used. */
  lemma RoundStaysInRange(m: nat)
    ensures var u := Ulp(m); RoundTo(m, u) <= EXACT * u && (u > 1 ==> 2 * RoundTo(m, u) >= EXACT * u)
  {
    UlpRange(m);
    var q, r := Parts(m, Ulp(m));
    RoundsToNeighbour(q, r, Ulp(m));
    QuotientInRange(q, r, Ulp(m));
  }

  lemma RoundGrows(m: nat, n: nat)
    requires m <= n
    ensures RoundTo(m, Ulp(m)) <= RoundTo(n, Ulp(n))
  {
    UlpGrows(m, n);
    if Ulp(m) == Ulp(n) {
      var p, r := Parts(m, Ulp(m));
      var q, s := Parts(n, Ulp(n));
      RoundedGrows(p, r, q, s, Ulp(m));
    } else {
      RoundStaysInRange(m);
      RoundStaysInRange(n);
    }
  }

  /** Rounding never turns an order round. */
  lemma NearestGrows(m: int, n: int)
    requires m <= n
    ensures Nearest(m) <= Nearest(n)
  {
    if m >= 0 {
      RoundGrows(m, n);
    } else if n < 0 {
      RoundGrows(-n, -m);
    }
  }

  lemma SmallIsExact(n: int)
    requires -EXACT <= n <= EXACT
    ensures Nearest(n) == n
  {
    assert Ulp(EXACT) == 2 * Ulp(EXACT / 2);
  }

  /** No representable integer is closer to m than what it is rounded to. */
  lemma NearestIsNearest(m: nat, x: nat)
    requires Nearest(x) == x
    ensures Nearest(m) - m <= (if x <= m then m - x else x - m)
    ensures m - Nearest(m) <= (if x <= m then m - x else x - m)
  {
    var q, r := Parts(m, Ulp(m));
    RoundsToNeighbour(q, r, Ulp(m));
    var p, s := Parts(x, Ulp(x));
    RoundsToNeighbour(p, s, Ulp(x));
    NoneBetween(m, q, r, x);
  }

  lemma NoneBetween(m: nat, q: nat, r: nat, x: nat)
    requires x % Ulp(x) == 0 && r < Ulp(m) && m == q * Ulp(m) + r
    ensures x <= q * Ulp(m) || x >= q * Ulp(m) + Ulp(m)
  {
    UlpRange(m);
    UlpRange(x);
    QuotientInRange(q, r, Ulp(m));
    if x <= m { UlpGrows(x, m); } else { UlpGrows(m, x); }
    if Ulp(m) == Ulp(x) {
      var p, zero := Parts(x, Ulp(x));
      Multiples(p, q, Ulp(m));
      Multiples(q, p, Ulp(m));
    }
  }

  lemma EvenMultiple(q: nat, u: nat)
    requires q % 2 == 0
    ensures q * u == q / 2 * (2 * u)
  {}

  lemma NeighboursTie(q: nat, r: nat, u: nat, x: nat)
    requires r < u && (x <= q * u || x >= q * u + u) && x != Rounded(q, r, u)
    requires var m, n := q * u + r, Rounded(q, r, u); m - x == n - m || x - m == m - n
    ensures 2 * r == u
    ensures if q % 2 == 0 then Rounded(q, r, u) == q * u && x == q * u + u
            else Rounded(q, r, u) == q * u + u && x == q * u
  {
    RoundsToNeighbour(q, r, u);
    Multiples(q, q, u);
  }

  /** When another representable integer x is as near, it is the neighbour, and the even one of the two is taken. */
  lemma TiesGoToEven(m: nat, x: nat) returns (k: nat, gap: nat)
    requires Nearest(x) == x && x != Nearest(m) && (m - x == Nearest(m) - m || x - m == m - Nearest(m))
    ensures gap == (if x < Nearest(m) then Nearest(m) - x else x - Nearest(m)) && Nearest(m) == k * (2 * gap)
  {
    var q, r := Parts(m, Ulp(m));
    var p, s := Parts(x, Ulp(x));
    RoundsToNeighbour(p, s, Ulp(x));
    NoneBetween(m, q, r, x);
    NeighboursTie(q, r, Ulp(m), x);
    gap := Ulp(m);
    var even := if q % 2 == 0 then q else q + 1;
    Multiples(q, q, gap);
    EvenMultiple(even, gap);
    k := even / 2;
  }

  function Power2(e: nat): (p: nat)
    ensures p >= 1
  {
    if e == 0 then 1 else 2 * Power2(e - 1)
  }

  lemma {:induction false} UlpIsPower(m: nat) returns (e: nat)
    ensures Ulp(m) == Power2(e)
  {
    e := 0;
    if m >= EXACT {
      e := UlpIsPower(m / 2);
      e := e + 1;
    }
  }

  lemma {:induction false} ScaledIsMultiple(n: nat, k: nat, e: nat) returns (j: nat)
    requires n == k * Power2(e) && k <= EXACT
    ensures n == j * Ulp(n)
  {
    j := n;
    if n >= EXACT {
      if e == 0 {
        j := n / 2;
        SmallIsExact(EXACT / 2);
      } else {
        var half := k * Power2(e - 1);
        assert n == 2 * half;
        j := ScaledIsMultiple(half, k, e - 1);
      }
    }
  }

  ghost predicate IsScaled(n: nat, k: nat, e: nat) {
    k <= 0x20_0000_0000_0000 && n == k * Power2(e)
  }

  /** Rounding keeps exactly the integers of at most 53 bits, times a power of two. */
  lemma KeptIffScaled(n: nat)
    ensures Nearest(n) == n <==> exists k, e :: IsScaled(n, k, e)
  {
    var q, r := Parts(n, Ulp(n));
    RoundsToNeighbour(q, r, Ulp(n));
    UlpRange(n);
    QuotientInRange(q, r, Ulp(n));
    var e := UlpIsPower(n);
    if Nearest(n) == n { assert IsScaled(n, q, e); }
    if k, d :| IsScaled(n, k, d) {
      var j := ScaledIsMultiple(n, k, d);
      Multiples(j, q, Ulp(n));
      Multiples(q, j, Ulp(n));
    }
  }

  lemma NearestIsSymmetric(n: int)
    ensures Nearest(-n) == -Nearest(n)
  {}

  lemma LargeIsWhole(x: Double) returns (k: int)
    requires !(-EXACT as real <= x <= EXACT as real)
    ensures x == k as real && Nearest(k) == k
  {
    k := x.Floor;
    assert Representable(x);
  }

  lemma OnItsSide(n: int)
    ensures n < -EXACT ==> Nearest(n) <= -EXACT
    ensures n > EXACT ==> Nearest(n) >= EXACT
    ensures -EXACT <= n <= EXACT ==> Nearest(n) == n
  {
    SmallIsExact(EXACT);
    SmallIsExact(-EXACT);
    if n < -EXACT { NearestGrows(n, -EXACT); } else if n > EXACT { NearestGrows(EXACT, n); } else { SmallIsExact(n); }
  }

  /** Nor does rounding an integer turn round its order with a float64. */
  lemma NearestIsBelow(n: int, x: Double)
    requires n as real <= x
    ensures Nearest(n) as real <= x
  {
    OnItsSide(n);
    if !(-EXACT as real <= x <= EXACT as real) {
      var k := LargeIsWhole(x);
      NearestGrows(n, k);
    }
  }

  lemma NearestIsAbove(n: int, x: Double)
    requires n as real >= x
    ensures Nearest(n) as real >= x
  {
    OnItsSide(n);
    if !(-EXACT as real <= x <= EXACT as real) {
      var k := LargeIsWhole(x);
      NearestGrows(k, n);
    }
  }
}
