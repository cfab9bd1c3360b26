/** Products and quotients of variables, kept away from the proofs that use them. */
module Arith {

  lemma Successor(n: int, step: int)
    ensures (n + 1) * step == n * step + step
  {}

  lemma LargestMultiple(slack: nat, step: nat, j: nat)
    requires step > 0
    ensures j * step <= slack <==> j <= slack / step
  {
    var q := slack / step;
    if j <= q {
      assert (q - j) * step >= 0;
    } else {
      assert (j - q - 1) * step >= 0;
    }
  }

  lemma AtMost(n: nat, slack: nat, step: nat)
    requires step > 0 && n * step <= slack
    ensures n <= slack / step
  {
    LargestMultiple(slack, step, n);
  }

  lemma NestedFloor(n: nat, a: nat, b: nat)
    requires a > 0 && b > 0
    ensures a * b > 0 && n / a / b == n / (a * b)
  {
    var m := n / a;
    Regroup(a, b, m / b, m % b);
    Below(a, b, m % b, n % a);
    Multiple(a, b);
    Quotient(n, a * b, m / b, a * (m % b) + n % a);
  }

  lemma Regroup(a: nat, b: nat, q: nat, s: nat)
    ensures a * (b * q + s) == a * b * q + a * s
  {}

  lemma Below(a: nat, b: nat, s: nat, r: nat)
    requires s < b && r < a
    ensures a * s + r < a * b
  {
    AtMostProduct(a, s, b - 1);
    assert a * (b - 1) == a * b - a;
  }

  lemma Quotient(n: nat, d: nat, q: nat, r: nat)
    requires n == d * q + r && r < d
    ensures n / d == q
  {
    var p := n / d;
    var rest := n % d;
    assert d * (p - q) == r - rest by {
      assert d * (p - q) == d * p - d * q;
    }
    if p > q {
      Multiple(d, p - q);
    } else if p < q {
      Multiple(d, q - p);
    }
  }

  lemma Multiple(d: nat, k: int)
    requires k >= 1
    ensures d * k >= d
  {
    assert d * k == d + d * (k - 1);
  }

  lemma AtMostProduct(b: nat, f: nat, m: nat)
    requires f <= m
    ensures 0 <= b * f <= b * m
  {
    assert b * m == b * f + b * (m - f);
  }
}
