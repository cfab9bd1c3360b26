/** Ordered sequences of instants and how many of them fall in an interval. */
module Timeline {

  ghost predicate Ordered(h: seq<int>) {
    forall i, j :: 0 <= i < j < |h| ==> h[i] <= h[j]
  }

  function Repeat<T>(t: T, n: nat): (r: seq<T>)
    ensures |r| == n && forall i :: 0 <= i < n ==> r[i] == t
  {
    seq(n, _ => t)
  }

  /** How many instants x of h satisfy lo <= x < hi. */
  function Count(h: seq<int>, lo: int, hi: int): nat {
    if h == [] then 0
    else
      var n := |h| - 1;
      Count(h[..n], lo, hi) + if lo <= h[n] < hi then 1 else 0
  }

  lemma CountAppend(h: seq<int>, t: int, lo: int, hi: int)
    ensures Count(h + [t], lo, hi) == Count(h, lo, hi) + if lo <= t < hi then 1 else 0
  {
    assert (h + [t])[..|h|] == h;
  }

  /** In an ordered sequence the counted instants are the consecutive positions i..j. */
  lemma {:induction false} CountSpan(h: seq<int>, lo: int, hi: int) returns (i: nat, j: nat)
    requires Ordered(h) && Count(h, lo, hi) > 0
    ensures i <= j < |h| && j - i + 1 == Count(h, lo, hi)
    ensures forall k :: 0 <= k < |h| ==> (i <= k <= j <==> lo <= h[k] < hi)
  {
    var n := |h| - 1;
    var front := h[..n];
    if Count(front, lo, hi) == 0 {
      NothingCounted(front, lo, hi);
      i, j := n, n;
    } else {
      i, j := CountSpan(front, lo, hi);
      if lo <= h[n] < hi {
        assert j == n - 1 by {
          assert front[n - 1] <= h[n] && front[j] <= front[n - 1];
        }
        j := n;
      }
    }
  }

  lemma {:induction false} NothingCounted(h: seq<int>, lo: int, hi: int)
    ensures Count(h, lo, hi) == 0 <==> forall k :: 0 <= k < |h| ==> !(lo <= h[k] < hi)
  {
    if h != [] {
      NothingCounted(h[..|h| - 1], lo, hi);
    }
  }
}
