/** Exact arithmetic over sequences of reals and counting over sequences:
    the `len`, `np.mean`, `np.min`, `np.max` and `Counter` counts of the source. */
module SeqMath {

  /** Sum of all elements, folded from the back so that appending one element adds it. */
  function Sum(s: seq<real>): real
  {
    if s == [] then 0.0 else Sum(s[..|s| - 1]) + s[|s| - 1]
  }

  function Mean(s: seq<real>): real
    requires s != []
  {
    Sum(s) / |s| as real
  }

  /** The smallest element (np.min): it occurs in `s` and bounds every element from below. */
  function Min(s: seq<real>): (m: real)
    requires s != []
    ensures m in s
    ensures forall i :: 0 <= i < |s| ==> m <= s[i]
  {
    if |s| == 1 then s[0]
    else
      var r := Min(s[..|s| - 1]);
      if s[|s| - 1] < r then s[|s| - 1] else r
  }

  /** The largest element (np.max): it occurs in `s` and bounds every element from above. */
  function Max(s: seq<real>): (m: real)
    requires s != []
    ensures m in s
    ensures forall i :: 0 <= i < |s| ==> s[i] <= m
  {
    if |s| == 1 then s[0]
    else
      var r := Max(s[..|s| - 1]);
      if s[|s| - 1] > r then s[|s| - 1] else r
  }

  /** If every element lies in [lo, hi], the sum lies in [lo * n, hi * n]. */
  lemma {:induction false} SumBounds(s: seq<real>, lo: real, hi: real)
    requires forall i :: 0 <= i < |s| ==> lo <= s[i] <= hi
    ensures lo * |s| as real <= Sum(s) <= hi * |s| as real
  {
    if s != [] {
      var p := s[..|s| - 1];
      assert forall i :: 0 <= i < |p| ==> p[i] == s[i];
      SumBounds(p, lo, hi);
      assert |s| as real == |p| as real + 1.0;
    }
  }

  /** The mean lies between the minimum and the maximum. */
  lemma MinLeMeanLeMax(s: seq<real>)
    requires s != []
    ensures Min(s) <= Mean(s) <= Max(s)
  {
    MeanAtLeast(s, Min(s));
    MeanAtMost(s, Max(s));
  }

  /** An upper bound of every element is an upper bound of the mean. */
  lemma MeanAtMost(s: seq<real>, hi: real)
    requires s != []
    requires forall i :: 0 <= i < |s| ==> s[i] <= hi
    ensures Mean(s) <= hi
  {
    SumBounds(s, Min(s), hi);
    var n := |s| as real;
    var m := Mean(s);
    assert m * n == Sum(s);
    assert (hi - m) * n == hi * n - Sum(s);
    NonnegFactor(hi - m, n);
  }

  /** A lower bound of every element is a lower bound of the mean. */
  lemma MeanAtLeast(s: seq<real>, lo: real)
    requires s != []
    requires forall i :: 0 <= i < |s| ==> lo <= s[i]
    ensures lo <= Mean(s)
  {
    SumBounds(s, lo, Max(s));
    var n := |s| as real;
    var m := Mean(s);
    assert m * n == Sum(s);
    assert (m - lo) * n == Sum(s) - lo * n;
    NonnegFactor(m - lo, n);
  }

  /** A product with a positive factor is non-negative only if the other factor is. */
  lemma NonnegFactor(x: real, n: real)
    requires n > 0.0 && x * n >= 0.0
    ensures x >= 0.0
  {
  }

  /** Number of occurrences of `x` in `s` (a `Counter` entry). */
  function Count<T(==)>(s: seq<T>, x: T): nat
  {
    if s == [] then 0 else Count(s[..|s| - 1], x) + (if s[|s| - 1] == x then 1 else 0)
  }

  lemma {:induction false} CountBounds<T>(s: seq<T>, x: T)
    ensures Count(s, x) <= |s|
    ensures x in s <==> Count(s, x) > 0
  {
    if s != [] {
      CountBounds(s[..|s| - 1], x);
      assert s == s[..|s| - 1] + [s[|s| - 1]];
    }
  }
}
