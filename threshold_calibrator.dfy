/** The offline threshold calibrator (`analyze_thresholds.py`): pairwise distances between
    all stored encodings, split into same-user (intra) and different-user (inter) pairs,
    summary statistics of both lists, candidate thresholds, and the per-pair CSV rows. */
module ThresholdCalibrator {
  import opened Wrappers
  import opened SeqMath
  import opened Sorting
  import opened EncodingStore

  // ---------------------------------------------------------------- distance matrix

  /** The squared Euclidean distance of two vectors of one dimension. */
  function SqDist(a: Vec, b: Vec): (d: real)
    requires |a| == |b|
    ensures d >= 0.0
  {
    if a == [] then 0.0
    else
      var x := a[|a| - 1] - b[|b| - 1];
      SqDist(a[..|a| - 1], b[..|b| - 1]) + x * x
  }

  lemma {:induction false} SqDistSymmetric(a: Vec, b: Vec)
    requires |a| == |b|
    ensures SqDist(a, b) == SqDist(b, a)
  {
    if a != [] {
      SqDistSymmetric(a[..|a| - 1], b[..|b| - 1]);
      var x := a[|a| - 1] - b[|b| - 1];
      assert (-x) * (-x) == x * x;
    }
  }

  lemma {:induction false} SqDistSelf(a: Vec)
    ensures SqDist(a, a) == 0.0
  {
    if a != [] {
      SqDistSelf(a[..|a| - 1]);
    }
  }

  /** All encodings have one dimension, as `np.array(encodings)` needs for a 2-D array. */
  ghost predicate SameDim(encs: seq<Vec>)
  {
    forall i, j :: 0 <= i < |encs| && 0 <= j < |encs| ==> |encs[i]| == |encs[j]|
  }

  /** `D = np.linalg.norm(encs[:, None, :] - encs[None, :, :], axis=2)`, with the square root
      given. */
  function DistMatrix(encs: seq<Vec>, sqrt: real -> real): (d: seq<seq<real>>)
    requires SameDim(encs)
    ensures Square(d, |encs|)
  {
    seq(|encs|, i requires 0 <= i < |encs| =>
      seq(|encs|, j requires 0 <= j < |encs| => sqrt(SqDist(encs[i], encs[j]))))
  }

  /** The matrix is symmetric, and its diagonal is zero whenever the square root of zero is
      zero; so the pairs `i < j` carry every distinct off-diagonal distance. */
  lemma MatrixSymmetric(encs: seq<Vec>, sqrt: real -> real, i: nat, j: nat)
    requires SameDim(encs) && i < |encs| && j < |encs|
    ensures DistMatrix(encs, sqrt)[i][j] == DistMatrix(encs, sqrt)[j][i]
    ensures sqrt(0.0) == 0.0 ==> DistMatrix(encs, sqrt)[i][i] == 0.0
  {
    SqDistSymmetric(encs[i], encs[j]);
    SqDistSelf(encs[i]);
  }

  // ---------------------------------------------------------------- pairs

  /** The pairs `(i, k)` for `i < k < j`, in loop order. */
  function Row(i: nat, j: nat): (ps: seq<(nat, nat)>)
    ensures |ps| == if j > i then j - i - 1 else 0
    decreases j
  {
    if j <= i + 1 then [] else Row(i, j - 1) + [(i, j - 1)]
  }

  /** The pairs `(i, j)` with `i < r` and `i < j < n`, in the order of the nested loops. */
  function Pairs(n: nat, r: nat): seq<(nat, nat)>
    requires r <= n
  {
    if r == 0 then [] else Pairs(n, r - 1) + Row(r - 1, n)
  }

  /** A row holds the pairs `(i, k)` for `i < k < j`, by increasing `k`. */
  lemma {:induction false} RowMembers(i: nat, j: nat)
    ensures forall p :: p in Row(i, j) <==> p.0 == i && i < p.1 < j
    ensures forall a, b :: 0 <= a < b < |Row(i, j)| ==> Row(i, j)[a].1 < Row(i, j)[b].1
    decreases j
  {
    if j > i + 1 {
      RowMembers(i, j - 1);
    }
  }

  /** Every unordered pair of distinct indices below `n` occurs exactly once, with the
      smaller index first. */
  lemma {:induction false} PairsMembers(n: nat, r: nat)
    requires r <= n
    ensures forall p :: p in Pairs(n, r) <==> p.0 < r && p.0 < p.1 < n
    ensures forall a, b :: 0 <= a < b < |Pairs(n, r)| ==> Pairs(n, r)[a] != Pairs(n, r)[b]
  {
    if r > 0 {
      PairsMembers(n, r - 1);
      RowMembers(r - 1, n);
      var p: seq<(nat, nat)> := Pairs(n, r - 1);
      var q: seq<(nat, nat)> := Row(r - 1, n);
      var pq: seq<(nat, nat)> := p + q;
      assert Pairs(n, r) == pq;
      forall a: int, b: int | 0 <= a < b < |pq|
        ensures pq[a] != pq[b]
      {
        if b >= |p| && a < |p| {
          assert p[a] in p && q[b - |p|] in q;
        }
      }
    }
  }

  /** There are `n(n-1)/2` pairs. */
  lemma {:induction false} PairsCount(n: nat, r: nat)
    requires r <= n
    ensures 2 * |Pairs(n, r)| == r * (2 * n - r - 1)
  {
    if r > 0 {
      PairsCount(n, r - 1);
      assert |Pairs(n, r)| == |Pairs(n, r - 1)| + (n - r);
      var m := 2 * n - r;
      assert (r - 1) * m == r * m - m;
      assert r * (m - 1) == r * m - r;
    }
  }

  // ---------------------------------------------------------------- partition

  /** An `n` by `n` matrix. */
  ghost predicate Square(d: seq<seq<real>>, n: nat)
  {
    |d| == n && forall i :: 0 <= i < n ==> |d[i]| == n
  }

  /** The pair indexes both `names` and the matrix. */
  predicate Indexes(p: (nat, nat), names: seq<string>, d: seq<seq<real>>)
  {
    p.0 < |names| && p.1 < |names| && p.0 < |d| && p.1 < |d[p.0]|
  }

  /** Every pair of `Pairs(n, n)` indexes `n` names and an `n` by `n` matrix. */
  lemma PairsIndex(names: seq<string>, d: seq<seq<real>>, n: nat)
    requires (n <= 1 || n <= |names|) && Square(d, n)
    ensures forall p :: p in Pairs(n, n) ==> Indexes(p, names, d)
  {
    PairsMembers(n, n);
  }

  /** One more pair, appended to the intra list when its two names are equal and to the inter
      list otherwise (a pair that indexes nothing is passed over). */
  function AddPair(r: (seq<real>, seq<real>), p: (nat, nat), names: seq<string>, d: seq<seq<real>>): (seq<real>, seq<real>)
  {
    if !Indexes(p, names, d) then r
    else if names[p.0] == names[p.1] then (r.0 + [d[p.0][p.1]], r.1)
    else (r.0, r.1 + [d[p.0][p.1]])
  }

  /** The intra and inter distance lists of the pairs `ps`, in order: a pair is intra exactly
      when its two names are equal. (A pair that indexes nothing is passed over; there is no
      such pair among `Pairs(n, n)`, by `PairsIndex`.) */
  function Split(ps: seq<(nat, nat)>, names: seq<string>, d: seq<seq<real>>): (r: (seq<real>, seq<real>))
  {
    if ps == [] then ([], [])
    else AddPair(Split(ps[..|ps| - 1], names, d), ps[|ps| - 1], names, d)
  }

  /** Each pair that indexes lands in exactly one list, so the two lists hold as many
      distances as there are such pairs. */
  lemma {:induction false} SplitCount(ps: seq<(nat, nat)>, names: seq<string>, d: seq<seq<real>>)
    requires forall k :: 0 <= k < |ps| ==> Indexes(ps[k], names, d)
    ensures |Split(ps, names, d).0| + |Split(ps, names, d).1| == |ps|
  {
    if ps != [] {
      SplitCount(ps[..|ps| - 1], names, d);
    }
  }

  /** The list a pair lands in is decided by its names: every intra distance is the distance
      of a same-name pair and every inter distance that of a different-name pair. */
  lemma {:induction false} SplitSides(ps: seq<(nat, nat)>, names: seq<string>, d: seq<seq<real>>)
    ensures forall x :: x in Split(ps, names, d).0 ==>
              exists k :: 0 <= k < |ps| && Indexes(ps[k], names, d)
                && names[ps[k].0] == names[ps[k].1] && d[ps[k].0][ps[k].1] == x
    ensures forall x :: x in Split(ps, names, d).1 ==>
              exists k :: 0 <= k < |ps| && Indexes(ps[k], names, d)
                && names[ps[k].0] != names[ps[k].1] && d[ps[k].0][ps[k].1] == x
  {
    if ps != [] {
      var m := |ps| - 1;
      var pre := ps[..m];
      SplitSides(pre, names, d);
      forall x | x in Split(pre, names, d).0
        ensures exists k :: 0 <= k < |ps| && Indexes(ps[k], names, d)
                  && names[ps[k].0] == names[ps[k].1] && d[ps[k].0][ps[k].1] == x
      {
        var k :| 0 <= k < m && Indexes(pre[k], names, d)
                 && names[pre[k].0] == names[pre[k].1] && d[pre[k].0][pre[k].1] == x;
        assert ps[k] == pre[k];
      }
      forall x | x in Split(pre, names, d).1
        ensures exists k :: 0 <= k < |ps| && Indexes(ps[k], names, d)
                  && names[ps[k].0] != names[ps[k].1] && d[ps[k].0][ps[k].1] == x
      {
        var k :| 0 <= k < m && Indexes(pre[k], names, d)
                 && names[pre[k].0] != names[pre[k].1] && d[pre[k].0][pre[k].1] == x;
        assert ps[k] == pre[k];
      }
    }
  }

  lemma SplitSnoc(ps: seq<(nat, nat)>, p: (nat, nat), names: seq<string>, d: seq<seq<real>>)
    ensures Split(ps + [p], names, d) == AddPair(Split(ps, names, d), p, names, d)
  {
    assert (ps + [p])[..|ps|] == ps;
  }

  /** The pairs visited before the inner loop reaches column `j` of row `i`, and one more. */
  lemma RowNext(pre: seq<(nat, nat)>, i: nat, j: nat)
    requires i < j
    ensures pre + Row(i, j + 1) == (pre + Row(i, j)) + [(i, j)]
  {
  }

  /** The two lists once the outer loop has finished the rows before `i`. */
  function SplitBefore(names: seq<string>, d: seq<seq<real>>, n: nat, i: nat): (seq<real>, seq<real>)
    requires i <= n
    decreases i, 0
  {
    if i == 0 then ([], []) else SplitUpTo(names, d, n, i - 1, n)
  }

  /** The two lists once the inner loop of row `i` has reached column `j`. */
  function SplitUpTo(names: seq<string>, d: seq<seq<real>>, n: nat, i: nat, j: nat): (seq<real>, seq<real>)
    requires i < j <= n
    decreases i, j
  {
    if j == i + 1 then SplitBefore(names, d, n, i)
    else AddPair(SplitUpTo(names, d, n, i, j - 1), (i, j - 1), names, d)
  }

  /** Loop by loop, the lists are those of the pairs visited so far. */
  lemma {:induction false} SplitBeforePairs(names: seq<string>, d: seq<seq<real>>, n: nat, i: nat)
    requires i <= n
    ensures SplitBefore(names, d, n, i) == Split(Pairs(n, i), names, d)
    decreases i, 0
  {
    if i > 0 {
      SplitUpToPairs(names, d, n, i - 1, n);
    }
  }

  lemma {:induction false} SplitUpToPairs(names: seq<string>, d: seq<seq<real>>, n: nat, i: nat, j: nat)
    requires i < j <= n
    ensures SplitUpTo(names, d, n, i, j) == Split(Pairs(n, i) + Row(i, j), names, d)
    decreases i, j
  {
    if j == i + 1 {
      SplitBeforePairs(names, d, n, i);
      assert Pairs(n, i) + Row(i, j) == Pairs(n, i);
    } else {
      SplitUpToPairs(names, d, n, i, j - 1);
      SplitUpToStep(names, d, n, i, j);
    }
  }

  lemma SplitUpToStep(names: seq<string>, d: seq<seq<real>>, n: nat, i: nat, j: nat)
    requires i + 1 < j <= n
    requires SplitUpTo(names, d, n, i, j - 1) == Split(Pairs(n, i) + Row(i, j - 1), names, d)
    ensures SplitUpTo(names, d, n, i, j) == Split(Pairs(n, i) + Row(i, j), names, d)
  {
    var q := Pairs(n, i) + Row(i, j - 1);
    RowNext(Pairs(n, i), i, j - 1);
    SplitSnoc(q, (i, j - 1), names, d);
  }

  /** The nested loop over `i < j`: each pair's distance is appended to `intra` when the two
      names are equal and to `inter` otherwise. */
  method PartitionPairs(names: seq<string>, d: seq<seq<real>>, n: nat) returns (intra: seq<real>, inter: seq<real>)
    requires (n <= 1 || n <= |names|) && Square(d, n)
    ensures (intra, inter) == Split(Pairs(n, n), names, d)
    ensures 2 * (|intra| + |inter|) == n * (n - 1)
  {
    intra, inter := [], [];
    var i := 0;
    while i < n
      invariant 0 <= i <= n
      invariant (intra, inter) == SplitBefore(names, d, n, i)
    {
      var j := i + 1;
      while j < n
        invariant i + 1 <= j <= n
        invariant (intra, inter) == SplitUpTo(names, d, n, i, j)
      {
        if names[i] == names[j] {
          intra := intra + [d[i][j]];
        } else {
          inter := inter + [d[i][j]];
        }
        j := j + 1;
      }
      i := i + 1;
    }
    SplitBeforePairs(names, d, n, n);
    PairsIndex(names, d, n);
    var ps := Pairs(n, n);
    forall k | 0 <= k < |ps| ensures Indexes(ps[k], names, d) {
      assert ps[k] in ps;
    }
    SplitCount(ps, names, d);
    PairsCount(n, n);
  }

  // ---------------------------------------------------------------- statistics

  predicate RealLe(a: real, b: real)
  {
    a <= b
  }

  lemma RealLeIsTotalPreorder()
    ensures TotalPreorder(RealLe)
  {
  }

  /** `np.sort`: the values in ascending order. */
  function SortedValues(s: seq<real>): (a: seq<real>)
    ensures |a| == |s| && multiset(a) == multiset(s)
    ensures forall i, j :: 0 <= i < j < |a| ==> a[i] <= a[j]
  {
    RealLeIsTotalPreorder();
    SortSorted(s, RealLe);
    Sort(s, RealLe)
  }

  /** The sorted values lie between the minimum and the maximum. */
  lemma SortedWithin(s: seq<real>, k: nat)
    requires s != [] && k < |s|
    ensures Min(s) <= SortedValues(s)[k] <= Max(s)
  {
    var a := SortedValues(s);
    assert a[k] in multiset(s);
    var m :| 0 <= m < |s| && s[m] == a[k];
  }

  /** The point a fraction `f` of the way from `x` to `y`; it lies between the two. */
  function Lerp(x: real, y: real, f: real): (r: real)
    requires 0.0 <= f <= 1.0 && x <= y
    ensures x <= r <= y
    ensures f == 0.0 ==> r == x
    ensures f == 0.5 ==> r == (x + y) / 2.0
  {
    var dd := y - x;
    assert f * dd >= 0.0;
    assert (1.0 - f) * dd >= 0.0;
    assert (1.0 - f) * dd == dd - f * dd;
    x + f * dd
  }

  /** The point moves towards `y` as the fraction grows. */
  lemma LerpMonotone(x: real, y: real, f1: real, f2: real)
    requires 0.0 <= f1 <= f2 <= 1.0 && x <= y
    ensures Lerp(x, y, f1) <= Lerp(x, y, f2)
  {
    var dd := y - x;
    assert (f2 - f1) * dd >= 0.0;
    assert f2 * dd - f1 * dd == (f2 - f1) * dd;
  }

  /** `q/100 * (n-1)`: the fractional position of the `q`-th percentile among `n` values. */
  function Position(n: nat, q: real): (pos: real)
    requires n > 0 && 0.0 <= q <= 100.0
    ensures 0.0 <= pos <= (n - 1) as real
  {
    var m := (n - 1) as real;
    assert m * q <= m * 100.0 by {
      assert m * (100.0 - q) >= 0.0;
    }
    m * q / 100.0
  }

  lemma PositionMonotone(n: nat, q1: real, q2: real)
    requires n > 0 && 0.0 <= q1 <= q2 <= 100.0
    ensures Position(n, q1) <= Position(n, q2)
  {
    var m := (n - 1) as real;
    assert m * (q2 - q1) >= 0.0;
  }

  /** The value at fractional position `pos` of the sorted values `a`, by linear
      interpolation between its two neighbours. */
  function Interpolate(a: seq<real>, pos: real): (r: real)
    requires a != [] && 0.0 <= pos <= (|a| - 1) as real
    requires forall i, j :: 0 <= i < j < |a| ==> a[i] <= a[j]
    ensures a[0] <= r <= a[|a| - 1]
    ensures 0 <= pos.Floor < |a| && a[pos.Floor] <= r
    ensures pos.Floor + 1 < |a| ==> r <= a[pos.Floor + 1]
  {
    var lo := pos.Floor;
    assert 0 <= lo < |a|;
    assert a[0] <= a[lo] <= a[|a| - 1];
    if lo + 1 >= |a| then a[lo]
    else
      assert a[lo + 1] <= a[|a| - 1];
      Lerp(a[lo], a[lo + 1], pos - lo as real)
  }

  /** Interpolation grows with the position. */
  lemma InterpolateMonotone(a: seq<real>, pos1: real, pos2: real)
    requires a != [] && 0.0 <= pos1 <= pos2 <= (|a| - 1) as real
    requires forall i, j :: 0 <= i < j < |a| ==> a[i] <= a[j]
    ensures Interpolate(a, pos1) <= Interpolate(a, pos2)
  {
    var lo1, lo2 := pos1.Floor, pos2.Floor;
    if lo1 == lo2 {
      if lo1 + 1 < |a| {
        LerpMonotone(a[lo1], a[lo1 + 1], pos1 - lo1 as real, pos2 - lo1 as real);
      }
    } else {
      assert lo1 + 1 <= lo2;
      assert a[lo1 + 1] <= a[lo2];
    }
  }

  /** `np.percentile(s, q)` with linear interpolation: the value at the fractional position
      `q/100 * (n-1)` of the sorted values. */
  function Percentile(s: seq<real>, q: real): (r: real)
    requires s != [] && 0.0 <= q <= 100.0
    ensures Min(s) <= r <= Max(s)
  {
    var a := SortedValues(s);
    SortedWithin(s, 0);
    SortedWithin(s, |s| - 1);
    Interpolate(a, Position(|s|, q))
  }

  /** Percentiles grow with `q`, so `p05 <= p25 <= p75 <= p95`. */
  lemma PercentileMonotone(s: seq<real>, q1: real, q2: real)
    requires s != [] && 0.0 <= q1 <= q2 <= 100.0
    ensures Percentile(s, q1) <= Percentile(s, q2)
  {
    PositionMonotone(|s|, q1, q2);
    InterpolateMonotone(SortedValues(s), Position(|s|, q1), Position(|s|, q2));
  }

  /** `np.median`: the middle sorted value, or the mean of the two middle ones. */
  function Median(s: seq<real>): real
    requires s != []
  {
    var a := SortedValues(s);
    var n := |s|;
    if n % 2 == 1 then a[n / 2] else (a[n / 2 - 1] + a[n / 2]) / 2.0
  }

  /** The median is the 50th percentile. */
  lemma MedianIsPercentile50(s: seq<real>)
    requires s != []
    ensures Median(s) == Percentile(s, 50.0)
  {
    var n := |s|;
    var a := SortedValues(s);
    var pos := Position(n, 50.0);
    var k := n / 2;
    assert pos == (n - 1) as real / 2.0;
    if n % 2 == 1 {
      assert n == 2 * k + 1;
      assert pos == k as real;
      assert pos.Floor == k;
      InterpolateAt(a, pos, k);
    } else {
      assert n == 2 * k && k >= 1;
      assert pos == (k - 1) as real + 0.5;
      assert pos.Floor == k - 1;
      InterpolateAt(a, pos, k - 1);
    }
  }

  /** Interpolation at a position whose floor is `lo`. */
  lemma InterpolateAt(a: seq<real>, pos: real, lo: nat)
    requires a != [] && 0.0 <= pos <= (|a| - 1) as real
    requires forall i, j :: 0 <= i < j < |a| ==> a[i] <= a[j]
    requires pos.Floor == lo
    ensures lo < |a|
    ensures pos == lo as real ==> Interpolate(a, pos) == a[lo]
    ensures lo + 1 < |a| && pos == lo as real + 0.5 ==> Interpolate(a, pos) == (a[lo] + a[lo + 1]) / 2.0
  {
  }

  lemma SquareNonneg(x: real)
    ensures x * x >= 0.0
  {
    if x < 0.0 {
      assert x * x == (-x) * (-x);
    }
  }

  /** `np.var`: the mean squared deviation from the mean. */
  function Variance(s: seq<real>): (v: real)
    requires s != []
    ensures v >= 0.0
  {
    var m := Mean(s);
    var dev := seq(|s|, i requires 0 <= i < |s| => (s[i] - m) * (s[i] - m));
    forall i | 0 <= i < |dev| ensures 0.0 <= dev[i] {
      SquareNonneg(s[i] - m);
    }
    MeanAtLeast(dev, 0.0);
    Mean(dev)
  }

  /** The fields of `stats` for a non-empty list. */
  datatype Summary = Summary(mean: real, median: real, std: real, min: real, max: real,
                             p05: real, p25: real, p75: real, p95: real)

  /** `stats(arr)`: the count, and every other field `None` on an empty list. */
  datatype Stats = Stats(count: nat, summary: Option<Summary>)

  /** `stats(arr)`, with the square root of `np.std` given. */
  function StatsOf(arr: seq<real>, sqrt: real -> real): (st: Stats)
    ensures st.count == |arr|
    ensures st.summary.None? <==> arr == []
    ensures st.summary.Some? ==>
      var m := st.summary.value;
      && m.min <= m.mean <= m.max
      && m.min <= m.p05 <= m.p25 <= m.median <= m.p75 <= m.p95 <= m.max
      && m.min == Min(arr) && m.max == Max(arr) && m.mean == Mean(arr)
  {
    if arr == [] then Stats(0, None)
    else
      MinLeMeanLeMax(arr);
      PercentileMonotone(arr, 5.0, 25.0);
      PercentileMonotone(arr, 25.0, 50.0);
      PercentileMonotone(arr, 50.0, 75.0);
      PercentileMonotone(arr, 75.0, 95.0);
      MedianIsPercentile50(arr);
      Stats(|arr|, Some(Summary(Mean(arr), Median(arr), sqrt(Variance(arr)), Min(arr), Max(arr),
                                Percentile(arr, 5.0), Percentile(arr, 25.0),
                                Percentile(arr, 75.0), Percentile(arr, 95.0))))
  }

  // ---------------------------------------------------------------- candidates

  /** The suggested thresholds: three midpoints, in this order, when both lists have pairs;
      none otherwise. */
  function Candidates(intra: seq<real>, inter: seq<real>): (cs: seq<(string, real)>)
    ensures cs == [] <==> intra == [] || inter == []
    ensures cs != [] ==>
      && |cs| == 3
      && cs[0].0 == "mid_95in_05out" && cs[1].0 == "mid_mean" && cs[2].0 == "mid_median"
      && Between(cs[0].1, Percentile(intra, 95.0), Percentile(inter, 5.0))
      && Between(cs[1].1, Mean(intra), Mean(inter))
      && Between(cs[2].1, Median(intra), Median(inter))
      && (Mean(intra) != Mean(inter) ==> StrictlyBetween(cs[1].1, Mean(intra), Mean(inter)))
  {
    if intra != [] && inter != [] then
      [("mid_95in_05out", (Percentile(intra, 95.0) + Percentile(inter, 5.0)) / 2.0),
       ("mid_mean", (Mean(intra) + Mean(inter)) / 2.0),
       ("mid_median", (Median(intra) + Median(inter)) / 2.0)]
    else []
  }

  /** `c` lies between `x` and `y`, in either order. */
  predicate Between(c: real, x: real, y: real)
  {
    (x <= c <= y) || (y <= c <= x)
  }

  predicate StrictlyBetween(c: real, x: real, y: real)
  {
    (x < c < y) || (y < c < x)
  }

  /** When every intra distance is at most every inter distance, each candidate sits between
      the intra statistic and the inter statistic it is built from, in that order, and so
      inside the range from the smallest intra to the largest inter distance. */
  lemma SeparatedCandidates(intra: seq<real>, inter: seq<real>)
    requires intra != [] && inter != []
    requires Max(intra) <= Min(inter)
    ensures var cs := Candidates(intra, inter);
      && Percentile(intra, 95.0) <= cs[0].1 <= Percentile(inter, 5.0)
      && Mean(intra) <= cs[1].1 <= Mean(inter)
      && Median(intra) <= cs[2].1 <= Median(inter)
      && forall k :: 0 <= k < 3 ==> Min(intra) <= cs[k].1 <= Max(inter)
  {
    MinLeMeanLeMax(intra);
    MinLeMeanLeMax(inter);
    MedianIsPercentile50(intra);
    MedianIsPercentile50(inter);
  }

  // ---------------------------------------------------------------- CSV rows

  datatype PairKind = Intra | Inter

  /** A line of `distance_pairs.csv`. */
  datatype PairRow = PairRow(i: nat, j: nat, nameI: string, nameJ: string, dist: real, kind: PairKind)

  const CsvHeader: string := "i,j,name_i,name_j,distance,type"

  /** The row of one pair that indexes names and matrix. */
  function RowOf(p: (nat, nat), names: seq<string>, d: seq<seq<real>>): PairRow
    requires Indexes(p, names, d)
  {
    PairRow(p.0, p.1, names[p.0], names[p.1], d[p.0][p.1], if names[p.0] == names[p.1] then Intra else Inter)
  }

  /** One more pair's row at the end (a pair that indexes nothing is passed over). */
  function AddRow(rows: seq<PairRow>, p: (nat, nat), names: seq<string>, d: seq<seq<real>>): seq<PairRow>
  {
    if Indexes(p, names, d) then rows + [RowOf(p, names, d)] else rows
  }

  /** The rows of the pairs `ps`, in order (passing over a pair that indexes nothing, as
      `Split` does). */
  function RowsOf(ps: seq<(nat, nat)>, names: seq<string>, d: seq<seq<real>>): seq<PairRow>
  {
    if ps == [] then [] else AddRow(RowsOf(ps[..|ps| - 1], names, d), ps[|ps| - 1], names, d)
  }

  lemma RowsSnoc(ps: seq<(nat, nat)>, p: (nat, nat), names: seq<string>, d: seq<seq<real>>)
    ensures RowsOf(ps + [p], names, d) == AddRow(RowsOf(ps, names, d), p, names, d)
  {
    assert (ps + [p])[..|ps|] == ps;
  }

  /** The rows written once the outer loop has finished the rows before `i`. */
  function RowsBefore(names: seq<string>, d: seq<seq<real>>, n: nat, i: nat): seq<PairRow>
    requires i <= n
    decreases i, 0
  {
    if i == 0 then [] else RowsUpTo(names, d, n, i - 1, n)
  }

  /** The rows written once the inner loop of row `i` has reached column `j`. */
  function RowsUpTo(names: seq<string>, d: seq<seq<real>>, n: nat, i: nat, j: nat): seq<PairRow>
    requires i < j <= n
    decreases i, j
  {
    if j == i + 1 then RowsBefore(names, d, n, i)
    else AddRow(RowsUpTo(names, d, n, i, j - 1), (i, j - 1), names, d)
  }

  /** Loop by loop, the rows are those of the pairs visited so far. */
  lemma {:induction false} RowsBeforePairs(names: seq<string>, d: seq<seq<real>>, n: nat, i: nat)
    requires i <= n
    ensures RowsBefore(names, d, n, i) == RowsOf(Pairs(n, i), names, d)
    decreases i, 0
  {
    if i > 0 {
      RowsUpToPairs(names, d, n, i - 1, n);
    }
  }

  lemma {:induction false} RowsUpToPairs(names: seq<string>, d: seq<seq<real>>, n: nat, i: nat, j: nat)
    requires i < j <= n
    ensures RowsUpTo(names, d, n, i, j) == RowsOf(Pairs(n, i) + Row(i, j), names, d)
    decreases i, j
  {
    if j == i + 1 {
      RowsBeforePairs(names, d, n, i);
      assert Pairs(n, i) + Row(i, j) == Pairs(n, i);
    } else {
      RowsUpToPairs(names, d, n, i, j - 1);
      RowsUpToStep(names, d, n, i, j);
    }
  }

  lemma RowsUpToStep(names: seq<string>, d: seq<seq<real>>, n: nat, i: nat, j: nat)
    requires i + 1 < j <= n
    requires RowsUpTo(names, d, n, i, j - 1) == RowsOf(Pairs(n, i) + Row(i, j - 1), names, d)
    ensures RowsUpTo(names, d, n, i, j) == RowsOf(Pairs(n, i) + Row(i, j), names, d)
  {
    var q := Pairs(n, i) + Row(i, j - 1);
    RowNext(Pairs(n, i), i, j - 1);
    RowsSnoc(q, (i, j - 1), names, d);
  }

  /** The distances of the rows of one kind, in order. */
  function DistsOfKind(rows: seq<PairRow>, kind: PairKind): seq<real>
  {
    if rows == [] then []
    else DistsOfKind(rows[..|rows| - 1], kind) + (if rows[|rows| - 1].kind == kind then [rows[|rows| - 1].dist] else [])
  }

  /** The CSV agrees with the partition: its `intra` rows carry exactly the intra list and its
      `inter` rows the inter list, in the same order. */
  lemma {:induction false} RowsMatchSplit(ps: seq<(nat, nat)>, names: seq<string>, d: seq<seq<real>>)
    ensures DistsOfKind(RowsOf(ps, names, d), Intra) == Split(ps, names, d).0
    ensures DistsOfKind(RowsOf(ps, names, d), Inter) == Split(ps, names, d).1
  {
    if ps != [] {
      var m := |ps| - 1;
      RowsMatchSplit(ps[..m], names, d);
      var pre := RowsOf(ps[..m], names, d);
      if Indexes(ps[m], names, d) {
        var rows := pre + [RowOf(ps[m], names, d)];
        assert RowsOf(ps, names, d) == rows;
        assert rows[..|rows| - 1] == pre;
      } else {
        assert RowsOf(ps, names, d) == pre;
        assert Split(ps, names, d) == Split(ps[..m], names, d);
      }
    }
  }

  /** One row per pair, in pair order: the k-th row names the k-th pair and is typed `intra`
      exactly when the two names are equal. */
  lemma {:induction false} RowsOfPairs(ps: seq<(nat, nat)>, names: seq<string>, d: seq<seq<real>>)
    requires forall k :: 0 <= k < |ps| ==> Indexes(ps[k], names, d)
    ensures |RowsOf(ps, names, d)| == |ps|
    ensures forall k :: 0 <= k < |ps| ==>
      var r := RowsOf(ps, names, d)[k];
      && Indexes(ps[k], names, d)
      && r.i == ps[k].0 && r.j == ps[k].1 && r.nameI == names[ps[k].0] && r.nameJ == names[ps[k].1]
      && r.dist == d[ps[k].0][ps[k].1] && (r.kind == Intra <==> r.nameI == r.nameJ)
  {
    if ps != [] {
      var m := |ps| - 1;
      RowsOfPairs(ps[..m], names, d);
      var rows := RowsOf(ps, names, d);
      forall k | 0 <= k < m
        ensures rows[k] == RowsOf(ps[..m], names, d)[k] && ps[k] == ps[..m][k]
      {
      }
    }
  }

  /** The CSV loop: one row per pair `i < j`, typed `intra` exactly when the names match. */
  method PairRows(names: seq<string>, d: seq<seq<real>>, n: nat) returns (rows: seq<PairRow>)
    requires (n <= 1 || n <= |names|) && Square(d, n)
    ensures rows == RowsOf(Pairs(n, n), names, d)
  {
    rows := [];
    var i := 0;
    while i < n
      invariant 0 <= i <= n
      invariant rows == RowsBefore(names, d, n, i)
    {
      var j := i + 1;
      while j < n
        invariant i + 1 <= j <= n
        invariant rows == RowsUpTo(names, d, n, i, j)
      {
        var t := if names[i] == names[j] then Intra else Inter;
        rows := rows + [PairRow(i, j, names[i], names[j], d[i][j], t)];
        j := j + 1;
      }
      i := i + 1;
    }
    RowsBeforePairs(names, d, n, n);
  }

  // ---------------------------------------------------------------- the script

  datatype AnalyzeError = EmptyStore

  /** What the script prints and writes. */
  datatype Report = Report(intra: Stats, inter: Stats, candidates: seq<(string, real)>, rows: seq<PairRow>)

  /** The whole script on a loaded store: an error when it holds no encodings; otherwise the
      statistics of both lists, the candidates and the CSV rows. */
  method Analyze(st: EncStore, sqrt: real -> real) returns (r: Result<Report, AnalyzeError>)
    requires SameDim(st.encodings)
    requires |st.encodings| <= 1 || |st.encodings| <= |st.names|
    ensures r.Err? <==> st.encodings == []
    ensures r.Ok? ==>
      var n := |st.encodings|;
      var d := DistMatrix(st.encodings, sqrt);
      var split := Split(Pairs(n, n), st.names, d);
      && r.value.intra == StatsOf(split.0, sqrt)
      && r.value.inter == StatsOf(split.1, sqrt)
      && r.value.candidates == Candidates(split.0, split.1)
      && r.value.rows == RowsOf(Pairs(n, n), st.names, d)
      && 2 * (r.value.intra.count + r.value.inter.count) == n * (n - 1)
  {
    if st.encodings == [] {
      return Err(EmptyStore);
    }
    var n := |st.encodings|;
    var d := DistMatrix(st.encodings, sqrt);
    var intra, inter := PartitionPairs(st.names, d, n);
    var rows := PairRows(st.names, d, n);
    r := Ok(Report(StatsOf(intra, sqrt), StatsOf(inter, sqrt), Candidates(intra, inter), rows));
  }
}
