/** The per-face decision of `api_recognize`: a k-nearest-neighbour vote over the flat
    encoding list, a per-user minimum-distance fallback, and the four-way decision table
    (accept, low_confidence, accept_fallback, no_match). Distances are given: for each
    detected face, `face_distance` is a function from a reference encoding to a distance. */
module MatchDecider {
  import opened Wrappers
  import opened SeqMath
  import opened Sorting
  import opened EncodingStore
  import opened UserIndex

  /** A Euclidean distance: never negative. */
  type Distance = r: real | 0.0 <= r

  /** MATCH_THRESHOLD, KNN_K and CONFIDENCE_THRESHOLD (defaults 0.60, 5, 0.50). */
  datatype Config = Config(matchThreshold: real, knnK: int, confidenceThreshold: real)

  const DefaultConfig := Config(0.60, 5, 0.50)

  /** The tolerance by which a low-confidence vote may be overridden by a per-user match. */
  const FallbackSlack: real := 1.05

  /** One detected face: its distance to any reference encoding, and whether the flat
      `face_distance` call over the whole store raised (which the source turns into an
      empty distance list). */
  datatype Face = Face(dist: Vec -> Distance, flatCallRaises: bool)

  /** The four outcomes; `NoMatch` chooses nobody and reports the closest flat distance. */
  datatype Decision =
    | Accept(user: string, dist: real)
    | LowConfidence(user: string, dist: real)
    | AcceptFallback(user: string, dist: real)
    | NoMatch(closest: real)

  /** The KNN vote: k, the names and distances of the k nearest encodings, the majority
      label with its count, the vote fraction and the mean of the k distances. */
  datatype Vote = Vote(k: nat, topNames: seq<string>, topDists: seq<real>,
                       majority: string, majorityCount: nat, confidence: real, avgDist: real)

  datatype FaceOutcome =
    | NoKnownEncodings
    | Decided(vote: Vote, perUserMin: Option<(string, real)>, decision: Decision)

  // ---------------------------------------------------------------------------
  // Distances

  /** `face_distance(refs, face)`: one distance per reference, in order. */
  function DistancesTo(refs: seq<Vec>, dist: Vec -> Distance): (ds: seq<real>)
    ensures |ds| == |refs|
    ensures forall i :: 0 <= i < |ds| ==> ds[i] == dist(refs[i]) && 0.0 <= ds[i]
  {
    seq(|refs|, i requires 0 <= i < |refs| => dist(refs[i]) as real)
  }

  // ---------------------------------------------------------------------------
  // np.argsort

  function Iota(n: nat): (r: seq<nat>)
    ensures |r| == n
    ensures forall i :: 0 <= i < n ==> r[i] == i
  {
    seq(n, i => i)
  }

  function DistAt(ds: seq<real>, i: nat): real
  {
    if i < |ds| then ds[i] else 0.0
  }

  /** Orders indices by the distance they carry. */
  function ByDistance(ds: seq<real>): (nat, nat) -> bool
  {
    (i: nat, j: nat) => DistAt(ds, i) <= DistAt(ds, j)
  }

  /** `np.argsort(ds)`: the indices of `ds`, as a permutation of `0..|ds|-1`. */
  function ArgSort(ds: seq<real>): (r: seq<nat>)
    ensures multiset(r) == multiset(Iota(|ds|))
    ensures |r| == |ds|
    ensures forall a :: 0 <= a < |r| ==> r[a] < |ds|
  {
    var r := Sort(Iota(|ds|), ByDistance(ds));
    assert forall a :: 0 <= a < |r| ==> r[a] in multiset(Iota(|ds|));
    r
  }

  /** The argsort orders indices by distance. */
  lemma ArgSortSorted(ds: seq<real>)
    ensures forall a, b :: 0 <= a < b < |ds| ==> ds[ArgSort(ds)[a]] <= ds[ArgSort(ds)[b]]
  {
    var le := ByDistance(ds);
    assert TotalPreorder(le);
    SortSorted(Iota(|ds|), le);
  }

  /** A sequence without repeats holds every value at most once. */
  lemma {:induction false} DistinctCount(s: seq<nat>, x: nat)
    requires forall a, b :: 0 <= a < b < |s| ==> s[a] != s[b]
    ensures multiset(s)[x] <= 1
  {
    if s != [] {
      var t := s[1..];
      DistinctCount(t, x);
      assert s == [s[0]] + t;
      if s[0] == x {
        assert x !in t;
      }
    }
  }

  /** The argsort lists every index once: distinct positions hold distinct records. */
  lemma ArgSortDistinct(ds: seq<real>)
    ensures forall a, b :: 0 <= a < b < |ds| ==> ArgSort(ds)[a] != ArgSort(ds)[b]
  {
    var r := ArgSort(ds);
    forall a, b | 0 <= a < b < |r|
      ensures r[a] != r[b]
    {
      if r[a] == r[b] {
        var x := r[a];
        assert r == r[..b] + r[b..];
        assert r[..b][a] == x && r[b..][0] == x;
        assert multiset(r)[x] == multiset(r[..b])[x] + multiset(r[b..])[x];
        DistinctCount(Iota(|ds|), x);
        assert false;
      }
    }
  }

  /** The first `k` entries of the argsort: `k` distinct indices whose distances are no
      larger than that of any index left out. */
  lemma TopKAreNearest(ds: seq<real>, k: nat, a: nat, i: nat)
    requires k <= |ds|
    requires a < k
    requires i < |ds| && i !in ArgSort(ds)[..k]
    ensures ds[ArgSort(ds)[a]] <= ds[i]
  {
    ArgSortSorted(ds);
    var r := ArgSort(ds);
    assert Iota(|ds|)[i] == i;
    assert i in multiset(Iota(|ds|));
    assert i in multiset(r);
    var b :| 0 <= b < |r| && r[b] == i;
  }

  // ---------------------------------------------------------------------------
  // Counter(top_names).most_common(1)

  /** Position, within `s[..i]`, of the label `most_common(1)` returns: the first label,
      in order of first occurrence, whose count in `s` is maximal. */
  function LeaderPos(s: seq<string>, i: nat): (p: nat)
    requires 0 < i <= |s|
    ensures p < i
    ensures forall j :: 0 <= j < i ==> Count(s, s[j]) <= Count(s, s[p])
    ensures forall j :: 0 <= j < p ==> Count(s, s[j]) < Count(s, s[p])
  {
    if i == 1 then 0
    else
      var b := LeaderPos(s, i - 1);
      if Count(s, s[i - 1]) > Count(s, s[b]) then i - 1 else b
  }

  /** `Counter(s).most_common(1)[0]`: a label of `s` and its count, which no label's count
      exceeds, and which no label occurring earlier in `s` reaches. */
  function MostCommon(s: seq<string>): (v: (string, nat))
    requires s != []
    ensures v.0 in s && v.1 == Count(s, v.0)
    ensures forall x :: Count(s, x) <= v.1
    ensures 1 <= v.1 <= |s|
    ensures forall j :: 0 <= j < |s| && s[j] != v.0 && Count(s, s[j]) == v.1 ==>
              exists a :: 0 <= a < j && s[a] == v.0
  {
    var p := LeaderPos(s, |s|);
    CountBounds(s, s[p]);
    forall x ensures Count(s, x) <= Count(s, s[p]) {
      CountBounds(s, x);
      if x in s {
        var j :| 0 <= j < |s| && s[j] == x;
      }
    }
    (s[p], Count(s, s[p]))
  }

  lemma VoteFraction(count: nat, k: nat)
    requires 1 <= count <= k
    ensures 0.0 < count as real / k as real <= 1.0
  {
  }

  /** Counts the votes of the given voters: the most common name, its count, the fraction
      of the voters it holds and the mean of their distances. */
  function Poll(topNames: seq<string>, topDists: seq<real>): (v: Vote)
    requires |topNames| == |topDists| && topNames != []
    ensures v.k == |topNames| && v.topNames == topNames && v.topDists == topDists
    ensures v.majority in topNames
    ensures v.majorityCount == Count(topNames, v.majority)
    ensures forall x :: Count(topNames, x) <= v.majorityCount
    ensures v.confidence == v.majorityCount as real / v.k as real
    ensures 0.0 < v.confidence <= 1.0
    ensures v.avgDist == Mean(topDists)
  {
    var (maj, cnt) := MostCommon(topNames);
    VoteFraction(cnt, |topNames|);
    Vote(|topNames|, topNames, topDists, maj, cnt, cnt as real / |topNames| as real, Mean(topDists))
  }

  /** The vote over the `k = min(KNN_K, N)` nearest encodings. */
  function KnnVote(names: seq<string>, all: seq<real>, knnK: int): (v: Vote)
    requires |names| == |all| && all != []
    requires knnK >= 1
    ensures v.k == if knnK < |all| then knnK else |all|
    ensures 1 <= v.k <= |all|
    ensures |v.topNames| == |v.topDists| == v.k
    ensures forall a :: 0 <= a < v.k ==>
      ArgSort(all)[a] < |all| && v.topNames[a] == names[ArgSort(all)[a]] && v.topDists[a] == all[ArgSort(all)[a]]
    ensures v.majority in v.topNames
    ensures v.majorityCount == Count(v.topNames, v.majority)
    ensures forall x :: Count(v.topNames, x) <= v.majorityCount
    ensures v.confidence == v.majorityCount as real / v.k as real
    ensures 0.0 < v.confidence <= 1.0
    ensures v.avgDist == Mean(v.topDists)
  {
    var k := if knnK < |all| then knnK else |all|;
    var idxs := ArgSort(all)[..k];
    Poll(seq(k, a requires 0 <= a < k => names[idxs[a]]), seq(k, a requires 0 <= a < k => all[idxs[a]]))
  }

  /** The `a`-th voter is stored record `ArgSort(all)[a]`, no other voter is that same record,
      and no record left out of the vote is nearer. */
  lemma KnnVotersAreNearest(names: seq<string>, all: seq<real>, knnK: int, a: nat)
    requires |names| == |all| && all != []
    requires knnK >= 1
    requires a < knnK && a < |all|
    ensures var v := KnnVote(names, all, knnK);
      && a < v.k <= knnK
      && v.topNames[a] == names[ArgSort(all)[a]] && v.topDists[a] == all[ArgSort(all)[a]]
      && (forall b :: 0 <= b < v.k && b != a ==> ArgSort(all)[b] != ArgSort(all)[a])
      && (forall i :: 0 <= i < |all| && i !in ArgSort(all)[..v.k] ==> v.topDists[a] <= all[i])
  {
    var v := KnnVote(names, all, knnK);
    ArgSortDistinct(all);
    forall i | 0 <= i < |all| && i !in ArgSort(all)[..v.k]
      ensures v.topDists[a] <= all[i]
    {
      TopKAreNearest(all, v.k, a, i);
    }
  }

  // ---------------------------------------------------------------------------
  // Per-user minimum

  /** `per_user_min_vals`: for each user of the map, in key order, the user and the
      smallest distance to that user's encodings (users without encodings are skipped). */
  function UserMinima(order: seq<string>, userMap: map<string, seq<Vec>>, dist: Vec -> Distance)
    : seq<(string, real)>
  {
    if order == [] then []
    else
      var u := order[0];
      (if u in userMap && userMap[u] != [] then [(u, Min(DistancesTo(userMap[u], dist)))] else [])
      + UserMinima(order[1..], userMap, dist)
  }

  /** Position of the first pair with the smallest distance: `sort(key=dist)` is stable,
      so `[0]` after it is that pair. */
  function FirstMinPos(vals: seq<(string, real)>, i: nat): (p: nat)
    requires 0 < i <= |vals|
    ensures p < i
    ensures forall j :: 0 <= j < i ==> vals[p].1 <= vals[j].1
    ensures forall j :: 0 <= j < p ==> vals[p].1 < vals[j].1
  {
    if i == 1 then 0
    else
      var b := FirstMinPos(vals, i - 1);
      if vals[i - 1].1 < vals[b].1 then i - 1 else b
  }

  function PerUserMin(order: seq<string>, userMap: map<string, seq<Vec>>, dist: Vec -> Distance)
    : Option<(string, real)>
  {
    var vals := UserMinima(order, userMap, dist);
    if vals == [] then None else Some(vals[FirstMinPos(vals, |vals|)])
  }

  // ---------------------------------------------------------------------------
  // The decision table

  function Decide(cfg: Config, vote: Vote, best: Option<(string, real)>, closest: real): Decision
  {
    var t := cfg.matchThreshold;
    if vote.avgDist <= t && vote.confidence >= cfg.confidenceThreshold then
      Accept(vote.majority, vote.avgDist)
    else if vote.avgDist <= t && vote.confidence < cfg.confidenceThreshold then
      if best.Some? && best.value.1 <= t * FallbackSlack then AcceptFallback(best.value.0, best.value.1)
      else LowConfidence(vote.majority, vote.avgDist)
    else if best.Some? && best.value.1 <= t then AcceptFallback(best.value.0, best.value.1)
    else NoMatch(closest)
  }

  /** The flat distance list of one face: empty when the call raised. */
  function FlatDistances(st: EncStore, face: Face): (all: seq<real>)
    ensures face.flatCallRaises ==> all == []
    ensures !face.flatCallRaises ==> |all| == |st.encodings|
  {
    if face.flatCallRaises then [] else DistancesTo(st.encodings, face.dist)
  }

  /** Decides one face against the store, given the user map built from it. */
  function DecideFace(st: EncStore, userMap: map<string, seq<Vec>>, order: seq<string>,
                      face: Face, cfg: Config): (r: FaceOutcome)
    requires |st.names| == |st.encodings|
    requires cfg.knnK >= 1
    ensures r.NoKnownEncodings? <==> face.flatCallRaises || st.encodings == []
    ensures r.Decided? ==>
      r.vote == KnnVote(st.names, FlatDistances(st, face), cfg.knnK)
      && r.perUserMin == PerUserMin(order, userMap, face.dist)
    ensures r.Decided? ==>
      && (r.decision.Accept? <==>
            r.vote.avgDist <= cfg.matchThreshold && r.vote.confidence >= cfg.confidenceThreshold)
      && (r.decision.Accept? ==> r.decision.user == r.vote.majority && r.decision.dist == r.vote.avgDist)
      && (r.decision.LowConfidence? ==> r.decision.user == r.vote.majority && r.decision.dist == r.vote.avgDist)
      && (r.decision.AcceptFallback? ==> r.perUserMin == Some((r.decision.user, r.decision.dist)))
      && (r.decision.NoMatch? ==> r.decision.closest == Min(FlatDistances(st, face)))
  {
    var all := FlatDistances(st, face);
    if all == [] then NoKnownEncodings
    else
      var vote := KnnVote(st.names, all, cfg.knnK);
      var best := PerUserMin(order, userMap, face.dist);
      Decided(vote, best, Decide(cfg, vote, best, Min(all)))
  }
}

/** What the decision engine guarantees when the user map is the one built from the same
    store as the flat list, as `api_recognize` builds it. */
module MatchDeciderFacts {
  import opened Wrappers
  import opened SeqMath
  import opened EncodingStore
  import opened UserIndex
  import opened MatchDecider

  lemma {:induction false} UserMinimaHas(order: seq<string>, userMap: map<string, seq<Vec>>,
                                         dist: Vec -> Distance, u: string)
    requires u in order && u in userMap && userMap[u] != []
    ensures (u, Min(DistancesTo(userMap[u], dist))) in UserMinima(order, userMap, dist)
  {
    if order[0] != u {
      UserMinimaHas(order[1..], userMap, dist, u);
    }
  }

  lemma {:induction false} UserMinimaFrom(order: seq<string>, userMap: map<string, seq<Vec>>,
                                          dist: Vec -> Distance, e: (string, real))
    requires e in UserMinima(order, userMap, dist)
    ensures e.0 in userMap && userMap[e.0] != [] && e.1 == Min(DistancesTo(userMap[e.0], dist))
  {
    var u := order[0];
    if !(u in userMap && userMap[u] != [] && e == (u, Min(DistancesTo(userMap[u], dist)))) {
      UserMinimaFrom(order[1..], userMap, dist, e);
    }
  }

  /** Every user's encodings are among the store's, so no user is nearer than the flat minimum. */
  lemma UserMinAtLeastFlatMin(st: EncStore, u: string, dist: Vec -> Distance)
    requires |st.names| == |st.encodings|
    requires u in UserEncMap(st)
    ensures UserEncMap(st)[u] != []
    ensures st.encodings != []
    ensures Min(DistancesTo(st.encodings, dist)) <= Min(DistancesTo(UserEncMap(st)[u], dist))
  {
    var z := ZipLen(st);
    var es := UserEncMap(st)[u];
    EncodingsOfExactly(st, u, z);
    var j0 :| 0 <= j0 < z && st.names[..z][j0] == u;
    assert st.names[j0] == u;
    assert st.encodings[j0] in es;
    var all := DistancesTo(st.encodings, dist);
    var ud := DistancesTo(es, dist);
    var mu := Min(ud);
    var k :| 0 <= k < |ud| && ud[k] == mu;
    var j :| 0 <= j < z && st.names[j] == u && st.encodings[j] == es[k];
    assert all[j] == mu;
  }

  /** The per-user minimum is the flat minimum: the user map partitions the same encodings. */
  lemma PerUserMinIsFlatMin(st: EncStore, dist: Vec -> Distance)
    requires |st.names| == |st.encodings| && st.encodings != []
    ensures
      var best := PerUserMin(UsersInOrder(st, ZipLen(st)), UserEncMap(st), dist);
      && best.Some?
      && best.value.0 in UserEncMap(st)
      && best.value.1 == Min(DistancesTo(st.encodings, dist))
  {
    var z := ZipLen(st);
    var order := UsersInOrder(st, z);
    var m := UserEncMap(st);
    var all := DistancesTo(st.encodings, dist);
    var mn := Min(all);
    var js :| 0 <= js < |all| && all[js] == mn;
    var us := st.names[js];
    assert st.names[..z][js] == us;
    UsersInOrderMembers(st, z);
    EncodingsOfExactly(st, us, z);
    var es := m[us];
    assert st.encodings[js] in es;
    var k :| 0 <= k < |es| && es[k] == st.encodings[js];
    assert DistancesTo(es, dist)[k] == mn;
    UserMinimaHas(order, m, dist, us);
    var vals := UserMinima(order, m, dist);
    var p := FirstMinPos(vals, |vals|);
    var q :| 0 <= q < |vals| && vals[q] == (us, Min(DistancesTo(es, dist)));
    assert vals[p].1 <= mn;
    UserMinimaFrom(order, m, dist, vals[p]);
    UserMinAtLeastFlatMin(st, vals[p].0, dist);
  }

  /** The KNN mean is never below the flat minimum. */
  lemma AvgAtLeastFlatMin(st: EncStore, face: Face, cfg: Config)
    requires |st.names| == |st.encodings|
    requires cfg.knnK >= 1
    requires !face.flatCallRaises && st.encodings != []
    ensures
      var all := FlatDistances(st, face);
      Min(all) <= KnnVote(st.names, all, cfg.knnK).avgDist
  {
    var all := FlatDistances(st, face);
    var v := KnnVote(st.names, all, cfg.knnK);
    forall a | 0 <= a < |v.topDists|
      ensures Min(all) <= v.topDists[a]
    {
      var j :| 0 <= j < |all| && all[j] == v.topDists[a];
    }
    MeanAtLeast(v.topDists, Min(all));
  }

  /** With a non-negative MATCH_THRESHOLD, a weak vote whose mean distance passes the
      threshold always ends as `accept_fallback` at the flat minimum: the per-user minimum
      is the flat minimum, which is at most the KNN mean. So `low_confidence` is never
      the final decision. */
  lemma LowConfidenceAlwaysPromoted(st: EncStore, face: Face, cfg: Config)
    requires |st.names| == |st.encodings|
    requires cfg.knnK >= 1
    requires cfg.matchThreshold >= 0.0
    ensures
      var r := DecideFace(st, UserEncMap(st), UsersInOrder(st, ZipLen(st)), face, cfg);
      && (r.Decided? ==> !r.decision.LowConfidence?)
      && (r.Decided? && r.vote.avgDist <= cfg.matchThreshold && r.vote.confidence < cfg.confidenceThreshold ==>
            r.decision.AcceptFallback? && r.decision.dist == Min(FlatDistances(st, face)))
  {
    var r := DecideFace(st, UserEncMap(st), UsersInOrder(st, ZipLen(st)), face, cfg);
    if r.Decided? {
      PerUserMinIsFlatMin(st, face.dist);
      AvgAtLeastFlatMin(st, face, cfg);
      var t := cfg.matchThreshold;
      assert t <= t * FallbackSlack;
    }
  }

  /** When the KNN mean misses the threshold, the decision is `accept_fallback` exactly when
      the flat minimum passes it, choosing the per-user minimum; otherwise it is `no_match`
      reporting the flat minimum. */
  lemma RejectionBranch(st: EncStore, face: Face, cfg: Config)
    requires |st.names| == |st.encodings|
    requires cfg.knnK >= 1
    ensures
      var r := DecideFace(st, UserEncMap(st), UsersInOrder(st, ZipLen(st)), face, cfg);
      r.Decided? && r.vote.avgDist > cfg.matchThreshold ==>
        var mn := Min(FlatDistances(st, face));
        && (r.decision.AcceptFallback? <==> mn <= cfg.matchThreshold)
        && (r.decision.NoMatch? <==> mn > cfg.matchThreshold)
        && (r.decision.AcceptFallback? ==>
              r.decision.dist == mn && r.decision.user in UserEncMap(st)
              && r.perUserMin == Some((r.decision.user, mn)))
        && (r.decision.NoMatch? ==> r.decision.closest == mn)
  {
    var r := DecideFace(st, UserEncMap(st), UsersInOrder(st, ZipLen(st)), face, cfg);
    if r.Decided? {
      PerUserMinIsFlatMin(st, face.dist);
    }
  }

  /** A zero MATCH_THRESHOLD rejects every face whose distances are all positive. */
  lemma ZeroThresholdRejectsPositiveDistances(st: EncStore, face: Face, cfg: Config)
    requires |st.names| == |st.encodings|
    requires cfg.knnK >= 1 && cfg.matchThreshold == 0.0
    requires forall i :: 0 <= i < |st.encodings| ==> face.dist(st.encodings[i]) > 0.0
    ensures
      var r := DecideFace(st, UserEncMap(st), UsersInOrder(st, ZipLen(st)), face, cfg);
      r.Decided? ==> r.decision.NoMatch?
  {
    var r := DecideFace(st, UserEncMap(st), UsersInOrder(st, ZipLen(st)), face, cfg);
    if r.Decided? {
      var all := FlatDistances(st, face);
      var j :| 0 <= j < |all| && all[j] == Min(all);
      assert Min(all) > 0.0;
      AvgAtLeastFlatMin(st, face, cfg);
      RejectionBranch(st, face, cfg);
    }
  }
}
