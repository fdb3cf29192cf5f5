/** The face loop of `api_recognize`: every detected face is decided against the store, and
    an accepted user is marked present at most once per request (`marked_user_ids`). The
    database is seen through two lookups: the user id of a username, and the users that
    already have a Present row for this subject today. */
module Recognition {
  import opened Wrappers
  import opened SeqMath
  import opened EncodingStore
  import opened UserIndex
  import opened MatchDecider
  import opened MatchDeciderFacts

  /** What the request sees of the database. */
  datatype Db = Db(userIds: map<string, int>, presentToday: set<int>)

  /** One entry of the response's `results` list. */
  datatype FaceResult =
    | NoKnownEncodingsResult
    | NoUserRecord(user: string, dist: real, decision: Decision)
    | AlreadyMarkedRequest(uid: int, user: string, dist: real, decision: Decision)
    | AlreadyMarkedDb(uid: int, user: string, dist: real, decision: Decision)
    | Marked(uid: int, user: string, dist: real, confidence: real, decision: Decision)
    | NotMarked(decision: Decision, dist: real, named: Option<(string, real)>)

  datatype RecognizeError = NoKnownFaces

  /** The outcome for one face, with the user map built from the same store. */
  function Outcome(st: EncStore, face: Face, cfg: Config): FaceOutcome
    requires |st.names| == |st.encodings|
    requires cfg.knnK >= 1
  {
    DecideFace(st, UserEncMap(st), UsersInOrder(st, ZipLen(st)), face, cfg)
  }

  /** `decision.startswith('accept')`. */
  predicate Accepting(d: Decision)
  {
    d.Accept? || d.AcceptFallback?
  }

  /** `chosen_dist`. */
  function ChosenDist(d: Decision): real
  {
    if d.NoMatch? then d.closest else d.dist
  }

  /** The users whose id the request has put in `marked_user_ids`. */
  function MarkedIds(rs: seq<FaceResult>): set<int>
  {
    if rs == [] then {}
    else
      var last := rs[|rs| - 1];
      MarkedIds(rs[..|rs| - 1]) + (if last.Marked? || last.AlreadyMarkedDb? then {last.uid} else {})
  }

  /** The ids of the attendance rows the request writes, in order. */
  function RecordedIds(rs: seq<FaceResult>): seq<int>
  {
    if rs == [] then []
    else
      var last := rs[|rs| - 1];
      RecordedIds(rs[..|rs| - 1]) + (if last.Marked? then [last.uid] else [])
  }

  /** The response entry for one face, given the users marked so far in this request. */
  function Step(o: FaceOutcome, marked: set<int>, db: Db): (r: FaceResult)
    ensures r.Marked? ==>
      && o.Decided? && Accepting(o.decision) && r.decision == o.decision && r.user == o.decision.user
      && r.user in db.userIds && db.userIds[r.user] == r.uid
      && r.uid !in marked && r.uid !in db.presentToday
    ensures r.AlreadyMarkedRequest? ==> r.uid in marked
    ensures r.AlreadyMarkedDb? ==> r.uid !in marked && r.uid in db.presentToday
    ensures (r.NoKnownEncodingsResult? <==> o.NoKnownEncodings?)
    ensures o.Decided? && Accepting(o.decision) && o.decision.user != "" ==>
      var u := o.decision.user;
      && (u !in db.userIds ==> r == NoUserRecord(u, o.decision.dist, o.decision))
      && (u in db.userIds && db.userIds[u] in marked ==>
            r == AlreadyMarkedRequest(db.userIds[u], u, o.decision.dist, o.decision))
      && (u in db.userIds && db.userIds[u] !in marked && db.userIds[u] in db.presentToday ==>
            r == AlreadyMarkedDb(db.userIds[u], u, o.decision.dist, o.decision))
      && (u in db.userIds && db.userIds[u] !in marked && db.userIds[u] !in db.presentToday ==>
            r == Marked(db.userIds[u], u, o.decision.dist, o.vote.confidence, o.decision))
    ensures o.Decided? && !(Accepting(o.decision) && o.decision.user != "") ==>
      r.NotMarked? && r.decision == o.decision && r.dist == ChosenDist(o.decision)
      && (r.named.Some? <==> !o.decision.NoMatch? && o.decision.user != "")
  {
    match o
    case NoKnownEncodings => NoKnownEncodingsResult
    case Decided(vote, _, d) =>
      if Accepting(d) && d.user != "" then
        if d.user !in db.userIds then NoUserRecord(d.user, d.dist, d)
        else
          var id := db.userIds[d.user];
          if id in marked then AlreadyMarkedRequest(id, d.user, d.dist, d)
          else if id in db.presentToday then AlreadyMarkedDb(id, d.user, d.dist, d)
          else Marked(id, d.user, d.dist, vote.confidence, d)
      else
        var named := !d.NoMatch? && d.user != "";
        NotMarked(d, ChosenDist(d), if named then Some((d.user, vote.confidence)) else None)
  }

  /** The responses of a request whose faces have outcomes `os`, in order. */
  function Run(os: seq<FaceOutcome>, db: Db): (rs: seq<FaceResult>)
    ensures |rs| == |os|
  {
    if os == [] then []
    else
      var p := Run(os[..|os| - 1], db);
      p + [Step(os[|os| - 1], MarkedIds(p), db)]
  }

  /** The outcomes of every face of a request, against one store snapshot. */
  function Outcomes(st: EncStore, faces: seq<Face>, cfg: Config): (os: seq<FaceOutcome>)
    requires |st.names| == |st.encodings|
    requires cfg.knnK >= 1
    ensures |os| == |faces|
    ensures forall i :: 0 <= i < |faces| ==> os[i] == Outcome(st, faces[i], cfg)
  {
    seq(|faces|, i requires 0 <= i < |faces| => Outcome(st, faces[i], cfg))
  }

  lemma {:induction false} MarkedIdsMembers(rs: seq<FaceResult>, a: nat)
    requires a < |rs|
    requires rs[a].Marked? || rs[a].AlreadyMarkedDb?
    ensures rs[a].uid in MarkedIds(rs)
  {
    if a < |rs| - 1 {
      MarkedIdsMembers(rs[..|rs| - 1], a);
    }
  }

  lemma {:induction false} MarkedIdsWitness(rs: seq<FaceResult>, x: int)
    requires x in MarkedIds(rs)
    ensures exists a :: 0 <= a < |rs| && (rs[a].Marked? || rs[a].AlreadyMarkedDb?) && rs[a].uid == x
  {
    var last := rs[|rs| - 1];
    if !((last.Marked? || last.AlreadyMarkedDb?) && last.uid == x) {
      MarkedIdsWitness(rs[..|rs| - 1], x);
      var a :| 0 <= a < |rs| - 1 && (rs[..|rs| - 1][a].Marked? || rs[..|rs| - 1][a].AlreadyMarkedDb?)
                && rs[..|rs| - 1][a].uid == x;
      assert rs[a] == rs[..|rs| - 1][a];
    }
  }

  lemma {:induction false} RunPrefix(os: seq<FaceOutcome>, db: Db, i: nat)
    requires i <= |os|
    ensures Run(os, db)[..i] == Run(os[..i], db)
  {
    var n := |os|;
    if i < n {
      RunPrefix(os[..n - 1], db, i);
      assert os[..n - 1][..i] == os[..i];
      assert Run(os, db)[..n - 1] == Run(os[..n - 1], db);
      assert Run(os, db)[..i] == Run(os, db)[..n - 1][..i];
    } else {
      assert os[..i] == os;
    }
  }

  /** Each response is the step of its face given the users marked by the earlier ones. */
  lemma RunStep(os: seq<FaceOutcome>, db: Db, i: nat)
    requires i < |os|
    ensures Run(os, db)[i] == Step(os[i], MarkedIds(Run(os, db)[..i]), db)
  {
    var q := os[..i + 1];
    RunPrefix(os, db, i + 1);
    RunPrefix(os, db, i);
    assert q[..i] == os[..i];
    assert Run(os, db)[i] == Run(os, db)[..i + 1][i];
  }

  /** Within one request a user is marked at most once, never when the database already
      has them present, and only on an accepting decision for a known user. */
  ghost predicate MarksOnce(rs: seq<FaceResult>, db: Db)
  {
    && (forall a, b :: 0 <= a < b < |rs| && rs[a].Marked? && rs[b].Marked? ==> rs[a].uid != rs[b].uid)
    && (forall a :: 0 <= a < |rs| && rs[a].Marked? ==>
          rs[a].uid !in db.presentToday && Accepting(rs[a].decision)
          && rs[a].user in db.userIds && db.userIds[rs[a].user] == rs[a].uid)
  }

  lemma {:induction false} RunMarksOnce(os: seq<FaceOutcome>, db: Db)
    ensures MarksOnce(Run(os, db), db)
  {
    if os != [] {
      var n := |os|;
      var p := Run(os[..n - 1], db);
      RunMarksOnce(os[..n - 1], db);
      var rs := Run(os, db);
      assert rs == p + [Step(os[n - 1], MarkedIds(p), db)];
      if rs[n - 1].Marked? {
        forall a | 0 <= a < n - 1 && rs[a].Marked?
          ensures rs[a].uid != rs[n - 1].uid
        {
          assert rs[a] == p[a];
          MarkedIdsMembers(p, a);
        }
      }
      assert forall a :: 0 <= a < n - 1 ==> rs[a] == p[a];
    }
  }

  /** `already_marked_request` is reported only for a user an earlier face of the same
      request has marked, or found already marked in the database. */
  lemma RepeatsHaveAnEarlierMark(os: seq<FaceOutcome>, db: Db, j: nat)
    requires j < |os| && Run(os, db)[j].AlreadyMarkedRequest?
    ensures var rs := Run(os, db);
      exists a :: 0 <= a < j && (rs[a].Marked? || rs[a].AlreadyMarkedDb?) && rs[a].uid == rs[j].uid
  {
    var rs := Run(os, db);
    RunStep(os, db, j);
    MarkedIdsWitness(rs[..j], rs[j].uid);
    var a :| 0 <= a < j && (rs[..j][a].Marked? || rs[..j][a].AlreadyMarkedDb?) && rs[..j][a].uid == rs[j].uid;
    assert rs[a] == rs[..j][a];
  }

  /** Conversely, once a face has marked a user (or found them already present), every later
      face accepted as the same user is reported as `already_marked_request`. */
  lemma LaterRepeatReported(os: seq<FaceOutcome>, db: Db, a: nat, j: nat)
    requires a < j < |os|
    ensures var rs := Run(os, db);
      && (rs[a].Marked? || rs[a].AlreadyMarkedDb?)
      && os[j].Decided? && Accepting(os[j].decision) && os[j].decision.user != ""
      && os[j].decision.user in db.userIds && db.userIds[os[j].decision.user] == rs[a].uid
      ==> rs[j].AlreadyMarkedRequest? && rs[j].uid == rs[a].uid
  {
    var rs := Run(os, db);
    RunStep(os, db, j);
    assert rs[..j][a] == rs[a];
    if rs[a].Marked? || rs[a].AlreadyMarkedDb? {
      MarkedIdsMembers(rs[..j], a);
    }
  }

  /** The recorded ids are exactly those of the Marked responses. */
  lemma {:induction false} RecordedIdsMembers(rs: seq<FaceResult>)
    ensures forall x :: x in RecordedIds(rs) <==> exists a :: 0 <= a < |rs| && rs[a].Marked? && rs[a].uid == x
  {
    if rs != [] {
      var p := rs[..|rs| - 1];
      RecordedIdsMembers(p);
      assert forall a :: 0 <= a < |p| ==> rs[a] == p[a];
    }
  }

  /** Distinct Marked ids, none already present, give distinct recorded ids none present. */
  lemma {:induction false} RecordedDistinct(rs: seq<FaceResult>, db: Db)
    requires forall a, b :: 0 <= a < b < |rs| && rs[a].Marked? && rs[b].Marked? ==> rs[a].uid != rs[b].uid
    requires forall a :: 0 <= a < |rs| && rs[a].Marked? ==> rs[a].uid !in db.presentToday
    ensures var ids := RecordedIds(rs);
      && (forall a, b :: 0 <= a < b < |ids| ==> ids[a] != ids[b])
      && (forall a :: 0 <= a < |ids| ==> ids[a] !in db.presentToday)
  {
    if rs != [] {
      var p := rs[..|rs| - 1];
      assert forall a :: 0 <= a < |p| ==> rs[a] == p[a];
      RecordedDistinct(p, db);
      var last := rs[|rs| - 1];
      if last.Marked? {
        RecordedIdsMembers(p);
        forall a | 0 <= a < |p| && p[a].Marked?
          ensures p[a].uid != last.uid
        {
          assert rs[a] == p[a];
        }
        assert last.uid !in RecordedIds(p);
        AppendFresh(RecordedIds(p), last.uid, db.presentToday);
        assert RecordedIds(rs) == RecordedIds(p) + [last.uid];
      } else {
        assert RecordedIds(rs) == RecordedIds(p);
      }
    }
  }

  /** Appending a new value outside `present` keeps a repeat-free list outside `present`. */
  lemma AppendFresh(q: seq<int>, x: int, present: set<int>)
    requires forall a, b :: 0 <= a < b < |q| ==> q[a] != q[b]
    requires forall a :: 0 <= a < |q| ==> q[a] !in present
    requires x !in q && x !in present
    ensures forall a, b :: 0 <= a < b < |q + [x]| ==> (q + [x])[a] != (q + [x])[b]
    ensures forall a :: 0 <= a < |q + [x]| ==> (q + [x])[a] !in present
  {
    forall a, b | 0 <= a < b < |q + [x]|
      ensures (q + [x])[a] != (q + [x])[b]
    {
      assert (q + [x])[a] == q[a];
      if b == |q| {
        assert q[a] in q;
      }
    }
  }

  /** One more face extends the run by the step of that face. */
  lemma RunAppend(os: seq<FaceOutcome>, db: Db, i: nat)
    requires i < |os|
    ensures Run(os[..i + 1], db) == Run(os[..i], db) + [Step(os[i], MarkedIds(Run(os[..i], db)), db)]
  {
    assert os[..i + 1][..i] == os[..i];
  }

  /** One more response adds its id to the marked and recorded ids as the loop does. */
  lemma AppendResult(rs: seq<FaceResult>, x: FaceResult)
    ensures MarkedIds(rs + [x]) == MarkedIds(rs) + (if x.Marked? || x.AlreadyMarkedDb? then {x.uid} else {})
    ensures RecordedIds(rs + [x]) == RecordedIds(rs) + (if x.Marked? then [x.uid] else [])
  {
    assert (rs + [x])[..|rs|] == rs;
  }

  /** Over a whole request the recorded ids are distinct and none was already present. */
  lemma RunRecordsOnce(os: seq<FaceOutcome>, db: Db)
    ensures var ids := RecordedIds(Run(os, db));
      && (forall a, b :: 0 <= a < b < |ids| ==> ids[a] != ids[b])
      && (forall a :: 0 <= a < |ids| ==> ids[a] !in db.presentToday)
  {
    RunMarksOnce(os, db);
    RecordedDistinct(Run(os, db), db);
  }

  /** The body of the face loop: decide the face, then mark its user unless already marked. */
  method HandleFace(st: EncStore, userMap: map<string, seq<Vec>>, order: seq<string>, face: Face,
                    cfg: Config, marked: set<int>, db: Db) returns (res: FaceResult)
    requires |st.names| == |st.encodings|
    requires cfg.knnK >= 1
    requires userMap == UserEncMap(st) && order == UsersInOrder(st, ZipLen(st))
    ensures res == Step(Outcome(st, face, cfg), marked, db)
  {
    var o := DecideFace(st, userMap, order, face, cfg);
    res := Step(o, marked, db);
  }

  /** The end of the loop body: the response is kept, and a marked user's id is remembered
      for the rest of the request and recorded, an already-present one only remembered. */
  method RecordResult(results: seq<FaceResult>, marked: set<int>, recorded: seq<int>, res: FaceResult)
    returns (results': seq<FaceResult>, marked': set<int>, recorded': seq<int>)
    requires marked == MarkedIds(results) && recorded == RecordedIds(results)
    ensures results' == results + [res]
    ensures marked' == MarkedIds(results') && recorded' == RecordedIds(results')
  {
    AppendResult(results, res);
    results', marked', recorded' := results + [res], marked, recorded;
    if res.Marked? {
      recorded' := recorded + [res.uid];
      marked' := marked + {res.uid};
    } else if res.AlreadyMarkedDb? {
      marked' := marked + {res.uid};
    }
  }

  /** `api_recognize` after decoding the frame: an error when the store holds no encodings;
      otherwise one result per face, each user marked at most once. */
  method Recognize(st: EncStore, faces: seq<Face>, cfg: Config, db: Db)
    returns (r: Result<seq<FaceResult>, RecognizeError>, recorded: seq<int>)
    requires |st.names| == |st.encodings|
    requires cfg.knnK >= 1
    ensures st.encodings == [] ==> r == Err(NoKnownFaces) && recorded == []
    ensures st.encodings != [] ==> r == Ok(Run(Outcomes(st, faces, cfg), db))
    ensures r.Ok? ==>
      var rs := r.value;
      && recorded == RecordedIds(rs)
      && |rs| == |faces|
      // a user is marked at most once per request, and never when already present today
      && (forall a, b :: 0 <= a < b < |recorded| ==> recorded[a] != recorded[b])
      && (forall a :: 0 <= a < |recorded| ==> recorded[a] !in db.presentToday)
  {
    recorded := [];
    if st.encodings == [] {
      return Err(NoKnownFaces), recorded;
    }
    var userMap, order := BuildUserEncMap(Some(st));
    ghost var os := Outcomes(st, faces, cfg);
    var results: seq<FaceResult> := [];
    var marked: set<int> := {};
    var i := 0;
    assert os[..0] == [];
    while i < |faces|
      invariant 0 <= i <= |faces|
      invariant results == Run(os[..i], db)
      invariant marked == MarkedIds(results)
      invariant recorded == RecordedIds(results)
    {
      var res := HandleFace(st, userMap, order, faces[i], cfg, marked, db);
      RunAppend(os, db, i);
      results, marked, recorded := RecordResult(results, marked, recorded, res);
      i := i + 1;
    }
    assert os[..i] == os;
    RunRecordsOnce(os, db);
    r := Ok(results);
  }
}
