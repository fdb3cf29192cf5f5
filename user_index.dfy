/** `build_user_enc_map`: the per-user view of the encoding store, a dictionary from user
    name to that user's encodings, built by walking the parallel `names`/`encodings` arrays. */
module UserIndex {
  import opened Wrappers
  import opened SeqMath
  import opened EncodingStore

  /** Length of `zip(names, encodings)`: the walk stops at the shorter array. */
  function ZipLen(st: EncStore): (z: nat)
    ensures z <= |st.names| && z <= |st.encodings|
    ensures z == |st.names| || z == |st.encodings|
  {
    if |st.names| < |st.encodings| then |st.names| else |st.encodings|
  }

  /** The encodings among the first `i` records whose name is `user`, in store order. */
  function EncodingsOf(st: EncStore, user: string, i: nat): seq<Vec>
    requires i <= ZipLen(st)
  {
    if i == 0 then []
    else EncodingsOf(st, user, i - 1) + (if st.names[i - 1] == user then [st.encodings[i - 1]] else [])
  }

  /** The distinct names among the first `i` records, in order of first occurrence
      (the key order of the Python dictionary). */
  function UsersInOrder(st: EncStore, i: nat): seq<string>
    requires i <= ZipLen(st)
  {
    if i == 0 then []
    else
      var p := UsersInOrder(st, i - 1);
      if st.names[i - 1] in p then p else p + [st.names[i - 1]]
  }

  /** The user map as a value: every name of the zipped prefix, mapped to its encodings. */
  function UserEncMap(st: EncStore): map<string, seq<Vec>>
  {
    map u | u in st.names[..ZipLen(st)] :: EncodingsOf(st, u, ZipLen(st))
  }

  /** A name that does not occur among the first `i` records owns no encodings there. */
  lemma {:induction false} EncodingsOfAbsent(st: EncStore, user: string, i: nat)
    requires i <= ZipLen(st)
    requires user !in st.names[..i]
    ensures EncodingsOf(st, user, i) == []
  {
    if i > 0 {
      assert st.names[..i - 1] == st.names[..i][..i - 1];
      EncodingsOfAbsent(st, user, i - 1);
      assert st.names[i - 1] == st.names[..i][i - 1];
    }
  }

  /** The key order lists exactly the names of the first `i` records, each once. */
  lemma {:induction false} UsersInOrderMembers(st: EncStore, i: nat)
    requires i <= ZipLen(st)
    ensures forall u :: u in UsersInOrder(st, i) <==> u in st.names[..i]
    ensures forall a, b :: 0 <= a < b < |UsersInOrder(st, i)| ==>
              UsersInOrder(st, i)[a] != UsersInOrder(st, i)[b]
  {
    if i > 0 {
      UsersInOrderMembers(st, i - 1);
      assert st.names[..i] == st.names[..i - 1] + [st.names[i - 1]];
    }
  }

  /** Exactly the encodings whose record carries `user` belong to `user`: there are as many
      as such records, each is the encoding of one of them, and each of them contributes. */
  lemma {:induction false} EncodingsOfExactly(st: EncStore, user: string, i: nat)
    requires i <= ZipLen(st)
    ensures |EncodingsOf(st, user, i)| == Count(st.names[..i], user)
    ensures forall k :: 0 <= k < |EncodingsOf(st, user, i)| ==>
              exists j :: 0 <= j < i && st.names[j] == user && st.encodings[j] == EncodingsOf(st, user, i)[k]
    ensures forall j :: 0 <= j < i && st.names[j] == user ==> st.encodings[j] in EncodingsOf(st, user, i)
  {
    if i > 0 {
      EncodingsOfExactly(st, user, i - 1);
      assert st.names[..i][..i - 1] == st.names[..i - 1];
    }
  }

  /** `m` maps exactly the names of the first `i` records, each to its encodings there. */
  ghost predicate Indexed(m: map<string, seq<Vec>>, st: EncStore, i: nat)
    requires i <= ZipLen(st)
  {
    && (forall u :: u in m <==> u in st.names[..i])
    && (forall u :: u in m ==> m[u] == EncodingsOf(st, u, i))
  }

  /** Appending record `i`'s encoding to its name's list, created empty when missing, keeps
      the map in step with the records. */
  lemma IndexedStep(m: map<string, seq<Vec>>, st: EncStore, i: nat)
    requires i < ZipLen(st) && Indexed(m, st, i)
    ensures var n := st.names[i];
      Indexed(m[n := (if n in m then m[n] else []) + [st.encodings[i]]], st, i + 1)
  {
    var n := st.names[i];
    assert st.names[..i + 1] == st.names[..i] + [n];
    if n !in m {
      EncodingsOfAbsent(st, n, i);
    }
  }

  /** After the whole walk the map is `UserEncMap`. */
  lemma IndexedAll(m: map<string, seq<Vec>>, st: EncStore)
    requires Indexed(m, st, ZipLen(st))
    ensures m == UserEncMap(st)
  {
  }

  /** `build_user_enc_map`: an empty map when there is no store or it holds no encodings;
      otherwise the map of `UserEncMap`, with its keys in first-occurrence order. */
  method BuildUserEncMap(encObj: Option<EncStore>) returns (m: map<string, seq<Vec>>, order: seq<string>)
    ensures encObj.None? || encObj.value.encodings == [] ==> m == map[] && order == []
    ensures encObj.Some? && encObj.value.encodings != [] ==>
              m == UserEncMap(encObj.value) && order == UsersInOrder(encObj.value, ZipLen(encObj.value))
  {
    m, order := map[], [];
    if encObj.None? || encObj.value.encodings == [] {
      return;
    }
    var st := encObj.value;
    var z := ZipLen(st);
    var i := 0;
    while i < z
      invariant 0 <= i <= z
      invariant order == UsersInOrder(st, i)
      invariant Indexed(m, st, i)
    {
      var n := st.names[i];
      ghost var before := m;
      UsersInOrderMembers(st, i);
      if n in m {
        m := m[n := m[n] + [st.encodings[i]]];
      } else {
        m := m[n := [st.encodings[i]]];
        order := order + [n];
      }
      IndexedStep(before, st, i);
      i := i + 1;
    }
    IndexedAll(m, st);
  }
}
