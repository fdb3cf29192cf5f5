/** The encoding store: the parallel `names`/`encodings` arrays and their rebuild from the
    face-image corpus (`train_encodings.py` and `build_encodings_from_images`). */
module EncodingStore {
  import opened Wrappers
  import opened Sorting

  /** A face encoding: a fixed-length real vector produced by the external encoder. */
  type Vec = seq<real>

  /** The persisted store: `names[i]` is the user whose image produced `encodings[i]`. */
  datatype EncStore = EncStore(names: seq<string>, encodings: seq<Vec>)

  /** An entry of the face-data directory: a user folder with its file names, or anything
      that is not a directory. */
  datatype Entry = Dir(files: seq<string>) | NotDir

  /** The directory listing: entry names with what they are, in listing order. */
  type Listing = seq<(string, Entry)>

  /** What loading an image and encoding its faces gives: the encodings of the faces
      found, in the encoder's order, or an exception. */
  datatype EncodeResult = Faces(encs: seq<Vec>) | Raised

  /** The accumulators of the walk: names and encodings in parallel, and the skip count. */
  datatype Corpus = Corpus(names: seq<string>, encodings: seq<Vec>, skipped: nat)

  datatype TrainError = NoEncodings

  /** `str.lower()` on the ASCII letters. */
  function Lower(s: string): (r: string)
    ensures |r| == |s|
    ensures forall i :: 0 <= i < |s| ==> r[i] == (if 'A' <= s[i] <= 'Z' then s[i] - 'A' + 'a' else s[i])
  {
    if s == [] then []
    else [if 'A' <= s[0] <= 'Z' then s[0] - 'A' + 'a' else s[0]] + Lower(s[1..])
  }

  predicate EndsWith(s: string, suffix: string)
  {
    |suffix| <= |s| && s[|s| - |suffix|..] == suffix
  }

  /** The extension filter: the lower-cased name ends in `.jpg`, `.jpeg` or `.png`. */
  predicate IsImageName(fname: string)
  {
    var l := Lower(fname);
    EndsWith(l, ".jpg") || EndsWith(l, ".jpeg") || EndsWith(l, ".png")
  }

  /** One file of a user folder: non-images are passed over; an image with no face or
      whose processing raises is skipped; otherwise its first face is appended. */
  function AddImage(c: Corpus, user: string, fname: string, encode: (string, string) -> EncodeResult): Corpus
  {
    if !IsImageName(fname) then c
    else
      match encode(user, fname)
      case Raised => c.(skipped := c.skipped + 1)
      case Faces(es) =>
        if es == [] then c.(skipped := c.skipped + 1)
        else Corpus(c.names + [user], c.encodings + [es[0]], c.skipped)
  }

  /** The files of one user folder, in the order given. */
  function EncodeFolder(c: Corpus, user: string, files: seq<string>, encode: (string, string) -> EncodeResult): Corpus
  {
    if files == [] then c
    else AddImage(EncodeFolder(c, user, files[..|files| - 1], encode), user, files[|files| - 1], encode)
  }

  /** The whole walk over the listing, in the order given; entries that are not
      directories contribute nothing. */
  function EncodeCorpus(listing: Listing, encode: (string, string) -> EncodeResult): Corpus
  {
    if listing == [] then Corpus([], [], 0)
    else
      var c := EncodeCorpus(listing[..|listing| - 1], encode);
      var (user, entry) := listing[|listing| - 1];
      if entry.Dir? then EncodeFolder(c, user, entry.files, encode) else c
  }

  /** The number of image files among `files`. */
  function ImageCount(files: seq<string>): nat
  {
    if files == [] then 0
    else ImageCount(files[..|files| - 1]) + (if IsImageName(files[|files| - 1]) then 1 else 0)
  }

  /** The number of image files in the user folders of the listing. */
  function CorpusImageCount(listing: Listing): nat
  {
    if listing == [] then 0
    else
      var entry := listing[|listing| - 1].1;
      CorpusImageCount(listing[..|listing| - 1]) + (if entry.Dir? then ImageCount(entry.files) else 0)
  }

  /** The encoder found at least one face in image file `fname` of folder `user`. */
  predicate HasFace(user: string, fname: string, encode: (string, string) -> EncodeResult)
  {
    IsImageName(fname) && encode(user, fname).Faces? && encode(user, fname).encs != []
  }

  /** The number of image files of folder `user` in which a face was found. */
  function FaceCount(user: string, files: seq<string>, encode: (string, string) -> EncodeResult): nat
  {
    if files == [] then 0
    else FaceCount(user, files[..|files| - 1], encode) + (if HasFace(user, files[|files| - 1], encode) then 1 else 0)
  }

  /** The number of image files of folder `user` with no face or whose processing raised. */
  function FailCount(user: string, files: seq<string>, encode: (string, string) -> EncodeResult): nat
  {
    if files == [] then 0
    else
      var f := files[|files| - 1];
      FailCount(user, files[..|files| - 1], encode) + (if IsImageName(f) && !HasFace(user, f, encode) then 1 else 0)
  }

  /** `FaceCount` summed over the user folders of the listing. */
  function CorpusFaceCount(listing: Listing, encode: (string, string) -> EncodeResult): nat
  {
    if listing == [] then 0
    else
      var (user, entry) := listing[|listing| - 1];
      CorpusFaceCount(listing[..|listing| - 1], encode) + (if entry.Dir? then FaceCount(user, entry.files, encode) else 0)
  }

  /** `FailCount` summed over the user folders of the listing. */
  function CorpusFailCount(listing: Listing, encode: (string, string) -> EncodeResult): nat
  {
    if listing == [] then 0
    else
      var (user, entry) := listing[|listing| - 1];
      CorpusFailCount(listing[..|listing| - 1], encode) + (if entry.Dir? then FailCount(user, entry.files, encode) else 0)
  }

  /** `enc` is the first face of some image file among `files` of folder `user`. */
  ghost predicate FirstFaceOf(enc: Vec, user: string, files: seq<string>, encode: (string, string) -> EncodeResult)
  {
    exists f :: f in files && IsImageName(f) && encode(user, f).Faces? && encode(user, f).encs != []
      && encode(user, f).encs[0] == enc
  }

  /** `(name, enc)` comes from an image in the folder `name` of the listing. */
  ghost predicate FromListing(name: string, enc: Vec, listing: Listing, encode: (string, string) -> EncodeResult)
  {
    exists d :: 0 <= d < |listing| && listing[d].0 == name && listing[d].1.Dir?
      && FirstFaceOf(enc, name, listing[d].1.files, encode)
  }

  /** Every image of a folder either appends one name/encoding pair or counts one skip. */
  lemma {:induction false} EncodeFolderAccounting(c: Corpus, user: string, files: seq<string>,
                                                 encode: (string, string) -> EncodeResult)
    ensures var r := EncodeFolder(c, user, files, encode);
      && |r.names| - |c.names| == |r.encodings| - |c.encodings|
      && |r.encodings| + r.skipped == |c.encodings| + c.skipped + ImageCount(files)
      && |c.names| <= |r.names| && |c.encodings| <= |r.encodings|
      && r.names[..|c.names|] == c.names && r.encodings[..|c.encodings|] == c.encodings
      && (forall k :: |c.names| <= k < |r.names| ==> r.names[k] == user)
  {
    if files != [] {
      EncodeFolderAccounting(c, user, files[..|files| - 1], encode);
    }
  }

  /** The walk keeps `names` and `encodings` parallel, and every image file of a user folder
      is either encoded or counted as skipped. */
  lemma {:induction false} CorpusAccounting(listing: Listing, encode: (string, string) -> EncodeResult)
    ensures var c := EncodeCorpus(listing, encode);
      |c.names| == |c.encodings| && |c.encodings| + c.skipped == CorpusImageCount(listing)
  {
    if listing != [] {
      var p := listing[..|listing| - 1];
      CorpusAccounting(p, encode);
      var entry := listing[|listing| - 1].1;
      if entry.Dir? {
        EncodeFolderAccounting(EncodeCorpus(p, encode), listing[|listing| - 1].0, entry.files, encode);
      }
    }
  }

  /** A folder appends exactly one pair per image in which a face was found, and counts
      exactly one skip per image with no face or whose processing raised. */
  lemma {:induction false} EncodeFolderCounts(c: Corpus, user: string, files: seq<string>,
                                              encode: (string, string) -> EncodeResult)
    ensures var r := EncodeFolder(c, user, files, encode);
      && |r.encodings| == |c.encodings| + FaceCount(user, files, encode)
      && r.skipped == c.skipped + FailCount(user, files, encode)
  {
    if files != [] {
      EncodeFolderCounts(c, user, files[..|files| - 1], encode);
    }
  }

  /** The store holds one encoding per image with a face, and `skipped` counts the images
      with no face or whose processing raised. */
  lemma {:induction false} CorpusCounts(listing: Listing, encode: (string, string) -> EncodeResult)
    ensures var c := EncodeCorpus(listing, encode);
      |c.encodings| == CorpusFaceCount(listing, encode) && c.skipped == CorpusFailCount(listing, encode)
  {
    if listing != [] {
      var p := listing[..|listing| - 1];
      CorpusCounts(p, encode);
      var (user, entry) := listing[|listing| - 1];
      if entry.Dir? {
        EncodeFolderCounts(EncodeCorpus(p, encode), user, entry.files, encode);
      }
    }
  }

  /** The pairs a folder appends are its user with the first face of one of its images. */
  lemma {:induction false} EncodeFolderOrigin(c: Corpus, user: string, files: seq<string>,
                                             encode: (string, string) -> EncodeResult)
    requires |c.names| == |c.encodings|
    ensures var r := EncodeFolder(c, user, files, encode);
      && |r.names| == |r.encodings|
      && |c.names| <= |r.names| && |c.encodings| <= |r.encodings|
      && r.names[..|c.names|] == c.names && r.encodings[..|c.encodings|] == c.encodings
      && (forall k :: |c.names| <= k < |r.names| ==>
            r.names[k] == user && FirstFaceOf(r.encodings[k], user, files, encode))
  {
    if files != [] {
      var pre := files[..|files| - 1];
      var last := files[|files| - 1];
      EncodeFolderOrigin(c, user, pre, encode);
      var q := EncodeFolder(c, user, pre, encode);
      var r := EncodeFolder(c, user, files, encode);
      assert r == AddImage(q, user, last, encode);
      forall k | |c.names| <= k < |r.names|
        ensures r.names[k] == user && FirstFaceOf(r.encodings[k], user, files, encode)
      {
        if k < |q.names| {
          assert r.names[k] == q.names[k] && r.encodings[k] == q.encodings[k];
          var f :| f in pre && IsImageName(f) && encode(user, f).Faces? && encode(user, f).encs != []
                   && encode(user, f).encs[0] == q.encodings[k];
          assert f in files;
        } else {
          assert last in files;
        }
      }
    }
  }

  /** Every stored pair is a user folder's name together with the first face found in one
      of that folder's images. */
  lemma {:induction false} CorpusOrigin(listing: Listing, encode: (string, string) -> EncodeResult)
    ensures var c := EncodeCorpus(listing, encode);
      && |c.names| == |c.encodings|
      && forall k :: 0 <= k < |c.names| ==> FromListing(c.names[k], c.encodings[k], listing, encode)
  {
    if listing != [] {
      var n := |listing|;
      var p := listing[..n - 1];
      CorpusOrigin(p, encode);
      var q := EncodeCorpus(p, encode);
      var c := EncodeCorpus(listing, encode);
      var (user, entry) := listing[n - 1];
      if entry.Dir? {
        EncodeFolderOrigin(q, user, entry.files, encode);
      }
      forall k | 0 <= k < |c.names|
        ensures FromListing(c.names[k], c.encodings[k], listing, encode)
      {
        if k < |q.names| {
          assert c.names[k] == q.names[k] && c.encodings[k] == q.encodings[k];
          var d :| 0 <= d < |p| && p[d].0 == q.names[k] && p[d].1.Dir?
                   && FirstFaceOf(q.encodings[k], q.names[k], p[d].1.files, encode);
          assert listing[d] == p[d];
        } else {
          assert listing[n - 1].0 == c.names[k];
        }
      }
    }
  }

  /** When the user folders are listed in sorted order, the names come out sorted. */
  lemma {:induction false} SortedListingSortedNames(listing: Listing, encode: (string, string) -> EncodeResult)
    requires Sorted(listing, ByName)
    ensures Sorted(EncodeCorpus(listing, encode).names, LexLe)
    ensures forall k :: 0 <= k < |EncodeCorpus(listing, encode).names| ==>
              exists d :: 0 <= d < |listing| && listing[d].0 == EncodeCorpus(listing, encode).names[k]
  {
    LexLeIsTotalPreorder();
    if listing != [] {
      var n := |listing|;
      var p := listing[..n - 1];
      assert Sorted(p, ByName);
      SortedListingSortedNames(p, encode);
      var q := EncodeCorpus(p, encode);
      var c := EncodeCorpus(listing, encode);
      var (user, entry) := listing[n - 1];
      if entry.Dir? {
        EncodeFolderAccounting(q, user, entry.files, encode);
        forall k | 0 <= k < |c.names|
          ensures exists d :: 0 <= d < n && listing[d].0 == c.names[k]
        {
          if k < |q.names| {
            assert c.names[k] == q.names[k];
            var d :| 0 <= d < |p| && p[d].0 == q.names[k];
            assert listing[d] == p[d];
          } else {
            assert listing[n - 1].0 == c.names[k];
          }
        }
        forall a, b | 0 <= a < b < |c.names|
          ensures LexLe(c.names[a], c.names[b])
        {
          if b < |q.names| {
            assert c.names[a] == q.names[a] && c.names[b] == q.names[b];
          } else if a < |q.names| {
            assert c.names[a] == q.names[a];
            var d :| 0 <= d < |p| && p[d].0 == q.names[a];
            assert ByName(listing[d], listing[n - 1]);
          }
        }
      } else {
        forall k | 0 <= k < |c.names|
          ensures exists d :: 0 <= d < n && listing[d].0 == c.names[k]
        {
          var d :| 0 <= d < |p| && p[d].0 == q.names[k];
          assert listing[d] == p[d];
        }
      }
    }
  }

  /** Listing entries ordered by name. */
  function ByName(x: (string, Entry), y: (string, Entry)): bool
  {
    LexLe(x.0, y.0)
  }

  /** The walk of both rebuilds: user folders in listing order, each folder's files in
      listing order. */
  method EncodeImages(listing: Listing, encode: (string, string) -> EncodeResult)
    returns (names: seq<string>, encs: seq<Vec>, skipped: nat)
    ensures Corpus(names, encs, skipped) == EncodeCorpus(listing, encode)
  {
    names, encs, skipped := [], [], 0;
    var d := 0;
    while d < |listing|
      invariant 0 <= d <= |listing|
      invariant Corpus(names, encs, skipped) == EncodeCorpus(listing[..d], encode)
    {
      var (user, entry) := listing[d];
      if entry.Dir? {
        ghost var base := EncodeCorpus(listing[..d], encode);
        var files := entry.files;
        var j := 0;
        while j < |files|
          invariant 0 <= j <= |files|
          invariant Corpus(names, encs, skipped) == EncodeFolder(base, user, files[..j], encode)
        {
          var fname := files[j];
          if IsImageName(fname) {
            var res := encode(user, fname);
            match res
            case Raised =>
              skipped := skipped + 1;
            case Faces(es) =>
              if es == [] {
                skipped := skipped + 1;
              } else {
                encs := encs + [es[0]];
                names := names + [user];
              }
          }
          assert files[..j + 1][..j] == files[..j];
          j := j + 1;
        }
        assert files[..j] == files;
      }
      assert listing[..d + 1][..d] == listing[..d];
      d := d + 1;
    }
    assert listing[..d] == listing;
  }

  lemma ByNameIsTotalPreorder()
    ensures TotalPreorder(ByName)
  {
    forall x, y ensures ByName(x, y) || ByName(y, x) { LexLeTotal(x.0, y.0); }
    forall x, y, z | ByName(x, y) && ByName(y, z) ensures ByName(x, z) { LexLeTrans(x.0, y.0, z.0); }
  }

  /** One entry with its file names sorted (`sorted(os.listdir(user_folder))`). */
  function SortEntry(e: (string, Entry)): (r: (string, Entry))
    ensures r.0 == e.0 && r.1.Dir? == e.1.Dir?
    ensures r.1.Dir? ==> Sorted(r.1.files, LexLe) && multiset(r.1.files) == multiset(e.1.files)
  {
    if e.1.Dir? then
      LexLeIsTotalPreorder();
      SortSorted(e.1.files, LexLe);
      (e.0, Dir(Sort(e.1.files, LexLe)))
    else (e.0, NotDir)
  }

  /** Every user folder's file names in sorted order. */
  function SortFiles(listing: Listing): (r: Listing)
    ensures |r| == |listing|
    ensures forall i :: 0 <= i < |r| ==> r[i] == SortEntry(listing[i])
  {
    seq(|listing|, i requires 0 <= i < |listing| => SortEntry(listing[i]))
  }

  /** The listing as the training script walks it: folders by name, files by name. */
  function SortedListing(listing: Listing): (r: Listing)
    ensures Sorted(r, ByName)
    ensures multiset(r) == multiset(SortFiles(listing))
  {
    ByNameIsTotalPreorder();
    SortSorted(SortFiles(listing), ByName);
    Sort(SortFiles(listing), ByName)
  }

  /** What a successful training run saves and reports. */
  datatype TrainReport = TrainReport(store: EncStore, skipped: nat)

  /** `train_encodings.py`: the sorted walk; an error when no encoding was produced,
      otherwise the store to save, with names sorted and every image accounted for. */
  method TrainEncodings(listing: Listing, encode: (string, string) -> EncodeResult)
    returns (r: Result<TrainReport, TrainError>)
    ensures var c := EncodeCorpus(SortedListing(listing), encode);
      && (r == Err(NoEncodings) <==> c.encodings == [])
      && (r.Ok? ==> r.value == TrainReport(EncStore(c.names, c.encodings), c.skipped))
    ensures r.Ok? ==>
      var st := r.value.store;
      && |st.names| == |st.encodings|
      && Sorted(st.names, LexLe)
      && |st.encodings| + r.value.skipped == CorpusImageCount(SortedListing(listing))
  {
    var walk := SortedListing(listing);
    var names, encs, skipped := EncodeImages(walk, encode);
    if encs == [] {
      return Err(NoEncodings);
    }
    CorpusAccounting(walk, encode);
    SortedListingSortedNames(walk, encode);
    r := Ok(TrainReport(EncStore(names, encs), skipped));
  }

  /** `build_encodings_from_images`: the same walk in listing order, without sorting and
      without a skip count; the (possibly empty) store is saved and returned. */
  method BuildEncodingsFromImages(listing: Listing, encode: (string, string) -> EncodeResult)
    returns (st: EncStore)
    ensures var c := EncodeCorpus(listing, encode); st == EncStore(c.names, c.encodings)
    ensures |st.names| == |st.encodings|
    ensures forall k :: 0 <= k < |st.names| ==> FromListing(st.names[k], st.encodings[k], listing, encode)
  {
    var names, encs, skipped := EncodeImages(listing, encode);
    CorpusOrigin(listing, encode);
    st := EncStore(names, encs);
  }
}
