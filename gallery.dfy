/**
 * The gallery of registered students (`load_known_faces`, app.py): a scan of
 * the images directory that keeps, for each file name stem, the
 * representation extracted from the image. The gallery is a Python dict, so
 * it is ordered by first insertion and an assignment to an existing key
 * keeps the key where it is.
 */
module KnownFaces {
  import opened Wrappers
  import opened Names

  /**
   * What extracting a representation from one image gives: a representation,
   * no face in the image (embedding mode), or an exception (unreadable image).
   */
  datatype Extraction<R> = Extracted(rep: R) | NoFace | Raised

  /**
   * Embedding mode keeps the first detected face, and an image without one
   * gives nothing: in that mode an entry's `extraction` is `FirstFace` of the
   * encodings found in its image (see `FirstFaceEntry`).
   */
  function FirstFace<E>(faces: seq<E>): (x: Extraction<E>)
    ensures x.Extracted? <==> faces != []
    ensures x.Extracted? ==> x.rep == faces[0]
    ensures !x.Raised?
  {
    if faces == [] then NoFace else Extracted(faces[0])
  }

  /** One entry of the images directory, in listing order, with the oracle's answer for its content. */
  datatype DirEntry<R> = DirEntry(name: string, isFile: bool, extraction: Extraction<R>)

  /** One `name -> representation` item of the gallery dict. */
  datatype Entry<R> = Entry(name: string, rep: R)

  type Gallery<R> = seq<Entry<R>>

  function Keys<R>(g: Gallery<R>): (ks: seq<string>)
  {
    seq(|g|, i requires 0 <= i < |g| => g[i].name)
  }

  predicate DistinctKeys<R>(g: Gallery<R>)
  {
    forall i, j :: 0 <= i < j < |g| ==> g[i].name != g[j].name
  }

  /** The position of key `k` in the dict, if present. */
  function IndexOfKey<R>(g: Gallery<R>, k: string): (r: Option<nat>)
    ensures r.None? ==> forall i :: 0 <= i < |g| ==> g[i].name != k
    ensures r.Some? ==> r.value < |g| && g[r.value].name == k
  {
    if g == [] then None
    else if g[0].name == k then Some(0)
    else
      match IndexOfKey(g[1..], k)
      case None => None
      case Some(i) => Some(i + 1)
  }

  /** `d[k]`, or nothing when `k` is not a key. */
  function Lookup<R>(g: Gallery<R>, k: string): (r: Option<R>)
    ensures r.Some? <==> k in Keys(g)
    ensures r.Some? ==> exists i :: 0 <= i < |g| && g[i] == Entry(k, r.value)
  {
    match IndexOfKey(g, k)
    case None =>
      assert forall i :: 0 <= i < |g| ==> Keys(g)[i] != k;
      None
    case Some(i) =>
      assert Keys(g)[i] == k;
      Some(g[i].rep)
  }

  /** `d[k] = v`: overwrite in place when `k` is present, otherwise append. */
  function Put<R>(g: Gallery<R>, k: string, v: R): (r: Gallery<R>)
    requires DistinctKeys(g)
    ensures DistinctKeys(r)
    ensures k in Keys(g) ==> |r| == |g| && forall i :: 0 <= i < |g| ==> r[i] == (if g[i].name == k then Entry(k, v) else g[i])
    ensures k !in Keys(g) ==> r == g + [Entry(k, v)]
  {
    match IndexOfKey(g, k)
    case None =>
      assert k !in Keys(g);
      g + [Entry(k, v)]
    case Some(i) =>
      assert k in Keys(g) by { assert Keys(g)[i] == k; }
      g[i := Entry(k, v)]
  }

  /** `glob('*')` does not list names that start with a dot. */
  predicate Listed(name: string)
  {
    name != [] && name[0] != '.'
  }

  /** The entry is listed, is a regular file, and its image gave a representation. */
  predicate Loads<R>(e: DirEntry<R>)
  {
    Listed(e.name) && e.isFile && e.extraction.Extracted?
  }

  /**
   * In embedding mode, a listed regular file contributes its image's first
   * encoding, and a file whose image holds no face contributes nothing.
   */
  lemma FirstFaceEntry<E>(name: string, isFile: bool, faces: seq<E>)
    ensures var e := DirEntry(name, isFile, FirstFace(faces));
            && (Loads(e) <==> Listed(name) && isFile && faces != [])
            && (Loads(e) ==> e.extraction.rep == faces[0])
  {
  }

  /** The entry puts a representation under identity `k`. */
  predicate Provides<R>(e: DirEntry<R>, k: string)
  {
    Loads(e) && Stem(e.name) == k
  }

  /** The dict `load_known_faces` returns after scanning `dir` in order. */
  function Build<R>(dir: seq<DirEntry<R>>): (g: Gallery<R>)
    ensures DistinctKeys(g)
  {
    if dir == [] then []
    else
      var g := Build(dir[..|dir| - 1]);
      var e := dir[|dir| - 1];
      if Loads(e) then Put(g, Stem(e.name), e.extraction.rep) else g
  }

  /** `load_known_faces`: fill the dict file by file, skipping entries without a representation. */
  method LoadKnownFaces<R>(dir: seq<DirEntry<R>>) returns (encodings: Gallery<R>)
    ensures encodings == Build(dir)
  {
    encodings := [];
    var i := 0;
    while i < |dir|
      invariant 0 <= i <= |dir|
      invariant encodings == Build(dir[..i])
    {
      var e := dir[i];
      if Listed(e.name) && e.isFile {
        var name := Stem(e.name);
        match e.extraction
        case Extracted(rep) =>
          encodings := Put(encodings, name, rep);
        case NoFace =>
        case Raised =>
      }
      assert dir[..i + 1][..i] == dir[..i];
      i := i + 1;
    }
    assert dir[..|dir|] == dir;
  }

  /** Some entry of `dir` provides identity `k`. */
  predicate ProvidedIn<R>(dir: seq<DirEntry<R>>, k: string)
  {
    exists i :: 0 <= i < |dir| && Provides(dir[i], k)
  }

  lemma ProvidedInSnoc<R>(d: seq<DirEntry<R>>, e: DirEntry<R>, k: string)
    ensures ProvidedIn(d + [e], k) <==> ProvidedIn(d, k) || Provides(e, k)
  {
    if ProvidedIn(d, k) {
      var i :| 0 <= i < |d| && Provides(d[i], k);
      assert (d + [e])[i] == d[i];
    }
    if ProvidedIn(d + [e], k) {
      var i :| 0 <= i < |d + [e]| && Provides((d + [e])[i], k);
      if i < |d| {
        assert (d + [e])[i] == d[i];
      }
    }
    if Provides(e, k) {
      assert (d + [e])[|d|] == e;
    }
  }

  /** Storing under `k` adds `k` to the keys and nothing else. */
  lemma KeysOfPut<R>(g: Gallery<R>, k: string, v: R, x: string)
    requires DistinctKeys(g)
    ensures x in Keys(Put(g, k, v)) <==> x in Keys(g) || x == k
  {
    var r := Put(g, k, v);
    if k in Keys(g) {
      assert Keys(r) == Keys(g);
    } else {
      assert Keys(r) == Keys(g) + [k];
    }
  }

  /** Every key of the gallery is the stem of a loaded file, and every loaded file's stem is a key. */
  lemma {:induction false} BuildKeys<R>(dir: seq<DirEntry<R>>, k: string)
    ensures k in Keys(Build(dir)) <==> ProvidedIn(dir, k)
  {
    if dir != [] {
      var d := dir[..|dir| - 1];
      var e := dir[|dir| - 1];
      assert dir == d + [e];
      BuildKeys(d, k);
      ProvidedInSnoc(d, e, k);
      if Loads(e) {
        KeysOfPut(Build(d), Stem(e.name), e.extraction.rep, k);
      }
    }
  }

  /** A key maps to the representation of the LAST loaded file with that stem. */
  lemma {:induction false} BuildLookupIsLast<R>(dir: seq<DirEntry<R>>, k: string, i: nat)
    requires i < |dir| && Provides(dir[i], k)
    requires forall j :: i < j < |dir| ==> !Provides(dir[j], k)
    ensures Lookup(Build(dir), k) == Some(dir[i].extraction.rep)
  {
    var d := dir[..|dir| - 1];
    var e := dir[|dir| - 1];
    var g := Build(d);
    if i == |dir| - 1 {
      var r := Build(dir);
      var idx := IndexOfKey(r, k);
      assert k in Keys(r) by {
        if k in Keys(g) {
          var j :| 0 <= j < |g| && Keys(g)[j] == k;
          assert Keys(r)[j] == k;
        } else {
          assert Keys(r)[|g|] == k;
        }
      }
      assert idx.Some? by {
        var j :| 0 <= j < |r| && Keys(r)[j] == k;
        assert r[j].name == k;
      }
      assert r[idx.value] == Entry(k, e.extraction.rep);
    } else {
      forall j | i < j < |d| ensures !Provides(d[j], k) {
        assert d[j] == dir[j];
      }
      assert d[i] == dir[i];
      BuildLookupIsLast(d, k, i);
      assert !Provides(e, k);
      LookupAfterOtherPut(g, k, e);
    }
  }

  /** Storing a file under another identity does not change what `k` maps to. */
  lemma LookupAfterOtherPut<R>(g: Gallery<R>, k: string, e: DirEntry<R>)
    requires DistinctKeys(g)
    requires !Provides(e, k)
    ensures Lookup(if Loads(e) then Put(g, Stem(e.name), e.extraction.rep) else g, k) == Lookup(g, k)
  {
    if Loads(e) {
      var r := Put(g, Stem(e.name), e.extraction.rep);
      var a := IndexOfKey(g, k);
      var b := IndexOfKey(r, k);
      if a.Some? {
        assert r[a.value] == g[a.value];
      }
    }
  }

  /** A listed entry that gives no representation (no face, an exception, a directory) leaves the gallery as it was. */
  lemma {:induction false} BuildSkipsUnloaded<R>(before: seq<DirEntry<R>>, e: DirEntry<R>, after: seq<DirEntry<R>>)
    requires !Loads(e)
    ensures Build(before + [e] + after) == Build(before + after)
  {
    if after == [] {
      assert (before + [e])[..|before|] == before;
      assert before + [e] + after == before + [e];
      assert before + after == before;
    } else {
      var a := after[..|after| - 1];
      var last := after[|after| - 1];
      BuildSkipsUnloaded(before, e, a);
      assert (before + [e] + after)[..|before + [e] + after| - 1] == before + [e] + a;
      assert (before + after)[..|before + after| - 1] == before + a;
    }
  }

  /**
   * Gallery order is the order of first insertion: the key at an earlier
   * position was provided by a file listed before every file providing a
   * later key.
   */
  lemma {:induction false} BuildKeyOrder<R>(dir: seq<DirEntry<R>>, p: nat, q: nat, j: nat)
    requires p < q < |Build(dir)|
    requires j < |dir| && Provides(dir[j], Build(dir)[q].name)
    ensures exists i :: 0 <= i < j && Provides(dir[i], Build(dir)[p].name)
  {
    var d := dir[..|dir| - 1];
    var e := dir[|dir| - 1];
    var g := Build(d);
    var r := Build(dir);
    var kp, kq := r[p].name, r[q].name;
    if q < |g| {
      assert r[p].name == g[p].name && r[q].name == g[q].name;
      if j < |d| {
        assert d[j] == dir[j];
        BuildKeyOrder(d, p, q, j);
        var i :| 0 <= i < j && Provides(d[i], kp);
        assert dir[i] == d[i];
      } else {
        assert kq in Keys(g) by { assert Keys(g)[q] == kq; }
        BuildKeys(d, kq);
        var j' :| 0 <= j' < |d| && Provides(d[j'], kq);
        BuildKeyOrder(d, p, q, j');
        var i :| 0 <= i < j' && Provides(d[i], kp);
        assert dir[i] == d[i];
      }
    } else {
      BuildKeyOrderNewKey(dir, p, q, j);
    }
  }

  /** The case of `BuildKeyOrder` where the later key was added by the last entry. */
  lemma BuildKeyOrderNewKey<R>(dir: seq<DirEntry<R>>, p: nat, q: nat, j: nat)
    requires dir != [] && |Build(dir[..|dir| - 1])| <= q
    requires p < q < |Build(dir)|
    requires j < |dir| && Provides(dir[j], Build(dir)[q].name)
    ensures exists i :: 0 <= i < j && Provides(dir[i], Build(dir)[p].name)
  {
    var d := dir[..|dir| - 1];
    var e := dir[|dir| - 1];
    var g := Build(d);
    var r := Build(dir);
    var kp, kq := r[p].name, r[q].name;
    // the key at q was appended by the last entry, so it was not a key before
    assert Loads(e) && kq == Stem(e.name) && kq !in Keys(g);
    if j < |d| {
      assert d[j] == dir[j];
      BuildKeys(d, kq);
      assert false;
    }
    assert kp in Keys(g) by { assert Keys(g)[p] == kp; }
    BuildKeys(d, kp);
    var i :| 0 <= i < |d| && Provides(d[i], kp);
    assert dir[i] == d[i];
  }
}
