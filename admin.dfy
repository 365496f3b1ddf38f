/**
 * `api_remove_student` (app.py): sanitize the requested name, delete every
 * file the pattern `safe + ".*"` lists in the images directory, and reload
 * the gallery from what is left.
 */
module Admin {
  import opened Text
  import opened Names
  import opened KnownFaces

  const NAME_REQUIRED := "name required"

  /** The JSON answer: an error (HTTP 400) or whether something was removed and the students that remain. */
  datatype RemoveResponse = RemoveError(error: string) | RemoveOk(removed: bool, students: seq<string>)

  /** The entries `glob(safe + ".*")` lists, in directory order. */
  function Selected<R>(safe: string, dir: seq<DirEntry<R>>): (sel: seq<DirEntry<R>>)
    requires !HasGlobMagic(safe)
    ensures |sel| <= |dir|
    ensures forall i :: 0 <= i < |sel| ==> sel[i] in dir && MatchesRemovalGlob(safe, sel[i].name)
    ensures forall i :: 0 <= i < |dir| && MatchesRemovalGlob(safe, dir[i].name) ==> dir[i] in sel
  {
    if dir == [] then []
    else
      var init := Selected(safe, dir[..|dir| - 1]);
      var e := dir[|dir| - 1];
      assert dir == dir[..|dir| - 1] + [e];
      if MatchesRemovalGlob(safe, e.name) then init + [e] else init
  }

  /** `os.remove` on a listed entry succeeds exactly for a regular file (a directory raises and is kept). */
  predicate Deletes<R>(safe: string, e: DirEntry<R>)
    requires !HasGlobMagic(safe)
  {
    MatchesRemovalGlob(safe, e.name) && e.isFile
  }

  /** The images directory after the deletions, in directory order. */
  function Remaining<R>(safe: string, dir: seq<DirEntry<R>>): (rest: seq<DirEntry<R>>)
    requires !HasGlobMagic(safe)
    ensures |rest| <= |dir|
    ensures forall i :: 0 <= i < |rest| ==> rest[i] in dir && !Deletes(safe, rest[i])
    ensures forall i :: 0 <= i < |dir| && !Deletes(safe, dir[i]) ==> dir[i] in rest
  {
    if dir == [] then []
    else
      var init := Remaining(safe, dir[..|dir| - 1]);
      var e := dir[|dir| - 1];
      assert dir == dir[..|dir| - 1] + [e];
      if Deletes(safe, e) then init else init + [e]
  }

  /** The directory after removing the student called `name`. */
  function RemainingAfter<R>(name: string, dir: seq<DirEntry<R>>): (rest: seq<DirEntry<R>>)
    ensures forall i :: 0 <= i < |rest| ==> rest[i] in dir
  {
    SanitizedHasNoGlobMagic(name);
    Remaining(Sanitize(name), dir)
  }

  /** Whether removing `name` deletes at least one file. */
  predicate RemovesSome<R>(name: string, dir: seq<DirEntry<R>>)
  {
    SanitizedHasNoGlobMagic(name);
    exists i :: 0 <= i < |dir| && Deletes(Sanitize(name), dir[i])
  }

  /**
   * `api_remove_student` after the admin check: an empty name is refused and
   * nothing is deleted; otherwise every listed file the pattern selects is
   * deleted, `removed` says whether any deletion succeeded, and the students
   * are the keys of the gallery reloaded from the remaining files.
   */
  method ApiRemoveStudent<R>(name: string, dir: seq<DirEntry<R>>) returns (resp: RemoveResponse, after: seq<DirEntry<R>>)
    ensures name == [] ==> resp == RemoveError(NAME_REQUIRED) && after == dir
    ensures name != [] ==> after == RemainingAfter(name, dir)
    ensures name != [] ==> resp.RemoveOk? && (resp.removed <==> RemovesSome(name, dir))
    ensures name != [] ==> resp.RemoveOk? && resp.students == Keys(Build(after))
  {
    if name == [] {
      return RemoveError(NAME_REQUIRED), dir;
    }
    var safe := Sanitize(name);
    SanitizedHasNoGlobMagic(name);
    var removed := false;
    after := [];
    for i := 0 to |dir|
      invariant after == Remaining(safe, dir[..i])
      invariant removed == DeletesBefore(safe, dir, i)
    {
      var e := dir[i];
      RemainingSnoc(safe, dir, i);
      DeletesBeforeStep(safe, dir, i);
      if MatchesRemovalGlob(safe, e.name) {
        if e.isFile {
          removed := true;
        } else {
          after := after + [e];
        }
      } else {
        after := after + [e];
      }
    }
    assert dir[..|dir|] == dir;
    var students := LoadKnownFaces(after);
    resp := RemoveOk(removed, Keys(students));
  }

  /** Some entry among the first `n` is deleted. */
  predicate DeletesBefore<R>(safe: string, dir: seq<DirEntry<R>>, n: nat)
    requires !HasGlobMagic(safe) && n <= |dir|
  {
    exists j :: 0 <= j < n && Deletes(safe, dir[j])
  }

  lemma DeletesBeforeStep<R>(safe: string, dir: seq<DirEntry<R>>, i: nat)
    requires !HasGlobMagic(safe) && i < |dir|
    ensures DeletesBefore(safe, dir, i + 1) <==> DeletesBefore(safe, dir, i) || Deletes(safe, dir[i])
  {
  }

  lemma RemainingSnoc<R>(safe: string, dir: seq<DirEntry<R>>, i: nat)
    requires !HasGlobMagic(safe) && i < |dir|
    ensures Remaining(safe, dir[..i + 1]) == Remaining(safe, dir[..i]) + (if Deletes(safe, dir[i]) then [] else [dir[i]])
  {
    assert dir[..i + 1][..i] == dir[..i];
  }

  /** For a request the removal pattern lists exactly the entries named `safe + "."` followed by anything. */
  lemma SelectedArePrefixed<R>(name: string, dir: seq<DirEntry<R>>, e: DirEntry<R>)
    ensures !HasGlobMagic(Sanitize(name))
    ensures e in Selected(Sanitize(name), dir) <==> e in dir && StartsWith(e.name, Sanitize(name) + ".")
  {
    RemovalGlobSelectsPrefix(name, e.name);
  }

  /** A name without an extension is its own identity. */
  lemma StemOfNameChars(s: string)
    requires forall i :: 0 <= i < |s| ==> IsNameChar(s[i])
    ensures Stem(s) == s
  {
    assert '.' !in s by {
      forall i | 0 <= i < |s| ensures s[i] != '.' {
        assert IsNameChar(s[i]);
      }
    }
  }

  /**
   * After a removal, the removed identity is still a student exactly when an
   * image named `safe` itself, with no extension, loads: the pattern needs the
   * dot, so that file survives while every `safe.ext` file is deleted.
   */
  lemma RemovedIdentitySurvivesIff<R>(name: string, dir: seq<DirEntry<R>>)
    ensures Sanitize(name) in Keys(Build(RemainingAfter(name, dir)))
        <==> exists i :: 0 <= i < |dir| && dir[i].name == Sanitize(name) && Loads(dir[i])
  {
    var safe := Sanitize(name);
    SanitizedHasNoGlobMagic(name);
    var rest := RemainingAfter(name, dir);
    BuildKeys(rest, safe);
    if ProvidedIn(rest, safe) {
      var j :| 0 <= j < |rest| && Provides(rest[j], safe);
      var e := rest[j];
      assert e in rest;
      RemovalGlobSelectsPrefix(name, e.name);
      UnlistedStemIsBareName(safe, e.name);
      var i :| 0 <= i < |dir| && dir[i] == e;
      assert dir[i].name == safe && Loads(dir[i]);
    }
    if exists i :: 0 <= i < |dir| && dir[i].name == safe && Loads(dir[i]) {
      var i :| 0 <= i < |dir| && dir[i].name == safe && Loads(dir[i]);
      var e := dir[i];
      assert !StartsWith(e.name, safe + ".");
      RemovalGlobSelectsPrefix(name, e.name);
      assert e in dir;
      assert e in rest;
      var j :| 0 <= j < |rest| && rest[j] == e;
      StemOfNameChars(safe);
      assert Provides(rest[j], safe);
    }
  }

  /** An entry is gone after the deletions exactly when the pattern lists it and it is a regular file. */
  lemma DeletedAreSelectedFiles<R>(safe: string, dir: seq<DirEntry<R>>, i: nat)
    requires !HasGlobMagic(safe) && i < |dir|
    ensures dir[i] !in Remaining(safe, dir) <==> dir[i] in Selected(safe, dir) && dir[i].isFile
  {
    var rest := Remaining(safe, dir);
    if dir[i] in rest {
      var k :| 0 <= k < |rest| && rest[k] == dir[i];
      assert !Deletes(safe, rest[k]);
    }
  }

  /**
   * Something is deleted (what `RemovesSome` says of the sanitized name)
   * exactly when an entry the pattern lists is a regular file.
   */
  lemma SomeDeletedIffSelectedFile<R>(safe: string, dir: seq<DirEntry<R>>)
    requires !HasGlobMagic(safe)
    ensures (exists i :: 0 <= i < |dir| && Deletes(safe, dir[i]))
        <==> exists j :: 0 <= j < |Selected(safe, dir)| && Selected(safe, dir)[j].isFile
  {
    var sel := Selected(safe, dir);
    if i :| 0 <= i < |dir| && Deletes(safe, dir[i]) {
      assert MatchesRemovalGlob(safe, dir[i].name);
      var j :| 0 <= j < |sel| && sel[j] == dir[i];
      assert sel[j].isFile;
    }
    if j :| 0 <= j < |sel| && sel[j].isFile {
      assert sel[j] in dir && MatchesRemovalGlob(safe, sel[j].name);
      var i :| 0 <= i < |dir| && dir[i] == sel[j];
      assert Deletes(safe, dir[i]);
    }
    assert sel == Selected(safe, dir);
  }

  /** An entry the pattern does not list is still there after the removal. */
  lemma UnselectedSurvive<R>(name: string, dir: seq<DirEntry<R>>, e: DirEntry<R>)
    requires e in dir && !StartsWith(e.name, Sanitize(name) + ".")
    ensures e in RemainingAfter(name, dir)
  {
    RemovalGlobSelectsPrefix(name, e.name);
  }
}
