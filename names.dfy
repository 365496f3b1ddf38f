/**
 * Student names and image file names (app.py): `sanitize_name`, the
 * identity a file name stands for (`os.path.splitext` on the base name),
 * and the file selection `glob(safe + ".*")` that removal deletes.
 */
module Names {
  import opened Wrappers
  import opened Text

  /** `str.isalnum` restricted to ASCII: letters and decimal digits. */
  predicate IsAlnum(c: char)
  {
    'a' <= c <= 'z' || 'A' <= c <= 'Z' || '0' <= c <= '9'
  }

  /** The characters the comprehension in `sanitize_name` lets through. */
  predicate IsKept(c: char)
  {
    IsAlnum(c) || c == ' ' || c == '-' || c == '_'
  }

  /** The characters a sanitized name is made of. */
  predicate IsNameChar(c: char)
  {
    IsAlnum(c) || c == '-' || c == '_'
  }

  /** `"".join(c for c in s if c.isalnum() or c in (' ', '-', '_'))` */
  function KeepChars(s: string): (r: string)
    ensures forall c :: c in r ==> IsKept(c) && c in s
    ensures forall c :: c in s && IsKept(c) ==> c in r
  {
    if s == [] then [] else (if IsKept(s[0]) then [s[0]] else []) + KeepChars(s[1..])
  }

  /** `sanitize_name`: keep letters, digits, spaces, `-` and `_`, strip, then turn spaces into `_`. */
  function Sanitize(name: string): (r: string)
    ensures forall i :: 0 <= i < |r| ==> IsNameChar(r[i])
  {
    var stripped := Strip(KeepChars(name));
    StrippedCharsAreKept(name);
    SpacesReplacedByUnderscore(stripped);
    ReplaceChar(stripped, ' ', '_')
  }

  lemma StrippedCharsAreKept(name: string)
    ensures forall i :: 0 <= i < |Strip(KeepChars(name))| ==> IsKept(Strip(KeepChars(name))[i])
  {
    var kept := KeepChars(name);
    var stripped := Strip(kept);
    StripKeepsChars(kept);
    forall i | 0 <= i < |stripped| ensures IsKept(stripped[i]) {
      assert stripped[i] in stripped;
    }
  }

  lemma SpacesReplacedByUnderscore(s: string)
    requires forall i :: 0 <= i < |s| ==> IsKept(s[i])
    ensures forall i :: 0 <= i < |s| ==> IsNameChar(ReplaceChar(s, ' ', '_')[i])
  {
  }

  lemma {:induction false} KeepCharsNoop(s: string)
    requires forall i :: 0 <= i < |s| ==> IsKept(s[i])
    ensures KeepChars(s) == s
  {
    if s != [] {
      KeepCharsNoop(s[1..]);
      assert [s[0]] + s[1..] == s;
    }
  }

  /** The filter works character by character: it keeps a kept character and drops any other. */
  lemma KeepCharsOne(c: char)
    ensures KeepChars([c]) == if IsKept(c) then [c] else []
  {
    assert [c][1..] == [];
  }

  /** The filter distributes over concatenation, so it keeps order and multiplicity. */
  lemma {:induction false} KeepCharsAppend(a: string, b: string)
    ensures KeepChars(a + b) == KeepChars(a) + KeepChars(b)
  {
    if a == [] {
      assert a + b == b;
    } else {
      assert (a + b)[1..] == a[1..] + b;
      KeepCharsAppend(a[1..], b);
    }
  }

  /** A string made of name characters is its own sanitized form. */
  lemma SanitizeNoop(s: string)
    requires forall i :: 0 <= i < |s| ==> IsNameChar(s[i])
    ensures Sanitize(s) == s
  {
    KeepCharsNoop(s);
    NameCharsHaveNoSpace(s);
    StripNoop(s);
    ReplaceCharAbsent(s, ' ', '_');
  }

  /** Sanitizing a sanitized name changes nothing. */
  lemma SanitizeIdempotent(name: string)
    ensures Sanitize(Sanitize(name)) == Sanitize(name)
  {
    SanitizeNoop(Sanitize(name));
  }

  /** A name sanitizes to the empty string exactly when it holds no letter, digit, `-` or `_`. */
  lemma SanitizeEmptyIff(name: string)
    ensures Sanitize(name) == [] <==> forall i :: 0 <= i < |name| ==> !IsNameChar(name[i])
  {
    var kept := KeepChars(name);
    StripEmptyIff(kept);
    assert |Sanitize(name)| == |Strip(kept)|;
    if Sanitize(name) == [] {
      forall i | 0 <= i < |name| ensures !IsNameChar(name[i]) {
        assert name[i] in name;
      }
    } else {
      var j :| 0 <= j < |kept| && !IsSpace(kept[j]);
      assert kept[j] in kept;
      var i :| 0 <= i < |name| && name[i] == kept[j];
      assert IsNameChar(name[i]);
    }
  }

  /** A character the filter drops does not affect the sanitized name. */
  lemma SanitizeDropsUnkept(a: string, c: char, b: string)
    requires !IsKept(c)
    ensures Sanitize(a + [c] + b) == Sanitize(a + b)
  {
    KeepCharsAppend(a + [c], b);
    KeepCharsAppend(a, [c]);
    KeepCharsAppend(a, b);
    KeepCharsOne(c);
    assert KeepChars(a + [c] + b) == KeepChars(a + b);
  }

  /** A space in front of a name is stripped. */
  lemma SanitizeLeadingSpace(name: string)
    ensures Sanitize(" " + name) == Sanitize(name)
  {
    assert (" " + name)[1..] == name;
    assert KeepChars(" " + name) == " " + KeepChars(name);
    StripLeadingSpace(' ', KeepChars(name));
  }

  /** A space after a name is stripped. */
  lemma SanitizeTrailingSpace(name: string)
    ensures Sanitize(name + " ") == Sanitize(name)
  {
    KeepCharsAppend(name, " ");
    KeepCharsOne(' ');
    StripTrailingSpace(KeepChars(name), ' ');
  }

  /** A space between two words of name characters becomes `_`. */
  lemma SanitizeInnerSpace(a: string, b: string)
    requires a != [] && b != []
    requires forall i :: 0 <= i < |a| ==> IsNameChar(a[i])
    requires forall i :: 0 <= i < |b| ==> IsNameChar(b[i])
    ensures Sanitize(a + " " + b) == a + "_" + b
  {
    var s := a + " " + b;
    NameCharsHaveNoSpace(a);
    NameCharsHaveNoSpace(b);
    assert forall i :: 0 <= i < |s| ==> IsKept(s[i]);
    KeepCharsNoop(s);
    assert s[0] == a[0] && s[|s| - 1] == b[|b| - 1];
    StripNoop(s);
    ReplaceCharOnce(a, ' ', '_', b);
  }

  /**
   * A filtered name without spaces at either end: every space becomes `_`
   * and every other character stays where it is. With `SanitizeDropsUnkept`,
   * `SanitizeLeadingSpace` and `SanitizeTrailingSpace` this fixes `Sanitize`
   * on every input.
   */
  lemma SanitizeKeptText(s: string)
    requires forall i :: 0 <= i < |s| ==> IsKept(s[i])
    requires s == [] || (s[0] != ' ' && s[|s| - 1] != ' ')
    ensures |Sanitize(s)| == |s|
    ensures forall i :: 0 <= i < |s| ==> Sanitize(s)[i] == (if s[i] == ' ' then '_' else s[i])
  {
    KeepCharsNoop(s);
    if s != [] {
      assert IsKept(s[0]) && IsKept(s[|s| - 1]);
    }
    StripNoop(s);
  }

  lemma NameCharsHaveNoSpace(s: string)
    requires forall i :: 0 <= i < |s| ==> IsNameChar(s[i])
    ensures ' ' !in s && (s != [] ==> !IsSpace(s[0]) && !IsSpace(s[|s| - 1]))
  {
    forall i | 0 <= i < |s| ensures s[i] != ' ' && !IsSpace(s[i]) {
      assert IsNameChar(s[i]);
    }
  }

  /** Python's `s.rfind(c)`, as an option. */
  function LastIndexOf(s: string, c: char): (r: Option<nat>)
    ensures r.None? ==> c !in s
    ensures r.Some? ==> r.value < |s| && s[r.value] == c && c !in s[r.value + 1..]
  {
    if s == [] then None
    else if s[|s| - 1] == c then Some(|s| - 1)
    else
      var r := LastIndexOf(s[..|s| - 1], c);
      assert r.Some? ==> s[r.value + 1..] == s[..|s| - 1][r.value + 1..] + [s[|s| - 1]];
      r
  }

  predicate AllDots(s: string)
  {
    forall i :: 0 <= i < |s| ==> s[i] == '.'
  }

  /**
   * `os.path.splitext` on a base name: cut before the last dot, unless
   * everything before that dot is dots (a leading-dot name has no extension).
   */
  function SplitExt(f: string): (r: (string, string))
    ensures r.0 + r.1 == f
    ensures r.1 != [] ==> r.1[0] == '.' && '.' !in r.1[1..] && !AllDots(r.0)
    ensures r.1 == [] ==> forall k :: 0 <= k < |f| && f[k] == '.' ==> AllDots(f[..k])
  {
    match LastIndexOf(f, '.')
    case None => (f, [])
    case Some(i) =>
      if AllDots(f[..i]) then
        assert forall k :: i < k < |f| ==> f[k] != '.' by {
          forall k | i < k < |f| ensures f[k] != '.' { assert f[k] in f[i + 1..]; }
        }
        (f, [])
      else
        (f[..i], f[i..])
  }

  /** The identity a gallery image stands for: its file name without the extension. */
  function Stem(f: string): string
  {
    SplitExt(f).0
  }

  /** Naming a file `stem + "." + ext` (no dot in `ext`) makes `stem` its identity again. */
  lemma SplitExtOfJoined(stem: string, ext: string)
    requires !AllDots(stem) && '.' !in ext
    ensures SplitExt(stem + "." + ext) == (stem, "." + ext)
  {
    var f := stem + "." + ext;
    var r := LastIndexOf(f, '.');
    assert f[|stem|] == '.';
    assert r.Some?;
    var v := r.value;
    assert v == |stem|;
    assert f[..v] == stem;
    assert f[v..] == "." + ext;
  }

  /** Whether a string holds one of the characters `fnmatch` treats as special. */
  predicate HasGlobMagic(s: string)
  {
    '*' in s || '?' in s || '[' in s
  }

  /**
   * Whether `glob.glob(safe + ".*")` lists the directory entry named `f`:
   * the literal `safe` and a dot, then anything; a name that starts with a
   * dot is listed only when the pattern itself starts with one.
   */
  predicate MatchesRemovalGlob(safe: string, f: string)
    requires !HasGlobMagic(safe)
  {
    var pattern := safe + ".*";
    StartsWith(f, safe + ".") && (f[0] == '.' ==> pattern[0] == '.')
  }

  /** A sanitized name has no glob metacharacter, so the removal pattern is literal. */
  lemma SanitizedHasNoGlobMagic(name: string)
    ensures !HasGlobMagic(Sanitize(name))
  {
    NameCharsHaveNoGlobMagic(Sanitize(name));
  }

  lemma NameCharsHaveNoGlobMagic(s: string)
    requires forall i :: 0 <= i < |s| ==> IsNameChar(s[i])
    ensures !HasGlobMagic(s)
  {
    forall c | c in s ensures c != '*' && c != '?' && c != '[' {
      var i :| 0 <= i < |s| && s[i] == c;
      assert IsNameChar(s[i]);
    }
  }

  /**
   * For a sanitized name the removal glob lists exactly the entries named
   * `safe + "."` followed by anything (for an empty `safe`: every dot-file).
   */
  lemma RemovalGlobSelectsPrefix(name: string, f: string)
    ensures !HasGlobMagic(Sanitize(name))
    ensures MatchesRemovalGlob(Sanitize(name), f) <==> StartsWith(f, Sanitize(name) + ".")
  {
    var safe := Sanitize(name);
    SanitizedHasNoGlobMagic(name);
    if StartsWith(f, safe + ".") && safe != [] {
      assert f[0] == safe[0];
      assert IsNameChar(safe[0]);
    }
  }

  /** The selection ignores identities: removing `alice` also lists `alice.old.png`, the image of `alice.old`. */
  lemma RemovalGlobCrossesIdentities()
    ensures MatchesRemovalGlob("alice", "alice.old.png")
    ensures Stem("alice.old.png") == "alice.old"
  {
    assert "alice.old"[0] != '.';
    SplitExtOfJoined("alice.old", "png");
    assert "alice.old" + "." + "png" == "alice.old.png";
    assert "alice.old.png"[..6] == "alice.";
  }

  /** A file whose identity is `safe` and that the removal glob does not list is named exactly `safe`. */
  lemma UnlistedStemIsBareName(safe: string, f: string)
    requires Stem(f) == safe
    requires !StartsWith(f, safe + ".")
    ensures f == safe
  {
  }
}
