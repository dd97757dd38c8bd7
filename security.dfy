/**
 * Filename sanitising and path containment (bot/utils/security.py).
 *
 * A path is the sequence of its components below the root, so `/srv/inbox`
 * is ["srv", "inbox"]. Joining follows pathlib's `/` operator and resolving is
 * lexical: symbolic links are not followed.
 */
module Security {
  import opened Common
  import opened Text

  /** `os.path.basename` on POSIX: the text after the last '/'. */
  function Basename(s: string): (r: string)
    ensures '/' !in r
    ensures |r| <= |s| && r == s[|s| - |r|..]
    ensures |r| < |s| ==> s[|s| - |r| - 1] == '/'
    decreases |s|
  {
    if s == [] then []
    else if s[|s| - 1] == '/' then []
    else
      var n := |s| - 1;
      var b := Basename(s[..n]);
      assert b == s[n - |b|..n];
      assert s[n - |b|..] == s[n - |b|..n] + [s[n]];
      assert |b| < n ==> s[n - |b| - 1] == s[..n][n - |b| - 1];
      b + [s[n]]
  }

  /** The characters trimmed from both ends of a name. */
  const TrimSet: set<char> := {'.', ' '}

  /** The name given to input that sanitises to nothing. */
  const Fallback: string := "unnamed_file"

  /**
   * The `dangerous_chars` loop: each pattern in turn is replaced by "_", which
   * leaves none of '/', '\\', ".." or NUL in the result.
   */
  function ReplaceDangerous(s: string): (r: string)
    ensures '/' !in r && '\\' !in r && '\0' !in r && !HasDotDot(r)
  {
    var s1 := Replace(s, "/", "_");
    ReplaceCharRemoves(s, '/', "_");
    var s2 := Replace(s1, "\\", "_");
    ReplaceCharRemoves(s1, '\\', "_");
    ReplaceKeepsAbsent(s1, "\\", "_", '/');
    var s3 := Replace(s2, "..", "_");
    ReplaceDotDotRemoves(s2);
    ReplaceKeepsAbsent(s2, "..", "_", '/');
    ReplaceKeepsAbsent(s2, "..", "_", '\\');
    var s4 := Replace(s3, "\0", "_");
    ReplaceCharRemoves(s3, '\0', "_");
    ReplaceKeepsAbsent(s3, "\0", "_", '/');
    ReplaceKeepsAbsent(s3, "\0", "_", '\\');
    ReplaceCharNoDotDot(s3, '\0');
    s4
  }

  /** `sanitize_filename`. */
  function SanitizeFilename(filename: string): (r: string)
    ensures |r| > 0
  {
    var base := Basename(filename);
    var noNul := Replace(base, "\0", "");
    var replaced := ReplaceDangerous(noNul);
    var trimmed := Strip(replaced, TrimSet);
    if trimmed == [] then Fallback else trimmed
  }

  /** Two dots in a row somewhere in `s`. */
  predicate HasDotDot(s: string)
  {
    exists i :: 0 <= i < |s| - 1 && s[i] == '.' && s[i + 1] == '.'
  }

  /** What a sanitised name promises: one harmless, non-empty path component. */
  predicate SafeName(r: string)
  {
    && |r| > 0
    && '/' !in r && '\\' !in r && '\0' !in r
    && !HasDotDot(r)
    && r[0] !in TrimSet && r[|r| - 1] !in TrimSet
  }

  /**
   * Leftmost replacement of ".." by "_" leaves no two dots in a row, and its
   * result starts with a dot only when the input starts with a lone dot.
   */
  lemma {:induction false} ReplaceDotDotRemoves(s: string)
    ensures var r := Replace(s, "..", "_");
      && !HasDotDot(r)
      && (|r| > 0 && r[0] == '.' ==> |s| > 0 && s[0] == '.' && (|s| == 1 || s[1] != '.'))
    decreases |s|
  {
    var r := Replace(s, "..", "_");
    if |s| < 2 {
      assert r == s;
    } else if s[..2] == ".." {
      var t := Replace(s[2..], "..", "_");
      ReplaceDotDotRemoves(s[2..]);
      assert r == "_" + t;
      assert forall i :: 0 < i < |r| - 1 ==> r[i] == t[i - 1] && r[i + 1] == t[i];
    } else {
      var t := Replace(s[1..], "..", "_");
      ReplaceDotDotRemoves(s[1..]);
      assert r == [s[0]] + t;
      assert forall i :: 0 < i < |r| - 1 ==> r[i] == t[i - 1] && r[i + 1] == t[i];
      if s[0] == '.' {
        assert s[1] != '.' by { assert s[..2] == [s[0], s[1]]; }
      }
    }
  }

  /** Without two dots in a row, replacing ".." changes nothing. */
  lemma {:induction false} ReplaceAbsentDotDot(s: string, rep: string)
    requires !HasDotDot(s)
    ensures Replace(s, "..", rep) == s
    decreases |s|
  {
    if |s| >= 2 {
      assert s[..2][0] == s[0] && s[..2][1] == s[1];
      SliceNoDotDot(s, 1, |s|);
      ReplaceAbsentDotDot(s[1..], rep);
      assert [s[0]] + s[1..] == s;
    }
  }

  /** A slice of a text without two dots in a row has none either. */
  lemma SliceNoDotDot(s: string, i: nat, j: nat)
    requires i <= j <= |s| && !HasDotDot(s)
    ensures !HasDotDot(s[i..j])
  {
    assert forall k :: 0 <= k < j - i ==> s[i..j][k] == s[i + k];
  }

  /**
   * Replacing a character other than '.' by "_" keeps the length, creates no
   * two dots in a row, and gives a leading dot only where there was one.
   */
  lemma {:induction false} ReplaceCharNoDotDot(s: string, c: char)
    requires c != '.' && !HasDotDot(s)
    ensures var r := Replace(s, [c], "_");
      |r| == |s| && !HasDotDot(r) && (|r| > 0 && r[0] == '.' ==> s[0] == '.')
    decreases |s|
  {
    if |s| >= 1 {
      var r := Replace(s, [c], "_");
      var t := Replace(s[1..], [c], "_");
      SliceNoDotDot(s, 1, |s|);
      ReplaceCharNoDotDot(s[1..], c);
      assert s[..1] == [s[0]];
      assert r == (if s[0] == c then "_" else [s[0]]) + t;
      assert forall i :: 0 < i < |r| - 1 ==> r[i] == t[i - 1] && r[i + 1] == t[i];
    }
  }

  /** Every name `sanitize_filename` returns is a safe component. */
  lemma SanitizeIsSafe(filename: string)
    ensures SafeName(SanitizeFilename(filename))
  {
    FallbackIsSafe();
    var base := Basename(filename);
    var noNul := Replace(base, "\0", "");
    ReplaceCharRemoves(base, '\0', "");
    ReplaceKeepsAbsent(base, "\0", "", '/');
    var s4 := ReplaceDangerous(noNul);
    StrippedIsSafe(s4);
  }

  /** Stripping dots and spaces from a text free of dangerous patterns leaves nothing or a safe name. */
  lemma StrippedIsSafe(s: string)
    requires '/' !in s && '\\' !in s && '\0' !in s && !HasDotDot(s)
    ensures var t := Strip(s, TrimSet); t == [] || SafeName(t)
  {
    var l := StripLeft(s, TrimSet);
    SafeSlice(s, l, StripRight(l, TrimSet));
  }

  /** A prefix of a suffix of a text free of dangerous patterns is free of them too. */
  lemma SafeSlice(s: string, l: string, t: string)
    requires '/' !in s && '\\' !in s && '\0' !in s && !HasDotDot(s)
    requires |l| <= |s| && l == s[|s| - |l|..] && |t| <= |l| && t == l[..|t|]
    ensures '/' !in t && '\\' !in t && '\0' !in t && !HasDotDot(t)
  {
    var i := |s| - |l|;
    assert t == s[i..i + |t|];
    SliceNoDotDot(s, i, i + |t|);
    assert forall c :: c in t ==> c in s;
  }

  /** The fallback name is itself safe. */
  lemma FallbackIsSafe()
    ensures SafeName(Fallback)
  {
    assert forall i :: 0 <= i < |Fallback| ==> Fallback[i] != '.';
  }

  /** A safe component is left exactly as it is by `sanitize_filename`. */
  lemma SanitizeKeepsSafe(name: string)
    requires SafeName(name)
    ensures SanitizeFilename(name) == name
  {
    assert Basename(name) == name by { BasenameWithoutSlash(name); }
    ReplaceAbsentChar(name, '\0', "");
    ReplaceAbsentChar(name, '/', "_");
    ReplaceAbsentChar(name, '\\', "_");
    ReplaceAbsentDotDot(name, "_");
    ReplaceAbsentChar(name, '\0', "_");
    assert ReplaceDangerous(name) == name;
    StripTrimmed(name, TrimSet);
  }

  lemma {:induction false} BasenameWithoutSlash(s: string)
    requires '/' !in s
    ensures Basename(s) == s
    decreases |s|
  {
    if s != [] {
      var n := |s| - 1;
      assert s[n] in s;
      assert s[n] != '/';
      assert '/' !in s[..n] by {
        assert forall k :: 0 <= k < n ==> s[..n][k] == s[k];
      }
      BasenameWithoutSlash(s[..n]);
      assert Basename(s) == Basename(s[..n]) + [s[n]];
      assert s[..n] + [s[n]] == s;
    }
  }

  /** Sanitising twice is the same as sanitising once. */
  lemma SanitizeIdempotent(filename: string)
    ensures SanitizeFilename(SanitizeFilename(filename)) == SanitizeFilename(filename)
  {
    SanitizeIsSafe(filename);
    SanitizeKeepsSafe(SanitizeFilename(filename));
  }

  // ---------------------------------------------------------------------------
  // paths

  /** Components of an absolute path, outermost first. */
  type Path = seq<string>

  /** pathlib's `base / name`: an absolute name replaces the base, otherwise its '/'-separated parts are appended. */
  function JoinPath(base: Path, name: string): Path
  {
    if |name| > 0 && name[0] == '/' then Split(name, '/') else base + Split(name, '/')
  }

  /** A component that names a child: not empty, not "." and not "..". */
  predicate IsChildName(c: string)
  {
    c != "" && c != "." && c != ".."
  }

  /** A path that resolution leaves alone. */
  predicate IsResolved(p: Path)
  {
    forall i :: 0 <= i < |p| ==> IsChildName(p[i])
  }

  /**
   * `Path.resolve()` without symbolic links: empty and "." components vanish and
   * ".." removes the component before it (the root has no parent).
   */
  function Resolve(p: Path): (r: Path)
    ensures IsResolved(r)
    ensures |r| <= |p|
    decreases |p|
  {
    if p == [] then []
    else
      var r := Resolve(p[..|p| - 1]);
      var c := p[|p| - 1];
      if c == "" || c == "." then r
      else if c == ".." then (if r == [] then [] else r[..|r| - 1])
      else r + [c]
  }

  /** `a` is `b` or one of its ancestors. */
  predicate IsPrefix(a: Path, b: Path)
  {
    |a| <= |b| && b[..|a|] == a
  }

  /** `is_safe_path`: whether `relative_to` succeeds on the two resolved paths. */
  function IsSafePath(base: Path, target: Path): (safe: bool)
    ensures safe <==> exists rest :: Resolve(target) == Resolve(base) + rest
  {
    var b, t := Resolve(base), Resolve(target);
    assert forall rest :: (b + rest)[..|b|] == b;
    if IsPrefix(b, t) then
      var rest := t[|b|..];
      assert Resolve(target) == Resolve(base) + rest;
      true
    else false
  }

  /** `secure_join`: the resolved join of the sanitised name, or None if it escaped the base. */
  function SecureJoin(base: Path, filename: string): (r: Option<Path>)
    ensures r.Some? ==> IsPrefix(Resolve(base), r.value) && IsResolved(r.value)
  {
    var safe := SanitizeFilename(filename);
    var candidate := Resolve(JoinPath(base, safe));
    var baseResolved := Resolve(base);
    if IsPrefix(baseResolved, candidate) then Some(candidate) else None
  }

  /** Resolving a path extended by a child name extends its resolution by that name. */
  lemma ResolveChild(base: Path, name: string)
    requires IsChildName(name)
    ensures Resolve(base + [name]) == Resolve(base) + [name]
  {
    assert (base + [name])[..|base|] == base;
  }

  /** Joining a child name without '/' adds exactly one component. */
  lemma JoinChild(base: Path, name: string)
    requires IsChildName(name) && '/' !in name
    ensures JoinPath(base, name) == base + [name]
    ensures Resolve(JoinPath(base, name)) == Resolve(base) + [name]
  {
    SplitFree(name, '/');
    ResolveChild(base, name);
  }

  /** A safe name is a child name without '/'. */
  lemma SafeNameIsChild(name: string)
    requires SafeName(name)
    ensures IsChildName(name) && '/' !in name
  {
    assert name != "." && name != ".." by { assert name[0] != '.'; }
  }

  /**
   * `secure_join` never rejects under lexical resolution: it always yields the
   * resolved base followed by exactly one component, the sanitised name.
   */
  lemma SecureJoinAccepts(base: Path, filename: string)
    ensures SecureJoin(base, filename) == Some(Resolve(base) + [SanitizeFilename(filename)])
  {
    var safe := SanitizeFilename(filename);
    SanitizeIsSafe(filename);
    SafeNameIsChild(safe);
    JoinChild(base, safe);
  }

  /** A child name without '/' joined to any base passes `is_safe_path`. */
  lemma ChildIsSafe(base: Path, name: string)
    requires IsChildName(name) && '/' !in name
    ensures IsSafePath(base, JoinPath(base, name))
  {
    JoinChild(base, name);
  }

  /** ".." joined to a base escapes it whenever the base is below the root. */
  lemma ParentIsNotSafe(base: Path)
    requires |Resolve(base)| > 0
    ensures !IsSafePath(base, JoinPath(base, ".."))
  {
    SplitFree("..", '/');
    var p := base + [".."];
    assert p[..|p| - 1] == base;
  }
}
