/**
 * The Python string built-ins the bot relies on, written out: str.split with a
 * one-character separator, str.join, str.replace (leftmost, non-overlapping),
 * str.strip with a character set, str(int) and int(str) on decimal text.
 */
module Text {
  import opened Common

  // ---------------------------------------------------------------------------
  // split / join

  /** `s.split(c)`: the pieces between occurrences of `c`; never an empty list. */
  function Split(s: string, c: char): (r: seq<string>)
    ensures |r| >= 1
    ensures forall i :: 0 <= i < |r| ==> c !in r[i]
    decreases |s|
  {
    if s == [] then [[]]
    else if s[0] == c then [[]] + Split(s[1..], c)
    else
      var t := Split(s[1..], c);
      [[s[0]] + t[0]] + t[1..]
  }

  /** `sep.join(parts)`. */
  function Join(parts: seq<string>, sep: string): string
    decreases |parts|
  {
    if |parts| == 0 then []
    else if |parts| == 1 then parts[0]
    else parts[0] + sep + Join(parts[1..], sep)
  }

  /** Joining the pieces of a split with the separator gives back the original text. */
  lemma {:induction false} JoinSplit(s: string, c: char)
    ensures Join(Split(s, c), [c]) == s
    decreases |s|
  {
    if s == [] {
    } else if s[0] == c {
      JoinSplit(s[1..], c);
      var t := Split(s[1..], c);
      assert Split(s, c) == [[]] + t;
      assert ([[]] + t)[1..] == t;
    } else {
      JoinSplit(s[1..], c);
      var t := Split(s[1..], c);
      var r := [[s[0]] + t[0]] + t[1..];
      assert Split(s, c) == r;
      if |t| == 1 {
        assert Join(r, [c]) == [s[0]] + t[0];
      } else {
        assert r[1..] == t[1..];
        assert Join(t, [c]) == t[0] + [c] + Join(t[1..], [c]);
        assert Join(r, [c]) == [s[0]] + t[0] + [c] + Join(t[1..], [c]);
      }
      assert [s[0]] + s[1..] == s;
    }
  }

  /** Splitting a join of separator-free pieces gives back the pieces. */
  lemma {:induction false} SplitJoin(parts: seq<string>, c: char)
    requires |parts| >= 1
    requires forall i :: 0 <= i < |parts| ==> c !in parts[i]
    ensures Split(Join(parts, [c]), c) == parts
    decreases |parts|, |parts[0]|
  {
    var p := parts[0];
    if |parts| == 1 {
      SplitFree(p, c);
    } else if p == [] {
      var rest := Join(parts[1..], [c]);
      assert Join(parts, [c]) == [c] + rest;
      assert ([c] + rest)[1..] == rest;
      SplitJoin(parts[1..], c);
      assert [p] + parts[1..] == parts;
    } else {
      var shorter := [p[1..]] + parts[1..];
      assert shorter[1..] == parts[1..];
      assert Join(parts, [c]) == [p[0]] + Join(shorter, [c]) by {
        if |parts| > 1 {
          assert Join(shorter, [c]) == p[1..] + [c] + Join(parts[1..], [c]);
          assert p == [p[0]] + p[1..];
        }
      }
      assert c !in shorter[0];
      SplitJoin(shorter, c);
      var j := Join(shorter, [c]);
      assert ([p[0]] + j)[1..] == j;
      assert p == [p[0]] + p[1..];
      assert [p] + parts[1..] == parts;
    }
  }

  /** A text without the separator splits into itself alone. */
  lemma {:induction false} SplitFree(s: string, c: char)
    requires c !in s
    ensures Split(s, c) == [s]
    decreases |s|
  {
    if s != [] {
      SplitFree(s[1..], c);
      assert [s[0]] + s[1..] == s;
    }
  }

  /** A split has a second piece exactly when the separator occurs. */
  lemma {:induction false} SplitSeveral(s: string, c: char)
    ensures |Split(s, c)| >= 2 <==> c in s
    decreases |s|
  {
    if c !in s {
      SplitFree(s, c);
    } else if s[0] != c {
      SplitSeveral(s[1..], c);
    }
  }

  /**
   * The first two pieces of a split are the text before the first separator
   * and the text from there to the next separator or the end.
   */
  lemma {:induction false} SplitFirstTwo(s: string, c: char)
    requires |Split(s, c)| >= 2
    ensures |Split(s, c)[0]| < |s| && s[..|Split(s, c)[0]|] == Split(s, c)[0] && s[|Split(s, c)[0]|] == c
    ensures |Split(s, c)[0]| + 1 + |Split(s, c)[1]| <= |s|
    ensures s[|Split(s, c)[0]| + 1..|Split(s, c)[0]| + 1 + |Split(s, c)[1]|] == Split(s, c)[1]
    ensures |Split(s, c)[0]| + 1 + |Split(s, c)[1]| < |s| ==> s[|Split(s, c)[0]| + 1 + |Split(s, c)[1]|] == c
  {
    var p := Split(s, c);
    JoinSplit(s, c);
    var rest := Join(p[1..], [c]);
    assert s == p[0] + [c] + rest;
    if |p| == 2 {
      assert rest == p[1];
    } else {
      assert p[1..][1..] == p[2..];
      assert rest == p[1] + [c] + Join(p[2..], [c]);
    }
  }

  // ---------------------------------------------------------------------------
  // replace

  /** `s.replace(pat, rep)`: every leftmost, non-overlapping occurrence of `pat` is replaced. */
  function Replace(s: string, pat: string, rep: string): string
    requires |pat| > 0
    decreases |s|
  {
    if |s| < |pat| then s
    else if s[..|pat|] == pat then rep + Replace(s[|pat|..], pat, rep)
    else [s[0]] + Replace(s[1..], pat, rep)
  }

  /** Every character of a replacement's result comes from the text or from `rep`. */
  lemma {:induction false} ReplaceChars(s: string, pat: string, rep: string, ch: char)
    requires |pat| > 0
    requires ch in Replace(s, pat, rep)
    ensures ch in s || ch in rep
    decreases |s|
  {
    if |s| < |pat| {
    } else if s[..|pat|] == pat {
      if ch !in rep {
        ReplaceChars(s[|pat|..], pat, rep, ch);
      }
    } else if ch != s[0] {
      ReplaceChars(s[1..], pat, rep, ch);
    }
  }

  /** A character absent from both the text and `rep` is absent from the result. */
  lemma ReplaceKeepsAbsent(s: string, pat: string, rep: string, ch: char)
    requires |pat| > 0 && ch !in s && ch !in rep
    ensures ch !in Replace(s, pat, rep)
  {
    if ch in Replace(s, pat, rep) {
      ReplaceChars(s, pat, rep, ch);
    }
  }

  /** Replacing a single character by a text without it leaves no occurrence of that character. */
  lemma {:induction false} ReplaceCharRemoves(s: string, c: char, rep: string)
    requires c !in rep
    ensures c !in Replace(s, [c], rep)
    decreases |s|
  {
    if |s| >= 1 {
      ReplaceCharRemoves(s[1..], c, rep);
    }
  }

  /** Replacing a character that does not occur changes nothing. */
  lemma {:induction false} ReplaceAbsentChar(s: string, c: char, rep: string)
    requires c !in s
    ensures Replace(s, [c], rep) == s
    decreases |s|
  {
    if |s| >= 1 {
      assert s[..1] == [s[0]];
      ReplaceAbsentChar(s[1..], c, rep);
      assert [s[0]] + s[1..] == s;
    }
  }

  // ---------------------------------------------------------------------------
  // strip

  /** `s.lstrip(chars)`: drops leading characters that are in `cs`; what is left is a suffix. */
  function StripLeft(s: string, cs: set<char>): (r: string)
    ensures |r| <= |s| && r == s[|s| - |r|..]
    ensures r == [] || r[0] !in cs
    decreases |s|
  {
    if |s| > 0 && s[0] in cs then StripLeft(s[1..], cs) else s
  }

  /** What `lstrip` drops consists only of characters in `cs`. */
  lemma {:induction false} StripLeftDrops(s: string, cs: set<char>)
    ensures forall k :: 0 <= k < |s| - |StripLeft(s, cs)| ==> s[k] in cs
    decreases |s|
  {
    if |s| > 0 && s[0] in cs {
      StripLeftDrops(s[1..], cs);
      assert forall k :: 1 <= k < |s| ==> s[k] == s[1..][k - 1];
    }
  }

  /** `s.rstrip(chars)`: drops trailing characters that are in `cs`; what is left is a prefix. */
  function StripRight(s: string, cs: set<char>): (r: string)
    ensures |r| <= |s| && r == s[..|r|]
    ensures r == [] || r[|r| - 1] !in cs
    decreases |s|
  {
    if |s| > 0 && s[|s| - 1] in cs then StripRight(s[..|s| - 1], cs) else s
  }

  /** What `rstrip` drops consists only of characters in `cs`. */
  lemma {:induction false} StripRightDrops(s: string, cs: set<char>)
    ensures forall k :: |StripRight(s, cs)| <= k < |s| ==> s[k] in cs
    decreases |s|
  {
    if |s| > 0 && s[|s| - 1] in cs {
      StripRightDrops(s[..|s| - 1], cs);
      assert forall k :: 0 <= k < |s| - 1 ==> s[k] == s[..|s| - 1][k];
    }
  }

  /** `s.strip(chars)`. */
  function Strip(s: string, cs: set<char>): string
  {
    StripRight(StripLeft(s, cs), cs)
  }

  /**
   * The stripped text is the slice of the input left after dropping a prefix
   * and a suffix made only of characters in `cs`; its two ends lie outside `cs`.
   */
  lemma StripIsTrimmedSlice(s: string, cs: set<char>)
    ensures var r := Strip(s, cs);
      && (r == [] || (r[0] !in cs && r[|r| - 1] !in cs))
      && exists i, j :: 0 <= i <= j <= |s| && r == s[i..j]
           && (forall k :: 0 <= k < i ==> s[k] in cs)
           && (forall k :: j <= k < |s| ==> s[k] in cs)
  {
    var l := StripLeft(s, cs);
    StripLeftDrops(s, cs);
    StripRightDrops(l, cs);
    TrimmedSlice(s, l, StripRight(l, cs), cs);
  }

  /** A prefix of a suffix, both cut off through characters of `cs`, is a slice trimmed on both sides. */
  lemma TrimmedSlice(s: string, l: string, r: string, cs: set<char>)
    requires |l| <= |s| && l == s[|s| - |l|..] && |r| <= |l| && r == l[..|r|]
    requires forall k :: 0 <= k < |s| - |l| ==> s[k] in cs
    requires forall k :: |r| <= k < |l| ==> l[k] in cs
    ensures exists i, j :: 0 <= i <= j <= |s| && r == s[i..j]
                           && (forall k :: 0 <= k < i ==> s[k] in cs)
                           && (forall k :: j <= k < |s| ==> s[k] in cs)
  {
    var i := |s| - |l|;
    var j := i + |r|;
    assert r == s[i..j];
    forall k | j <= k < |s|
      ensures s[k] in cs
    {
      assert s[k] == l[k - i];
    }
  }

  /** A text whose ends lie outside `cs` is left as it is by stripping. */
  lemma StripTrimmed(s: string, cs: set<char>)
    requires s == [] || (s[0] !in cs && s[|s| - 1] !in cs)
    ensures Strip(s, cs) == s
  {
  }

  /** What `str.strip()` without arguments removes (ASCII whitespace). */
  const Whitespace: set<char> := {' ', '\t', '\n', '\r', '\U{B}', '\U{C}'}

  // ---------------------------------------------------------------------------
  // decimal numerals: str(int) and int(str)

  predicate IsDigit(c: char)
  {
    '0' <= c <= '9'
  }

  predicate AllDigits(s: string)
  {
    forall i :: 0 <= i < |s| ==> IsDigit(s[i])
  }

  function DigitChar(d: nat): (c: char)
    requires d < 10
    ensures IsDigit(c)
  {
    (d + '0' as int) as char
  }

  /** `str(n)` for a natural number: its decimal digits, most significant first. */
  function NatToString(n: nat): (r: string)
    ensures |r| >= 1 && AllDigits(r)
    decreases n
  {
    if n < 10 then [DigitChar(n)]
    else NatToString(n / 10) + [DigitChar(n % 10)]
  }

  /** `str(i)` for any integer: a '-' before the digits of a negative number. */
  function IntToString(i: int): (r: string)
    ensures |r| >= 1
  {
    if i < 0 then "-" + NatToString(-i) else NatToString(i)
  }

  /** The value of a run of decimal digits. */
  function DigitsValue(s: string): nat
    requires AllDigits(s)
    decreases |s|
  {
    if s == [] then 0
    else DigitsValue(s[..|s| - 1]) * 10 + (s[|s| - 1] as int - '0' as int)
  }

  /**
   * `int(s)` on text that is an optional sign followed by one or more decimal
   * digits; anything else is the ValueError case, `None`.
   */
  function ParseInt(s: string): Option<int>
  {
    if |s| > 0 && (s[0] == '-' || s[0] == '+') then
      var digits := s[1..];
      if |digits| > 0 && AllDigits(digits) then
        var v: int := DigitsValue(digits);
        Some(if s[0] == '-' then -v else v)
      else None
    else if |s| > 0 && AllDigits(s) then Some(DigitsValue(s))
    else None
  }

  lemma {:induction false} DigitsOfNat(n: nat)
    ensures DigitsValue(NatToString(n)) == n
    decreases n
  {
    var r := NatToString(n);
    if n >= 10 {
      DigitsOfNat(n / 10);
      assert r[..|r| - 1] == NatToString(n / 10);
    }
  }

  /** int(str(i)) == i: the decimal rendering of an integer parses back to it. */
  lemma ParseIntToString(i: int)
    ensures ParseInt(IntToString(i)) == Some(i)
  {
    var r := IntToString(i);
    if i < 0 {
      DigitsOfNat(-i);
      assert r[1..] == NatToString(-i);
    } else {
      DigitsOfNat(i);
    }
  }

  /** Distinct integers have distinct decimal renderings. */
  lemma IntToStringInjective(i: int, j: int)
    requires i != j
    ensures IntToString(i) != IntToString(j)
  {
    ParseIntToString(i);
    ParseIntToString(j);
  }

  /** Distinct natural numbers have distinct digit strings. */
  lemma NatToStringInjective(i: nat, j: nat)
    requires i != j
    ensures NatToString(i) != NatToString(j)
  {
    DigitsOfNat(i);
    DigitsOfNat(j);
  }
}
