/**
 * The string primitives the handlers rely on, with Python's semantics:
 * `str.strip()`, `str.startswith`, `str.endswith`, `str.replace(pat, '')`
 * and `str.split(sep)`.
 */
module Text {

  /** Python's `str.isspace()` for one character: the ASCII controls TAB..CR,
      the file/group/record/unit separators, NEL, NBSP and the Unicode space
      separators. */
  predicate IsSpace(c: char) {
    || c == ' '
    || ('\t' <= c <= '\r')
    || ('\U{1C}' <= c <= '\U{1F}')
    || c == '\U{85}' || c == '\U{A0}' || c == '\U{1680}'
    || ('\U{2000}' <= c <= '\U{200A}')
    || c == '\U{2028}' || c == '\U{2029}' || c == '\U{202F}'
    || c == '\U{205F}' || c == '\U{3000}'
  }

  /** True when every character of `s` is whitespace (vacuously for ""). */
  predicate Blank(s: string) {
    forall i :: 0 <= i < |s| ==> IsSpace(s[i])
  }

  /** `s` with its leading characters in `space` removed. */
  function TrimStart(s: string, space: char -> bool): (r: string)
    ensures |r| <= |s| && r == s[|s| - |r|..]
    ensures |r| > 0 ==> !space(r[0])
  {
    if |s| > 0 && space(s[0]) then TrimStart(s[1..], space) else s
  }

  /** Only characters in `space` are removed from the front. */
  lemma {:induction false} TrimStartDropsSpace(s: string, space: char -> bool)
    ensures forall i :: 0 <= i < |s| - |TrimStart(s, space)| ==> space(s[i])
    decreases |s|
  {
    if |s| > 0 && space(s[0]) {
      TrimStartDropsSpace(s[1..], space);
      forall i | 0 < i < |s| - |TrimStart(s, space)| ensures space(s[i]) {
        assert s[i] == s[1..][i - 1];
      }
    }
  }

  /** `s` with its trailing characters in `space` removed. */
  function TrimEnd(s: string, space: char -> bool): (r: string)
    ensures |r| <= |s| && r == s[..|r|]
    ensures |r| > 0 ==> !space(r[|r| - 1])
  {
    if |s| > 0 && space(s[|s| - 1]) then TrimEnd(s[..|s| - 1], space) else s
  }

  /** Only characters in `space` are removed from the back. */
  lemma {:induction false} TrimEndDropsSpace(s: string, space: char -> bool)
    ensures forall i :: |TrimEnd(s, space)| <= i < |s| ==> space(s[i])
    decreases |s|
  {
    if |s| > 0 && space(s[|s| - 1]) {
      TrimEndDropsSpace(s[..|s| - 1], space);
      forall i | |TrimEnd(s, space)| <= i < |s| - 1 ensures space(s[i]) {
        assert s[i] == s[..|s| - 1][i];
      }
    }
  }

  /** `s` with the characters in `space` dropped from both ends. */
  function StripBy(s: string, space: char -> bool): (r: string)
    ensures |r| > 0 ==> !space(r[0]) && !space(r[|r| - 1])
    ensures |r| <= |s|
  {
    TrimEnd(TrimStart(s, space), space)
  }

  /** Stripping a string none of whose ends is in `space` changes nothing. */
  lemma StripByUnchanged(s: string, space: char -> bool)
    requires |s| > 0 ==> !space(s[0]) && !space(s[|s| - 1])
    ensures StripBy(s, space) == s
  {
  }

  /** What is stripped is a slice of the original with only characters of
      `space` before and after it. */
  lemma StripBySlice(s: string, space: char -> bool)
    ensures var a := |s| - |TrimStart(s, space)|;
      && a + |StripBy(s, space)| <= |s|
      && StripBy(s, space) == s[a..a + |StripBy(s, space)|]
      && (forall i :: 0 <= i < a ==> space(s[i]))
      && (forall i :: a + |StripBy(s, space)| <= i < |s| ==> space(s[i]))
  {
    var t := TrimStart(s, space);
    var r := TrimEnd(t, space);
    TrimStartDropsSpace(s, space);
    TrimEndDropsSpace(t, space);
    PrefixOfSuffix(s, t, r, space);
  }

  /** A prefix `r` of a suffix `t` of `s` is a middle slice of `s`, and what
      follows `r` in `t` is what follows it in `s`. */
  lemma PrefixOfSuffix(s: string, t: string, r: string, space: char -> bool)
    requires |t| <= |s| && t == s[|s| - |t|..]
    requires |r| <= |t| && r == t[..|r|]
    requires forall i :: |r| <= i < |t| ==> space(t[i])
    ensures r == s[|s| - |t|..|s| - |t| + |r|]
    ensures forall i :: |s| - |t| + |r| <= i < |s| ==> space(s[i])
  {
    var a := |s| - |t|;
    SliceOfSuffix(s, a, |r|);
    forall i | a + |r| <= i < |s| ensures space(s[i]) {
      assert s[i] == t[i - a];
    }
  }

  /** A prefix of a suffix is a middle slice. */
  lemma SliceOfSuffix(s: string, a: int, n: int)
    requires 0 <= a && 0 <= n && a + n <= |s|
    ensures s[a..][..n] == s[a..a + n]
  {
  }

  /** Python's `s.strip()`: the longest slice of `s` that neither starts nor
      ends with whitespace, obtained by dropping whitespace at both ends. */
  function Strip(s: string): (r: string)
    ensures |r| > 0 ==> !IsSpace(r[0]) && !IsSpace(r[|r| - 1])
    ensures |r| <= |s|
  {
    StripBy(s, IsSpace)
  }

  /** `s.strip()` removes only outer whitespace: the result is a slice of `s`
      with nothing but whitespace before and after it. */
  lemma StripTrims(s: string)
    ensures exists a, b :: 0 <= a <= b <= |s| && Strip(s) == s[a..b] && Blank(s[..a]) && Blank(s[b..])
  {
    StripBySlice(s, IsSpace);
    var a := |s| - |TrimStart(s, IsSpace)|;
    var b := a + |Strip(s)|;
    assert Blank(s[..a]) by {
      forall i | 0 <= i < a ensures IsSpace(s[..a][i]) {
        assert s[..a][i] == s[i];
      }
    }
    assert Blank(s[b..]) by {
      forall i | 0 <= i < |s| - b ensures IsSpace(s[b..][i]) {
        assert s[b..][i] == s[b + i];
      }
    }
    assert 0 <= a <= b <= |s| && Strip(s) == s[a..b];
  }

  /** Stripping leaves nothing exactly when the string is all whitespace. */
  lemma StripBlank(s: string)
    ensures Strip(s) == "" <==> Blank(s)
  {
    var t := TrimStart(s, IsSpace);
    TrimStartDropsSpace(s, IsSpace);
    TrimEndDropsSpace(t, IsSpace);
  }

  /** Stripping a string that already has no whitespace at either end changes nothing. */
  lemma StripUnchanged(s: string)
    requires |s| > 0 ==> !IsSpace(s[0]) && !IsSpace(s[|s| - 1])
    ensures Strip(s) == s
  {
    StripByUnchanged(s, IsSpace);
  }

  /** Stripping is idempotent. */
  lemma StripIdempotent(s: string)
    ensures Strip(Strip(s)) == Strip(s)
  {
    StripUnchanged(Strip(s));
  }

  /** Python's `s.startswith(p)`. */
  predicate StartsWith(s: string, p: string) {
    |p| <= |s| && s[..|p|] == p
  }

  /** Python's `s.endswith(p)`. */
  predicate EndsWith(s: string, p: string) {
    |p| <= |s| && s[|s| - |p|..] == p
  }

  /** True when `pat` occurs in `s` starting at index `i`. */
  predicate OccursAt(s: string, pat: string, i: int) {
    0 <= i && i + |pat| <= |s| && s[i..i + |pat|] == pat
  }

  /** Python's `s.replace(pat, '')`: one left-to-right scan that removes every
      non-overlapping occurrence of `pat`. Occurrences that only come into
      being once their neighbours are removed are not removed again. */
  function RemoveAll(s: string, pat: string): (r: string)
    requires |pat| > 0
    ensures |r| <= |s|
    ensures (forall i :: !OccursAt(s, pat, i)) ==> r == s
    decreases |s|
  {
    if |s| < |pat| then s
    else if s[..|pat|] == pat then
      assert OccursAt(s, pat, 0);
      RemoveAll(s[|pat|..], pat)
    else
      assert forall i :: OccursAt(s[1..], pat, i) ==> OccursAt(s, pat, i + 1) by {
        forall i | OccursAt(s[1..], pat, i) ensures OccursAt(s, pat, i + 1) {
          assert s[i + 1..i + 1 + |pat|] == s[1..][i..i + |pat|];
        }
      }
      [s[0]] + RemoveAll(s[1..], pat)
  }

  /** Whenever `pat` occurs, the scan removes at least one occurrence. */
  lemma {:induction false} RemoveAllShrinks(s: string, pat: string, i: int)
    requires |pat| > 0 && OccursAt(s, pat, i)
    ensures |RemoveAll(s, pat)| < |s|
    decreases |s|
  {
    if s[..|pat|] != pat {
      assert i != 0;
      assert s[1..][i - 1..i - 1 + |pat|] == s[i..i + |pat|];
      RemoveAllShrinks(s[1..], pat, i - 1);
    }
  }

  /** A prefix in which the first character of `pat` never appears passes
      through the scan untouched. */
  lemma {:induction false} RemoveAllSkips(a: string, b: string, pat: string)
    requires |pat| > 0
    requires forall i :: 0 <= i < |a| ==> a[i] != pat[0]
    ensures RemoveAll(a + b, pat) == a + RemoveAll(b, pat)
    decreases |a|
  {
    if |a| > 0 {
      var s := a + b;
      if |s| < |pat| {
        assert RemoveAll(b, pat) == b;
      } else {
        assert s[0] == a[0] != pat[0];
        assert s[..|pat|] != pat by {
          assert s[..|pat|][0] == s[0];
        }
        assert s[1..] == a[1..] + b;
        RemoveAllSkips(a[1..], b, pat);
        assert a == [a[0]] + a[1..];
      }
    } else {
      assert a + b == b;
    }
  }

  /** Python's `s.split(sep)` with a one-character separator: the pieces of
      `s` between separators, always at least one. */
  function Split(s: string, sep: char): (r: seq<string>)
    ensures |r| >= 1
    ensures forall k :: 0 <= k < |r| ==> sep !in r[k]
  {
    if |s| == 0 then [""]
    else if s[0] == sep then [""] + Split(s[1..], sep)
    else
      var t := Split(s[1..], sep);
      [[s[0]] + t[0]] + t[1..]
  }

  /** Python's `sep.join(parts)`. */
  function Join(parts: seq<string>, sep: char): string
    requires |parts| >= 1
  {
    if |parts| == 1 then parts[0] else parts[0] + [sep] + Join(parts[1..], sep)
  }

  /** Joining the pieces of a split restores the original string. */
  lemma {:induction false} JoinSplit(s: string, sep: char)
    ensures Join(Split(s, sep), sep) == s
  {
    if |s| > 0 {
      JoinSplit(s[1..], sep);
      var t := Split(s[1..], sep);
      if s[0] != sep {
        var r := Split(s, sep);
        assert r[1..] == t[1..];
        if |t| > 1 {
          assert Join(r, sep) == [s[0]] + t[0] + [sep] + Join(t[1..], sep);
        }
      }
    }
  }

  /** Splitting a join of separator-free pieces gives the pieces back. */
  lemma {:induction false} SplitJoin(parts: seq<string>, sep: char)
    requires |parts| >= 1
    requires forall k :: 0 <= k < |parts| ==> sep !in parts[k]
    ensures Split(Join(parts, sep), sep) == parts
  {
    if |parts| == 1 {
      SplitPiece(parts[0], [], sep);
    } else {
      SplitJoin(parts[1..], sep);
      SplitPiece(parts[0], Join(parts[1..], sep), sep);
      assert Join(parts, sep) == parts[0] + ([sep] + Join(parts[1..], sep));
      assert parts == [parts[0]] + parts[1..];
    }
  }

  /** A separator-free head `a` is the first piece of `a` followed by a
      separator and `b`, and the whole of `a` when nothing follows. */
  lemma {:induction false} SplitPiece(a: string, b: string, sep: char)
    requires sep !in a
    ensures b == [] ==> Split(a, sep) == [a]
    ensures Split(a + [sep] + b, sep) == [a] + Split(b, sep)
    decreases |a|
  {
    if |a| > 0 {
      SplitPiece(a[1..], b, sep);
      assert (a + [sep] + b)[1..] == a[1..] + [sep] + b;
      assert a == [a[0]] + a[1..];
    } else {
      assert a + [sep] + b == [sep] + b;
    }
  }
}
