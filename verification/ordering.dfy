/**
 * Python's ordering of `str` values (code point by code point, a proper
 * prefix first) and `sorted(names, reverse=True)` over a directory listing.
 */
module Ordering {
  import opened Numerals

  /** Python's `a < b` on strings. */
  predicate Below(a: string, b: string)
    decreases |a|
  {
    |b| > 0 && (|a| == 0 || a[0] < b[0] || (a[0] == b[0] && Below(a[1..], b[1..])))
  }

  lemma {:induction false} BelowIrreflexive(a: string)
    ensures !Below(a, a)
    decreases |a|
  {
    if |a| > 0 {
      BelowIrreflexive(a[1..]);
    }
  }

  lemma {:induction false} BelowTransitive(a: string, b: string, c: string)
    requires Below(a, b) && Below(b, c)
    ensures Below(a, c)
    decreases |a|
  {
    if |a| > 0 && a[0] == b[0] == c[0] {
      BelowTransitive(a[1..], b[1..], c[1..]);
    }
  }

  /** Any two distinct strings are ordered one way or the other, and never both. */
  lemma {:induction false} BelowTotal(a: string, b: string)
    ensures a != b <==> Below(a, b) || Below(b, a)
    ensures !(Below(a, b) && Below(b, a))
    decreases |a|
  {
    if |a| > 0 && |b| > 0 && a[0] == b[0] {
      BelowTotal(a[1..], b[1..]);
      assert a == [a[0]] + a[1..] && b == [b[0]] + b[1..];
    } else if a == b {
      BelowIrreflexive(a);
    }
  }

  /** A common prefix does not decide the order. */
  lemma {:induction false} BelowCommonPrefix(p: string, a: string, b: string)
    ensures Below(p + a, p + b) <==> Below(a, b)
    decreases |p|
  {
    if |p| > 0 {
      assert (p + a)[1..] == p[1..] + a && (p + b)[1..] == p[1..] + b;
      BelowCommonPrefix(p[1..], a, b);
    } else {
      assert p + a == a && p + b == b;
    }
  }

  /** Between two different heads of equal length, the heads decide the order. */
  lemma {:induction false} BelowDifferentHeads(a: string, b: string, x: string, y: string)
    requires |a| == |b| && a != b
    ensures Below(a + x, b + y) <==> Below(a, b)
    decreases |a|
  {
    assert (a + x)[0] == a[0] && (b + y)[0] == b[0];
    if a[0] == b[0] {
      assert (a + x)[1..] == a[1..] + x && (b + y)[1..] == b[1..] + y;
      assert a[1..] != b[1..] by {
        assert a == [a[0]] + a[1..] && b == [b[0]] + b[1..];
      }
      BelowDifferentHeads(a[1..], b[1..], x, y);
    }
  }

  /** Numerals of equal width compare as the numbers they denote. */
  lemma {:induction false} BelowDigits(n: nat, m: nat)
    requires |Digits(n)| == |Digits(m)|
    ensures Below(Digits(n), Digits(m)) <==> n < m
    decreases n
  {
    if n < 10 {
      assert m < 10;
    } else {
      assert m >= 10;
      var a, b := Digits(n / 10), Digits(m / 10);
      var x, y := [DigitChar(n % 10)], [DigitChar(m % 10)];
      assert Digits(n) == a + x && Digits(m) == b + y;
      if n / 10 == m / 10 {
        BelowCommonPrefix(a, x, y);
      } else {
        assert a != b by {
          if a == b {
            DigitsInjective(n / 10, m / 10);
          }
        }
        BelowDifferentHeads(a, b, x, y);
        BelowDigits(n / 10, m / 10);
      }
    }
  }

  /** No element is below a later one: the order of `sorted(..., reverse=True)`. */
  ghost predicate Descending(s: seq<string>) {
    forall i, j :: 0 <= i < j < |s| ==> !Below(s[i], s[j])
  }

  /** Every element of a descending sequence below its head's bound is below it too. */
  lemma HeadBoundsAll(x: string, s: seq<string>)
    requires Descending(s) && |s| > 0 && !Below(x, s[0])
    ensures forall j :: 0 <= j < |s| ==> !Below(x, s[j])
  {
    forall j | 0 < j < |s| ensures !Below(x, s[j]) {
      if Below(x, s[j]) {
        BelowTotal(s[0], s[j]);
        BelowTotal(x, s[0]);
        if s[0] != x {
          BelowTransitive(s[0], x, s[j]);
        }
      }
    }
  }

  /** An element below no element of `u`, nor `x`, is below no element of
      any rearrangement of `u` with `x`. */
  lemma NotBelowAny(y: string, t: seq<string>, u: seq<string>, x: string)
    requires multiset(t) == multiset(u) + multiset{x}
    requires forall j :: 0 <= j < |u| ==> !Below(y, u[j])
    requires !Below(y, x)
    ensures forall j :: 0 <= j < |t| ==> !Below(y, t[j])
  {
    forall j | 0 <= j < |t| ensures !Below(y, t[j]) {
      assert t[j] in multiset(t);
      if t[j] != x {
        assert t[j] in multiset(u);
        var i :| 0 <= i < |u| && u[i] == t[j];
      }
    }
  }

  /** An element below no element of a descending sequence can go in front of it. */
  lemma ConsDescending(y: string, t: seq<string>)
    requires Descending(t)
    requires forall j :: 0 <= j < |t| ==> !Below(y, t[j])
    ensures Descending([y] + t)
  {
    var r := [y] + t;
    forall i, j | 0 <= i < j < |r| ensures !Below(r[i], r[j]) {
      assert r[j] == t[j - 1];
      if i > 0 {
        assert r[i] == t[i - 1];
      }
    }
  }

  /** The tail of a descending sequence is descending and bounded by its head. */
  lemma DescendingTail(s: seq<string>)
    requires Descending(s) && |s| > 0
    ensures Descending(s[1..])
    ensures forall j :: 0 <= j < |s[1..]| ==> !Below(s[0], s[1..][j])
  {
    forall i, j | 0 <= i < j < |s[1..]| ensures !Below(s[1..][i], s[1..][j]) {
      assert s[1..][i] == s[i + 1] && s[1..][j] == s[j + 1];
    }
    forall j | 0 <= j < |s[1..]| ensures !Below(s[0], s[1..][j]) {
      assert s[1..][j] == s[j + 1];
    }
  }

  /** The step of `Insert` that keeps the head in front. */
  lemma InsertBehindHead(x: string, s: seq<string>, t: seq<string>)
    requires Descending(s) && |s| > 0 && Below(x, s[0])
    requires Descending(t) && multiset(t) == multiset(s[1..]) + multiset{x}
    ensures Descending([s[0]] + t)
    ensures multiset([s[0]] + t) == multiset(s) + multiset{x}
  {
    DescendingTail(s);
    BelowTotal(x, s[0]);
    NotBelowAny(s[0], t, s[1..], x);
    ConsDescending(s[0], t);
    assert s == [s[0]] + s[1..];
  }

  /** `x` placed into a descending sequence after every element above it. */
  function Insert(x: string, s: seq<string>): (r: seq<string>)
    requires Descending(s)
    ensures Descending(r)
    ensures multiset(r) == multiset(s) + multiset{x}
  {
    if |s| == 0 then [x]
    else if Below(x, s[0]) then
      DescendingTail(s);
      var t := Insert(x, s[1..]);
      InsertBehindHead(x, s, t);
      [s[0]] + t
    else
      HeadBoundsAll(x, s);
      ConsDescending(x, s);
      [x] + s
  }

  /** Python's `sorted(s, reverse=True)`: a descending permutation of `s`. */
  function SortDescending(s: seq<string>): (r: seq<string>)
    ensures Descending(r)
    ensures multiset(r) == multiset(s)
  {
    if |s| == 0 then []
    else
      assert s == [s[0]] + s[1..];
      Insert(s[0], SortDescending(s[1..]))
  }
}
