/**
 * The two list idioms the handlers are built from: a comprehension that
 * keeps the elements satisfying a condition, and a `for ... break` loop that
 * changes the first element satisfying a condition.
 */
module Selection {

  /** Python's `[x for x in p if keep(x)]`. */
  function Keep<T>(p: seq<T>, keep: T -> bool): (r: seq<T>)
    ensures |r| <= |p|
    ensures (forall i :: 0 <= i < |p| ==> keep(p[i])) ==> r == p
  {
    if |p| == 0 then []
    else (if keep(p[0]) then [p[0]] else []) + Keep(p[1..], keep)
  }

  /** The kept elements are exactly those of `p` satisfying `keep`, each as
      often as it occurs in `p`. */
  lemma {:induction false} KeepContents<T(!new)>(p: seq<T>, keep: T -> bool)
    ensures forall x :: x in Keep(p, keep) <==> x in p && keep(x)
    ensures forall x :: multiset(Keep(p, keep))[x] == if keep(x) then multiset(p)[x] else 0
  {
    if |p| > 0 {
      KeepContents(p[1..], keep);
      assert p == [p[0]] + p[1..];
    }
  }

  /** Keeping distributes over concatenation: the kept elements stay in
      their original order. */
  lemma {:induction false} KeepAppend<T(!new)>(a: seq<T>, b: seq<T>, keep: T -> bool)
    ensures Keep(a + b, keep) == Keep(a, keep) + Keep(b, keep)
  {
    if |a| == 0 {
      assert a + b == b;
    } else {
      var h := if keep(a[0]) then [a[0]] else [];
      assert (a + b)[0] == a[0] && (a + b)[1..] == a[1..] + b;
      assert Keep(a + b, keep) == h + Keep(a[1..] + b, keep);
      KeepAppend(a[1..], b, keep);
      assert Keep(a, keep) == h + Keep(a[1..], keep);
      assert h + (Keep(a[1..], keep) + Keep(b, keep)) == (h + Keep(a[1..], keep)) + Keep(b, keep);
    }
  }

  /** Two adjacent elements that are not both kept can trade places. */
  lemma KeepSwap<T(!new)>(x: T, y: T, rest: seq<T>, keep: T -> bool)
    requires !(keep(x) && keep(y))
    ensures Keep([y] + ([x] + rest), keep) == Keep([x] + ([y] + rest), keep)
  {
    assert ([y] + ([x] + rest))[1..] == [x] + rest && ([x] + ([y] + rest))[1..] == [y] + rest;
    assert ([x] + rest)[1..] == rest && ([y] + rest)[1..] == rest;
  }

  /** Every kept element satisfies the condition. */
  lemma {:induction false} KeepSatisfies<T>(p: seq<T>, keep: T -> bool)
    ensures forall i :: 0 <= i < |Keep(p, keep)| ==> keep(Keep(p, keep)[i])
  {
    if |p| > 0 {
      KeepSatisfies(p[1..], keep);
    }
  }

  /** An element of a non-empty sequence is its head or an element of its tail. */
  lemma InHeadOrTail<T>(s: seq<T>, x: T)
    requires |s| > 0
    ensures x in s <==> x == s[0] || x in s[1..]
  {
    assert s == [s[0]] + s[1..];
  }

  /** When nothing is kept the result is empty. */
  lemma KeepNone<T(!new)>(p: seq<T>, keep: T -> bool)
    requires forall i :: 0 <= i < |p| ==> !keep(p[i])
    ensures Keep(p, keep) == []
  {
    KeepContents(p, keep);
  }

  /** An element that is not kept makes the result strictly shorter. */
  lemma KeepDropsSomething<T(!new)>(p: seq<T>, keep: T -> bool, i: int)
    requires 0 <= i < |p| && !keep(p[i])
    ensures |Keep(p, keep)| < |p|
  {
    KeepContents(p, keep);
    var r := Keep(p, keep);
    var x := p[i];
    assert multiset(r) <= multiset(p);
    assert multiset(r)[x] == 0 < multiset(p)[x];
    assert multiset(r) != multiset(p);
    assert |multiset(r)| < |multiset(p)| by {
      var d := multiset(p) - multiset(r);
      assert x in d;
      assert multiset(p) == multiset(r) + d;
    }
  }

  /** `i` is the position of the first element satisfying `pred`. */
  ghost predicate IsFirst<T>(p: seq<T>, pred: T -> bool, i: int) {
    0 <= i < |p| && pred(p[i]) && forall j :: 0 <= j < i ==> !pred(p[j])
  }

  /** Python's `for x in p: if pred(x): <change x>; break`, with the change
      given as `f`. */
  function UpdateFirst<T>(p: seq<T>, pred: T -> bool, f: T -> T): (r: seq<T>)
    ensures |r| == |p|
    ensures (forall i :: 0 <= i < |p| ==> !pred(p[i])) ==> r == p
  {
    if |p| == 0 then []
    else if pred(p[0]) then [f(p[0])] + p[1..]
    else [p[0]] + UpdateFirst(p[1..], pred, f)
  }

  /** Only the first element satisfying `pred` changes, and it becomes `f` of itself. */
  lemma {:induction false} UpdateFirstChanges<T>(p: seq<T>, pred: T -> bool, f: T -> T)
    ensures forall i :: IsFirst(p, pred, i) ==>
      var r := UpdateFirst(p, pred, f);
      r[i] == f(p[i]) && forall j :: 0 <= j < |p| && j != i ==> r[j] == p[j]
  {
    if |p| > 0 && !pred(p[0]) {
      UpdateFirstChanges(p[1..], pred, f);
      assert forall i :: IsFirst(p, pred, i) ==> IsFirst(p[1..], pred, i - 1);
    }
  }

  /** No element occurs twice. */
  ghost predicate NoRepeats<T>(s: seq<T>) {
    forall i, j :: 0 <= i < j < |s| ==> s[i] != s[j]
  }

  /** Dropping the first element keeps a sequence repeat-free, and that
      element does not occur again. */
  lemma NoRepeatsTail<T>(s: seq<T>)
    requires |s| > 0 && NoRepeats(s)
    ensures NoRepeats(s[1..]) && s[0] !in s[1..]
  {
    forall i, j | 0 <= i < j < |s[1..]| ensures s[1..][i] != s[1..][j] {
      assert s[1..][i] == s[i + 1] && s[1..][j] == s[j + 1];
    }
    forall k | 0 <= k < |s[1..]| ensures s[1..][k] != s[0] {
      assert s[1..][k] == s[k + 1];
    }
  }

  /** An element not in a repeat-free sequence can go in front of it. */
  lemma ConsNoRepeats<T>(x: T, s: seq<T>)
    requires NoRepeats(s) && x !in s
    ensures NoRepeats([x] + s)
  {
    var r := [x] + s;
    forall i, j | 0 <= i < j < |r| ensures r[i] != r[j] {
      assert r[j] == s[j - 1];
      if i > 0 {
        assert r[i] == s[i - 1];
      }
    }
  }

  /** In a repeat-free sequence every element occurs at most once. */
  lemma {:induction false} NoRepeatsCount<T>(s: seq<T>, x: T)
    requires NoRepeats(s)
    ensures multiset(s)[x] <= 1
  {
    if |s| > 0 {
      assert s == [s[0]] + s[1..];
      NoRepeatsTail(s);
      NoRepeatsCount(s[1..], x);
    }
  }

  /** A permutation of a repeat-free sequence is repeat-free. */
  lemma NoRepeatsPermutation<T>(s: seq<T>, t: seq<T>)
    requires NoRepeats(s) && multiset(s) == multiset(t)
    ensures NoRepeats(t)
  {
    forall i, j | 0 <= i < j < |t| ensures t[i] != t[j] {
      if t[i] == t[j] {
        var x := t[i];
        assert t == t[..j] + t[j..];
        assert x in t[..j];
        assert x in t[j..];
        assert multiset(t)[x] == multiset(t[..j])[x] + multiset(t[j..])[x];
        NoRepeatsCount(s, x);
        assert false;
      }
    }
  }
}
