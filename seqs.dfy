/** List comprehensions with a condition, `[x for x in s if p(x)]`, and the
    order-preserving subsequence relation they produce. */
module Seqs {
  import opened Wrappers

  /** `[x for x in s if p(x)]`. */
  function Filter<T>(p: T -> bool, s: seq<T>): (r: seq<T>)
    ensures |r| <= |s|
    ensures forall x :: x in r ==> x in s && p(x)
    ensures forall i :: 0 <= i < |s| && p(s[i]) ==> s[i] in r
  {
    if s == [] then []
    else (if p(s[0]) then [s[0]] else []) + Filter(p, s[1..])
  }

  /** The filter keeps every occurrence of each element that passes and none
      of those that fail: its multiset is that of `s` restricted to `p`. */
  lemma {:induction false} FilterMultiset<T>(p: T -> bool, s: seq<T>)
    ensures forall x :: multiset(Filter(p, s))[x] == if p(x) then multiset(s)[x] else 0
  {
    if s != [] {
      FilterMultiset(p, s[1..]);
      assert s == [s[0]] + s[1..];
      assert multiset(s) == multiset{s[0]} + multiset(s[1..]);
      assert multiset(Filter(p, s))
        == (if p(s[0]) then multiset{s[0]} else multiset{}) + multiset(Filter(p, s[1..]));
    }
  }

  /** `a` is what remains of `b` after deleting some of its elements. */
  ghost predicate IsSubsequence<T>(a: seq<T>, b: seq<T>)
    decreases |b|
  {
    if a == [] then true
    else if b == [] then false
    else (a[0] == b[0] && IsSubsequence(a[1..], b[1..])) || IsSubsequence(a, b[1..])
  }

  /** Appending to `b` keeps `a` a subsequence, with or without the new
      element appended to `a` too. */
  lemma {:induction false} SubsequenceExtend<T>(a: seq<T>, b: seq<T>, x: T, take: bool)
    requires IsSubsequence(a, b)
    ensures IsSubsequence(a + (if take then [x] else []), b + [x])
    decreases |b|
  {
    var a' := a + (if take then [x] else []);
    if b == [] {
      assert a == [];
      if take { assert a' == [x]; assert (b + [x])[1..] == []; }
    } else if a == [] {
      if take {
        var empty: seq<T> := [];
        assert IsSubsequence(empty, b[1..]);
        SubsequenceExtend(empty, b[1..], x, true);
        assert empty + [x] == [x] && a' == [x];
        assert (b + [x])[1..] == b[1..] + [x];
        assert IsSubsequence([x], (b + [x])[1..]);
      }
    } else {
      assert (b + [x])[0] == b[0] && (b + [x])[1..] == b[1..] + [x];
      assert a'[0] == a[0] && a'[1..] == a[1..] + (if take then [x] else []);
      if a[0] == b[0] && IsSubsequence(a[1..], b[1..]) {
        SubsequenceExtend(a[1..], b[1..], x, take);
      } else {
        SubsequenceExtend(a, b[1..], x, take);
      }
    }
  }

  lemma {:induction false} FilterIsSubsequence<T>(p: T -> bool, s: seq<T>)
    ensures IsSubsequence(Filter(p, s), s)
  {
    if s != [] {
      FilterIsSubsequence(p, s[1..]);
      var r := Filter(p, s);
      if p(s[0]) {
        assert r[0] == s[0] && r[1..] == Filter(p, s[1..]);
      } else {
        assert r == Filter(p, s[1..]);
        if r != [] {
          assert IsSubsequence(r, s[1..]);
        }
      }
    }
  }

  /** Filtering keeps a sequence whole exactly when every element passes. */
  lemma {:induction false} FilterAllPass<T>(p: T -> bool, s: seq<T>)
    ensures Filter(p, s) == s <==> forall x :: x in s ==> p(x)
  {
    if s != [] {
      FilterAllPass(p, s[1..]);
      var r := Filter(p, s[1..]);
      if !p(s[0]) {
        assert |Filter(p, s)| < |s|;
      } else {
        assert Filter(p, s) == [s[0]] + r;
        assert s == [s[0]] + s[1..];
        assert [s[0]] + r == [s[0]] + s[1..] <==> r == s[1..] by {
          if [s[0]] + r == [s[0]] + s[1..] {
            assert r == ([s[0]] + r)[1..];
          }
        }
        assert (forall x :: x in s ==> p(x)) <==> (forall x :: x in s[1..] ==> p(x));
      }
    }
  }

  lemma FilterIdempotent<T>(p: T -> bool, s: seq<T>)
    ensures Filter(p, Filter(p, s)) == Filter(p, s)
  {
    FilterAllPass(p, Filter(p, s));
  }

  lemma {:induction false} FilterAppend<T>(p: T -> bool, a: seq<T>, b: seq<T>)
    ensures Filter(p, a + b) == Filter(p, a) + Filter(p, b)
  {
    if a == [] {
      assert a + b == b;
    } else {
      assert (a + b)[0] == a[0] && (a + b)[1..] == a[1..] + b;
      FilterAppend(p, a[1..], b);
    }
  }

  /** Moving the head of the rest of `s` onto `a`. */
  lemma ConsumeHead<T>(a: seq<T>, s: seq<T>, i: nat)
    requires i < |s|
    ensures a + s[i..] == (a + [s[i]]) + s[i + 1..]
  {
    assert s[i..] == [s[i]] + s[i + 1..];
  }

  /** Leading elements that fail `p` contribute nothing to the filter. */
  lemma {:induction false} FilterSkip<T>(p: T -> bool, s: seq<T>, k: nat)
    requires k <= |s|
    requires forall j :: 0 <= j < k ==> !p(s[j])
    ensures Filter(p, s) == Filter(p, s[k..])
  {
    if k > 0 {
      assert s[1..][k - 1..] == s[k..];
      FilterSkip(p, s[1..], k - 1);
    }
  }

  /** The index of the first element of `s` that satisfies `p`. */
  function FirstIndex<T>(p: T -> bool, s: seq<T>): (r: Option<nat>)
    ensures r.Some? ==> r.value < |s| && p(s[r.value])
    ensures r.Some? ==> forall j :: 0 <= j < r.value ==> !p(s[j])
    ensures r.None? <==> forall j :: 0 <= j < |s| ==> !p(s[j])
  {
    if s == [] then None
    else if p(s[0]) then Some(0)
    else match FirstIndex(p, s[1..])
      case None => None
      case Some(i) => Some(i + 1)
  }

  /** An element that satisfies `p` after only elements that do not is the
      first one. */
  lemma {:induction false} FirstIndexAt<T>(p: T -> bool, s: seq<T>, j: nat)
    requires j < |s| && p(s[j])
    requires forall k :: 0 <= k < j ==> !p(s[k])
    ensures FirstIndex(p, s) == Some(j)
  {
    if j > 0 {
      assert !p(s[0]);
      assert forall k :: 0 <= k < j - 1 ==> s[1..][k] == s[k + 1];
      FirstIndexAt(p, s[1..], j - 1);
    }
  }
}
