/** The two sequence operations the table transformations are built from:
    an order-preserving filter (boolean row selection) and the distinct
    values of a column in order of first appearance (`Series.unique()`). */
module Sequences {

  /** The elements of `s` that `keep` accepts, in their original order. */
  function Filter<T>(s: seq<T>, keep: T -> bool): (r: seq<T>)
    decreases |s|
    ensures |r| <= |s|
    ensures forall k :: 0 <= k < |r| ==> r[k] in s && keep(r[k])
    ensures forall k :: 0 <= k < |s| && keep(s[k]) ==> s[k] in r
  {
    if s == [] then []
    else if keep(s[0]) then [s[0]] + Filter(s[1..], keep)
    else Filter(s[1..], keep)
  }

  /** Filtering a concatenation filters each part: the survivors keep
      their relative order. */
  lemma {:induction false} FilterAppend<T>(a: seq<T>, b: seq<T>, keep: T -> bool)
    decreases |a|
    ensures Filter(a + b, keep) == Filter(a, keep) + Filter(b, keep)
  {
    if a == [] {
      assert a + b == b;
    } else {
      assert (a + b)[0] == a[0];
      assert (a + b)[1..] == a[1..] + b;
      FilterAppend(a[1..], b, keep);
    }
  }

  /** Every element is kept as many times as it occurs, or not at all. */
  lemma {:induction false} FilterCount<T>(s: seq<T>, keep: T -> bool, x: T)
    decreases |s|
    ensures multiset(Filter(s, keep))[x] == if keep(x) then multiset(s)[x] else 0
  {
    if s != [] {
      assert s == [s[0]] + s[1..];
      FilterCount(s[1..], keep, x);
    }
  }

  /** A filter that accepts every element returns its input. */
  lemma {:induction false} FilterKeepsAll<T>(s: seq<T>, keep: T -> bool)
    requires forall x :: x in s ==> keep(x)
    decreases |s|
    ensures Filter(s, keep) == s
  {
    if s != [] {
      assert s == [s[0]] + s[1..];
      FilterKeepsAll(s[1..], keep);
    }
  }

  /** Two filters in a row are one filter by the conjunction. */
  lemma {:induction false} FilterFilter<T>(s: seq<T>, p: T -> bool, q: T -> bool, both: T -> bool)
    requires forall x :: both(x) == (p(x) && q(x))
    decreases |s|
    ensures Filter(Filter(s, p), q) == Filter(s, both)
  {
    if s != [] {
      FilterFilter(s[1..], p, q, both);
      if p(s[0]) {
        var f := Filter(s, p);
        assert f == [s[0]] + Filter(s[1..], p);
        assert f[0] == s[0] && f[1..] == Filter(s[1..], p);
      }
    }
  }

  predicate NoDuplicates<T(==)>(s: seq<T>)
  {
    forall i, j :: 0 <= i < j < |s| ==> s[i] != s[j]
  }

  /** The position of the first occurrence of `x` in `s`. */
  function FirstIndex<T(==)>(s: seq<T>, x: T): (i: nat)
    requires x in s
    decreases |s|
    ensures i < |s| && s[i] == x && x !in s[..i]
  {
    var init := s[..|s| - 1];
    if x in init then
      var i := FirstIndex(init, x);
      assert s[..i] == init[..i];
      i
    else
      |s| - 1
  }

  /** `r` lists the distinct elements of `s`, each once, in the order in
      which each first occurs in `s`. */
  predicate UniqueValues<T(==)>(s: seq<T>, r: seq<T>)
  {
    && NoDuplicates(r)
    && (forall k :: 0 <= k < |r| ==> r[k] in s)
    && (forall k :: 0 <= k < |s| ==> s[k] in r)
    && (forall i, j :: 0 <= i < j < |r| ==> FirstIndex(s, r[i]) < FirstIndex(s, r[j]))
  }

  /** The distinct elements of `s`, in the order in which each first occurs. */
  function Distinct<T(==)>(s: seq<T>): (r: seq<T>)
    decreases |s|
    ensures UniqueValues(s, r)
  {
    if s == [] then []
    else
      var d := Distinct(s[..|s| - 1]);
      DistinctExtend(s, d);
      if s[|s| - 1] in d then d else d + [s[|s| - 1]]
  }

  /** One step of `Distinct`: from the distinct elements of `s` minus its
      last element to those of `s`. */
  lemma DistinctExtend<T>(s: seq<T>, d: seq<T>)
    requires |s| > 0 && UniqueValues(s[..|s| - 1], d)
    ensures UniqueValues(s, if s[|s| - 1] in d then d else d + [s[|s| - 1]])
  {
    var init, last := s[..|s| - 1], s[|s| - 1];
    var r := if last in d then d else d + [last];
    assert s == init + [last];
    forall k | 0 <= k < |d|
      ensures d[k] in init && FirstIndex(s, d[k]) == FirstIndex(init, d[k]) < |s| - 1
    {
      FirstIndexInit(s, d[k]);
    }
    forall k | 0 <= k < |r|
      ensures r[k] in s
    {
      if k < |d| { assert r[k] == d[k]; }
    }
    forall k | 0 <= k < |s|
      ensures s[k] in r
    {
      if k < |s| - 1 { assert s[k] == init[k]; }
    }
    if last !in d {
      assert FirstIndex(s, last) == |s| - 1;
      forall i, j | 0 <= i < j < |r|
        ensures FirstIndex(s, r[i]) < FirstIndex(s, r[j])
      {
        assert r[i] == d[i];
        if j < |d| { assert r[j] == d[j]; } else { assert r[j] == last; }
      }
    }
  }

  /** Dropping the last element of `s` keeps the first occurrence of any
      element that occurs before it. */
  lemma FirstIndexInit<T>(s: seq<T>, x: T)
    requires |s| > 0 && x in s[..|s| - 1]
    ensures FirstIndex(s, x) == FirstIndex(s[..|s| - 1], x)
  {
  }

  /** A sequence of elements of `s` minus its last element that is ordered by
      first occurrence in `s` is so ordered in `s` minus its last element. */
  lemma OrderedOnInit<T>(s: seq<T>, t: seq<T>)
    requires |s| > 0
    requires forall k :: 0 <= k < |t| ==> t[k] in s[..|s| - 1]
    requires forall i, j :: 0 <= i < j < |t| ==> t[i] in s && t[j] in s && FirstIndex(s, t[i]) < FirstIndex(s, t[j])
    ensures forall i, j :: 0 <= i < j < |t| ==> FirstIndex(s[..|s| - 1], t[i]) < FirstIndex(s[..|s| - 1], t[j])
  {
    forall i, j | 0 <= i < j < |t|
      ensures FirstIndex(s[..|s| - 1], t[i]) < FirstIndex(s[..|s| - 1], t[j])
    {
      FirstIndexInit(s, t[i]);
      FirstIndexInit(s, t[j]);
    }
  }

  /** A non-empty sequence whose elements all occur in `s` needs a
      non-empty `s`. */
  lemma ContainedInNonEmpty<T>(t: seq<T>, s: seq<T>)
    requires forall k :: 0 <= k < |t| ==> t[k] in s
    ensures |t| > 0 ==> |s| > 0
  {
    if |t| > 0 {
      assert t[0] in s;
    }
  }

  /** When the last element of `s` occurs nowhere before it, a sequence
      ordered by first occurrence in `s` ends with it, and what precedes it
      is so ordered in `s` minus its last element. */
  lemma DropNewLast<T>(s: seq<T>, t: seq<T>) returns (u: seq<T>)
    requires |s| > 0 && s[|s| - 1] !in s[..|s| - 1]
    requires UniqueValues(s, t)
    ensures t == u + [s[|s| - 1]]
    ensures UniqueValues(s[..|s| - 1], u)
  {
    NewLastIsLast(s, t);
    u := t[..|t| - 1];
    assert t == u + [s[|s| - 1]];
    MembersOfInit(s, t, u);
    forall i, j | 0 <= i < j < |u|
      ensures u[i] in s && u[j] in s && FirstIndex(s, u[i]) < FirstIndex(s, u[j])
    {
      assert u[i] == t[i] && u[j] == t[j];
    }
    OrderedOnInit(s, u);
  }

  /** Removing the new last element `s[|s| - 1]` from the end of `t`, a
      duplicate-free list of exactly the elements of `s`, leaves a
      duplicate-free list of exactly the elements of `s` minus its last. */
  lemma MembersOfInit<T>(s: seq<T>, t: seq<T>, u: seq<T>)
    requires |s| > 0 && s[|s| - 1] !in s[..|s| - 1]
    requires NoDuplicates(t) && t == u + [s[|s| - 1]]
    requires forall k :: 0 <= k < |t| ==> t[k] in s
    requires forall k :: 0 <= k < |s| ==> s[k] in t
    ensures NoDuplicates(u)
    ensures forall k :: 0 <= k < |u| ==> u[k] in s[..|s| - 1]
    ensures forall k :: 0 <= k < |s| - 1 ==> s[k] in u
  {
    var init, last := s[..|s| - 1], s[|s| - 1];
    assert s == init + [last];
    forall i, j | 0 <= i < j < |u|
      ensures u[i] != u[j]
    {
      assert u[i] == t[i] && u[j] == t[j];
    }
    forall k | 0 <= k < |u|
      ensures u[k] in init
    {
      assert u[k] == t[k] && t[k] != t[|t| - 1] && t[k] in s;
    }
    forall k | 0 <= k < |init|
      ensures s[k] in u
    {
      assert init[k] == s[k] && s[k] in t && s[k] != last;
    }
  }

  /** When the last element of `s` occurs nowhere before it, it has the
      largest first occurrence, so a sequence ordered by first occurrence
      ends with it. */
  lemma NewLastIsLast<T>(s: seq<T>, t: seq<T>)
    requires |s| > 0 && s[|s| - 1] !in s[..|s| - 1]
    requires UniqueValues(s, t)
    ensures |t| > 0 && t[|t| - 1] == s[|s| - 1]
  {
    var last := s[|s| - 1];
    assert last in t;
    var p :| 0 <= p < |t| && t[p] == last;
    assert FirstIndex(s, last) == |s| - 1;
    assert FirstIndex(s, t[p]) <= FirstIndex(s, t[|t| - 1]);
  }

  /** `Distinct(s)` is the only duplicate-free sequence of the elements of
      `s` that lists them in order of first occurrence. */
  lemma {:induction false} DistinctUnique<T>(s: seq<T>, t: seq<T>)
    requires UniqueValues(s, t)
    decreases |s|
    ensures t == Distinct(s)
  {
    if s == [] {
      ContainedInNonEmpty(t, s);
    } else {
      var init, last := s[..|s| - 1], s[|s| - 1];
      assert s == init + [last];
      if last in init {
        assert forall k :: 0 <= k < |t| ==> t[k] in init;
        OrderedOnInit(s, t);
        DistinctUnique(init, t);
      } else {
        var u := DropNewLast(s, t);
        DistinctUnique(init, u);
        assert t == u + [last];
      }
    }
  }
}
