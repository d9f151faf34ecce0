/**
 Sorted vectors and the iteration order of ordered maps.

 `Enumerate` is the order in which a `BTreeMap` or `BTreeSet` yields its keys; `Sort` and `Dedup`
 are `Vec::sort_unstable` and `Vec::dedup`.
 */
module Ordering {
  ghost predicate TotalOrder<T(!new)>(le: (T, T) -> bool) {
    && (forall x :: le(x, x))
    && (forall x, y :: le(x, y) && le(y, x) ==> x == y)
    && (forall x, y, z :: le(x, y) && le(y, z) ==> le(x, z))
    && (forall x, y :: le(x, y) || le(y, x))
  }

  function Elements<T>(s: seq<T>): set<T> {
    set x | x in s
  }

  lemma NoElements<T>(s: seq<T>)
    ensures Elements(s) == {} <==> s == []
  {
    if s != [] {
      assert s[0] in Elements(s);
    }
  }

  /** One more element of a prefix. */
  lemma PrefixStep<T>(s: seq<T>, i: nat)
    requires i < |s|
    ensures s[..i + 1] == s[..i] + [s[i]]
    ensures s[..i + 1][..i] == s[..i]
    ensures forall x :: x in s[..i] ==> x in s
  {
  }

  lemma WholePrefix<T>(s: seq<T>)
    ensures s[..|s|] == s
  {
  }

  lemma ElementsStep<T>(s: seq<T>, i: nat)
    requires i < |s|
    ensures Elements(s[..i + 1]) == Elements(s[..i]) + {s[i]}
  {
    assert s[..i + 1] == s[..i] + [s[i]];
  }

  lemma SubsetSize<T>(a: set<T>, b: set<T>)
    requires a <= b
    ensures |a| <= |b|
    ensures |a| == |b| <==> a == b
  {
    assert b == a + (b - a);
  }

  lemma {:induction false} DistinctSize<T>(s: seq<T>)
    requires forall i, j :: 0 <= i < j < |s| ==> s[i] != s[j]
    ensures |Elements(s)| == |s|
  {
    if s != [] {
      var n := |s| - 1;
      DistinctSize(s[..n]);
      ElementsStep(s, n);
      WholePrefix(s);
    }
  }

  ghost predicate Sorted<T>(s: seq<T>, le: (T, T) -> bool) {
    forall i, j :: 0 <= i < j < |s| ==> le(s[i], s[j])
  }

  ghost predicate StrictlySorted<T>(s: seq<T>, le: (T, T) -> bool) {
    forall i, j :: 0 <= i < j < |s| ==> le(s[i], s[j]) && s[i] != s[j]
  }

  predicate IsLeast<T(==)>(x: T, s: set<T>, le: (T, T) -> bool) {
    x in s && forall y :: y in s ==> le(x, y)
  }

  lemma LeastExists<T(!new)>(s: set<T>, le: (T, T) -> bool)
    requires TotalOrder(le) && s != {}
    ensures exists x :: IsLeast(x, s, le)
  {
    var y :| y in s;
    if s == {y} {
      assert IsLeast(y, s, le);
    } else {
      LeastExists(s - {y}, le);
      var x :| IsLeast(x, s - {y}, le);
      assert IsLeast(if le(x, y) then x else y, s, le);
    }
  }

  /** The members of `s` in increasing order. */
  function Enumerate<T(==, !new)>(s: set<T>, le: (T, T) -> bool): (r: seq<T>)
    requires TotalOrder(le)
    ensures StrictlySorted(r, le)
    ensures Elements(r) == s
  {
    if s == {} then []
    else
      LeastExists(s, le);
      var x :| IsLeast(x, s, le);
      var rest := Enumerate(s - {x}, le);
      assert forall y :: y in rest ==> y in Elements(rest);
      assert Elements([x] + rest) == {x} + Elements(rest);
      [x] + rest
  }

  /** A strictly sorted vector is determined by the set of its elements. */
  lemma {:induction false} SortedUnique<T(!new)>(a: seq<T>, b: seq<T>, le: (T, T) -> bool)
    requires TotalOrder(le)
    requires StrictlySorted(a, le) && StrictlySorted(b, le)
    requires Elements(a) == Elements(b)
    ensures a == b
  {
    if a == [] {
      NoElements(b);
    } else {
      assert a[0] in Elements(b);
      assert b[0] in Elements(a);
      assert a[0] == b[0];
      forall x ensures x in Elements(a[1..]) <==> x in Elements(b[1..]) {
        assert a == [a[0]] + a[1..] && b == [b[0]] + b[1..];
        assert x in a[1..] ==> x in Elements(a) && x != a[0];
        assert x in b[1..] ==> x in Elements(b) && x != b[0];
      }
      SortedUnique(a[1..], b[1..], le);
    }
  }

  function InsertSorted<T>(x: T, s: seq<T>, le: (T, T) -> bool): (r: seq<T>)
    ensures multiset(r) == multiset(s) + multiset{x}
  {
    if s == [] then [x]
    else if le(x, s[0]) then [x] + s
    else
      assert s == [s[0]] + s[1..];
      [s[0]] + InsertSorted(x, s[1..], le)
  }

  lemma {:induction false} InsertSortedKeepsOrder<T(!new)>(x: T, s: seq<T>, le: (T, T) -> bool)
    requires TotalOrder(le) && Sorted(s, le)
    ensures Sorted(InsertSorted(x, s, le), le)
  {
    if s != [] && !le(x, s[0]) {
      InsertSortedKeepsOrder(x, s[1..], le);
      var rest := InsertSorted(x, s[1..], le);
      forall y | y in rest ensures le(s[0], y) {
        assert y in multiset(rest);
      }
    }
  }

  function Sort<T(!new)>(s: seq<T>, le: (T, T) -> bool): (r: seq<T>)
    requires TotalOrder(le)
    ensures Sorted(r, le)
    ensures multiset(r) == multiset(s)
  {
    if s == [] then []
    else
      assert s == [s[0]] + s[1..];
      InsertSortedKeepsOrder(s[0], Sort(s[1..], le), le);
      InsertSorted(s[0], Sort(s[1..], le), le)
  }

  /** Drops every element that equals its predecessor. */
  function Dedup<T(==)>(s: seq<T>): (r: seq<T>)
    ensures Elements(r) == Elements(s)
    ensures s != [] ==> r != [] && r[0] == s[0]
  {
    if |s| <= 1 then s
    else
      assert s == [s[0]] + s[1..];
      var rest := Dedup(s[1..]);
      assert Elements(s) == {s[0]} + Elements(s[1..]);
      if s[0] == s[1] then rest
      else
        assert Elements([s[0]] + rest) == {s[0]} + Elements(rest);
        [s[0]] + rest
  }

  lemma {:induction false} DedupOfSorted<T(!new)>(s: seq<T>, le: (T, T) -> bool)
    requires TotalOrder(le) && Sorted(s, le)
    ensures StrictlySorted(Dedup(s), le)
  {
    if |s| > 1 {
      DedupOfSorted(s[1..], le);
      var rest := Dedup(s[1..]);
      forall y | y in rest ensures le(s[1], y) {
        assert y in Elements(rest);
      }
    }
  }

  /** Sorting and then removing adjacent duplicates yields the increasing enumeration of the elements. */
  lemma SortDedup<T(!new)>(s: seq<T>, le: (T, T) -> bool)
    requires TotalOrder(le)
    ensures Dedup(Sort(s, le)) == Enumerate(Elements(s), le)
  {
    var t := Sort(s, le);
    forall x ensures x in Elements(t) <==> x in Elements(s) {
      assert x in multiset(t) <==> x in multiset(s);
    }
    DedupOfSorted(t, le);
    SortedUnique(Dedup(t), Enumerate(Elements(s), le), le);
  }
}
