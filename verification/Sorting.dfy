/** The contract of Go's library sort: some sorted permutation, with ties in any order. */
module Sorting {

  predicate SortedBy<T>(s: seq<T>, leq: (T, T) -> bool) {
    forall i, j :: 0 <= i < j < |s| ==> leq(s[i], s[j])
  }

  predicate IsSortOf<T(==)>(sorted: seq<T>, s: seq<T>, leq: (T, T) -> bool) {
    multiset(sorted) == multiset(s) && SortedBy(sorted, leq)
  }

  ghost predicate TotalPreorder<T(!new)>(leq: (T, T) -> bool) {
    && (forall x, y :: leq(x, y) || leq(y, x))
    && (forall x, y, z :: leq(x, y) && leq(y, z) ==> leq(x, z))
  }

  lemma InsertMultiset<T>(s: seq<T>, k: nat, e: T)
    requires k <= |s|
    ensures multiset(s[..k] + [e] + s[k..]) == multiset(s) + multiset{e}
  {
    assert s == s[..k] + s[k..];
  }

  lemma InsertSorted<T>(s: seq<T>, k: nat, e: T, leq: (T, T) -> bool)
    requires SortedBy(s, leq) && k <= |s|
    requires forall i :: 0 <= i < k ==> leq(s[i], e)
    requires forall i :: k <= i < |s| ==> leq(e, s[i])
    ensures SortedBy(s[..k] + [e] + s[k..], leq)
  {
    var t := s[..k] + [e] + s[k..];
    assert forall i :: 0 <= i < |t| ==> t[i] == if i < k then s[i] else if i == k then e else s[i - 1];
  }

  lemma InsertionPoint<T(!new)>(s: seq<T>, e: T, leq: (T, T) -> bool) returns (k: nat)
    requires SortedBy(s, leq) && TotalPreorder(leq)
    ensures k <= |s|
    ensures forall i :: 0 <= i < k ==> leq(s[i], e)
    ensures forall i :: k <= i < |s| ==> leq(e, s[i])
  {
    k := 0;
    while k < |s| && leq(s[k], e)
      invariant k <= |s|
      invariant forall i :: 0 <= i < k ==> leq(s[i], e)
    {
      k := k + 1;
    }
    if k < |s| {
      assert leq(e, s[k]);
    }
  }

  lemma {:induction false} SortExists<T(!new)>(s: seq<T>, leq: (T, T) -> bool)
    requires TotalPreorder(leq)
    ensures exists sorted :: IsSortOf(sorted, s, leq)
    decreases |s|
  {
    if s == [] {
      assert IsSortOf([], s, leq);
    } else {
      var init, e := s[..|s| - 1], s[|s| - 1];
      SortExists(init, leq);
      var r :| IsSortOf(r, init, leq);
      var k := InsertionPoint(r, e, leq);
      InsertMultiset(r, k, e);
      InsertSorted(r, k, e, leq);
      InsertMultiset(init, |init|, e);
      assert s == init[..|init|] + [e] + init[|init|..];
      assert IsSortOf(r[..k] + [e] + r[k..], s, leq);
    }
  }

  method Sort<T(==, !new)>(s: seq<T>, leq: (T, T) -> bool) returns (sorted: seq<T>)
    requires TotalPreorder(leq)
    ensures IsSortOf(sorted, s, leq)
  {
    SortExists(s, leq);
    sorted :| IsSortOf(sorted, s, leq);
  }

  predicate IsPermutation<T(==)>(t: seq<T>, s: seq<T>) {
    multiset(t) == multiset(s)
  }

  method Shuffle<T(==)>(s: seq<T>) returns (t: seq<T>)
    ensures IsPermutation(t, s)
  {
    assert IsPermutation(s, s);
    t :| IsPermutation(t, s);
  }

  lemma SameMembers<T>(t: seq<T>, s: seq<T>)
    requires multiset(t) == multiset(s)
    ensures |t| == |s|
    ensures forall x :: x in t <==> x in s
  {
    assert |multiset(t)| == |t| && |multiset(s)| == |s|;
    forall x ensures x in t <==> x in s {
      assert x in multiset(t) <==> x in multiset(s);
    }
  }

  lemma {:induction false} AtMostOnce<T(!new)>(s: seq<T>, x: T)
    requires forall i, j :: 0 <= i < j < |s| ==> s[i] != s[j]
    ensures multiset(s)[x] <= 1
    decreases |s|
  {
    if s != [] {
      var init, last := s[..|s| - 1], s[|s| - 1];
      assert s == init + [last];
      AtMostOnce(init, x);
      if x == last {
        assert x !in init;
        assert x !in multiset(init);
      }
    }
  }

  /** A permutation of a list without repetitions has none either. */
  lemma PermutedDistinct<T(!new)>(t: seq<T>, s: seq<T>)
    requires multiset(t) == multiset(s)
    requires forall i, j :: 0 <= i < j < |s| ==> s[i] != s[j]
    ensures forall i, j :: 0 <= i < j < |t| ==> t[i] != t[j]
  {
    forall i, j | 0 <= i < j < |t| ensures t[i] != t[j] {
      AtMostOnce(s, t[i]);
      var left, right := t[..j], t[j..];
      assert t == left + right;
      assert left[i] in multiset(left) && right[0] in multiset(right);
    }
  }
}
