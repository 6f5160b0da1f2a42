/** Sorting a slice by a comparison, as a library does it: no order is promised among equals. */
module Sorting {
  import opened Base

  /** less is a strict order whose incomparable elements are equals. */
  ghost predicate WeakOrder<T(!new)>(less: (T, T) -> bool) {
    && (forall a, b :: less(a, b) ==> !less(b, a))
    && (forall a, b, c :: !less(b, a) && !less(c, b) ==> !less(c, a))
  }

  ghost predicate SortedBy<T>(s: seq<T>, less: (T, T) -> bool) {
    forall i, j :: 0 <= i < j < |s| ==> !less(s[j], s[i])
  }

  function Inserted<T>(s: seq<T>, e: T, less: (T, T) -> bool): seq<T> {
    if s == [] || !less(e, s[|s| - 1]) then s + [e] else Inserted(s[..|s| - 1], e, less) + [s[|s| - 1]]
  }

  lemma {:induction false} InsertedKeeps<T(!new)>(s: seq<T>, e: T, less: (T, T) -> bool)
    requires SortedBy(s, less) && WeakOrder(less)
    ensures SortedBy(Inserted(s, e, less), less) && multiset(Inserted(s, e, less)) == multiset(s) + multiset{e}
  {
    if s != [] && less(e, s[|s| - 1]) {
      var n := |s| - 1;
      InsertedKeeps(s[..n], e, less);
      assert s == s[..n] + [s[n]];
      var r := Inserted(s[..n], e, less);
      forall u | u in r ensures !less(s[n], u) {
        assert u in multiset(r);
        assert u != e ==> u in s[..n];
      }
      SortedAppend(r, s[n], less);
    } else {
      SortedAppend(s, e, less);
    }
  }

  lemma SortedAppend<T>(s: seq<T>, e: T, less: (T, T) -> bool)
    requires SortedBy(s, less) && forall u :: u in s ==> !less(e, u)
    ensures SortedBy(s + [e], less)
  {
  }

  method SortSlice<T(!new)>(s: seq<T>, less: (T, T) -> bool) returns (r: seq<T>)
    requires WeakOrder(less)
    ensures SortedBy(r, less) && multiset(r) == multiset(s)
  {
    r := [];
    for i := 0 to |s|
      invariant SortedBy(r, less) && multiset(r) == multiset(s[..i])
    {
      InsertedKeeps(r, s[i], less);
      r := Inserted(r, s[i], less);
      assert s[..i + 1] == s[..i] + [s[i]];
    }
    assert s[..|s|] == s;
  }

  lemma SameElements<T>(a: seq<T>, b: seq<T>)
    requires multiset(a) == multiset(b)
    ensures |a| == |b| && forall e :: e in a <==> e in b
  {
    forall e ensures e in a <==> e in b {
      assert e in multiset(a) <==> e in multiset(b);
    }
    assert |multiset(a)| == |multiset(b)|;
  }

  lemma Twice<T>(s: seq<T>, i: nat, j: nat)
    requires i < j < |s| && s[i] == s[j]
    ensures multiset(s)[s[i]] >= 2
  {
    assert s == s[..j] + [s[j]] + s[j + 1..];
    assert s[..j] == s[..i] + [s[i]] + s[i + 1..j];
  }

  lemma Once<T>(s: seq<T>, p: nat)
    requires p < |s| && forall i :: 0 <= i < |s| && i != p ==> s[i] != s[p]
    ensures multiset(s)[s[p]] == 1
  {
    assert s == s[..p] + [s[p]] + s[p + 1..];
  }

  /** Whatever its order, a sequence with the elements of one without duplicates has none. */
  lemma StaysDistinct<T>(a: seq<T>, b: seq<T>, i: nat, j: nat)
    requires multiset(a) == multiset(b) && (forall p, q :: 0 <= p < q < |b| ==> b[p] != b[q]) && i < j < |a|
    ensures a[i] != a[j]
  {
    if a[i] == a[j] {
      SameElements(a, b);
      Twice(a, i, j);
      var p :| 0 <= p < |b| && b[p] == a[i];
      Once(b, p);
    }
  }
}
