/** Lexicographic comparison of user keys. */
module Keys {
  import opened Base

  /** The sign of a against b, both from position i on: negative, zero or positive. */
  function CompareFrom(a: Bytes, b: Bytes, i: nat): int
    requires i <= |a| && i <= |b|
    decreases |a| - i
  {
    if i == |a| then (if i == |b| then 0 else -1)
    else if i == |b| then 1
    else if a[i] < b[i] then -1
    else if a[i] > b[i] then 1
    else CompareFrom(a, b, i + 1)
  }

  function Compare(a: Bytes, b: Bytes): int {
    CompareFrom(a, b, 0)
  }

  /** The lexicographic order: a proper prefix comes first, else the first byte that differs decides. */
  ghost predicate Before(a: Bytes, b: Bytes) {
    || (|a| < |b| && b[..|a|] == a)
    || exists i :: 0 <= i < |a| && i < |b| && a[..i] == b[..i] && a[i] < b[i]
  }

  /** The comparison loop: one pass over the common length, then the lengths decide. */
  method CompareKeys(a: Bytes, b: Bytes) returns (sign: int)
    ensures sign == Compare(a, b)
    ensures sign == -1 <==> Before(a, b)
    ensures sign == 0 <==> a == b
    ensures sign == 1 <==> Before(b, a)
  {
    CompareIsLexicographic(a, b);
    var minLen := |a|;
    if |b| < minLen {
      minLen := |b|;
    }
    for i := 0 to minLen
      invariant Compare(a, b) == CompareFrom(a, b, i)
    {
      if a[i] != b[i] {
        if a[i] < b[i] {
          return -1;
        }
        return 1;
      }
    }
    if |a| < |b| {
      return -1;
    }
    if |a| > |b| {
      return 1;
    }
    return 0;
  }

  lemma {:induction false} FirstDifference(a: Bytes, b: Bytes, i: nat)
    requires i <= |a| && i <= |b| && a[..i] == b[..i]
    ensures CompareFrom(a, b, i) < 0 <==> Before(a, b)
    decreases |a| - i
  {
    if i < |a| && i < |b| {
      if a[i] == b[i] {
        assert a[..i + 1] == a[..i] + [a[i]] && b[..i + 1] == b[..i] + [b[i]];
        FirstDifference(a, b, i + 1);
      } else {
        forall j | i < j && j < |a| && j < |b| ensures a[..j] != b[..j] {
          assert a[..j][i] != b[..j][i];
        }
        forall j | 0 <= j < i ensures a[j] == b[j] {
          assert a[..i][j] == b[..i][j];
        }
        if |a| < |b| {
          assert b[..|a|][i] != a[i];
        }
      }
    } else {
      forall j | 0 <= j < |a| && j < |b| ensures a[j] == b[j] {
        assert a[..i][j] == b[..i][j];
      }
      assert i == |a| ==> a[..i] == a;
    }
  }

  /** Compare is the lexicographic order, sign by sign. */
  lemma CompareIsLexicographic(a: Bytes, b: Bytes)
    ensures Compare(a, b) == -1 <==> Before(a, b)
    ensures Compare(a, b) == 0 <==> a == b
    ensures Compare(a, b) == 1 <==> Before(b, a)
  {
    FirstDifference(a, b, 0);
    FirstDifference(b, a, 0);
    CompareFromLaws(a, b, a, 0);
  }

  lemma {:induction false} CompareFromLaws(a: Bytes, b: Bytes, c: Bytes, i: nat)
    requires i <= |a| && i <= |b| && i <= |c|
    ensures -1 <= CompareFrom(a, b, i) <= 1
    ensures CompareFrom(a, b, i) == 0 <==> a[i..] == b[i..]
    ensures CompareFrom(a, b, i) == -CompareFrom(b, a, i)
    ensures CompareFrom(a, b, i) < 0 && CompareFrom(b, c, i) < 0 ==> CompareFrom(a, c, i) < 0
    decreases |a| - i
  {
    if i < |a| && i < |b| {
      if a[i] == b[i] {
        assert a[i..] == [a[i]] + a[i + 1..] && b[i..] == [b[i]] + b[i + 1..];
        CompareFromLaws(a, b, if i < |c| then c else a, i + 1);
      } else {
        assert a[i..][0] != b[i..][0];
      }
    }
  }

  /** Compare is a total order: antisymmetric, transitive, zero on equal keys only. */
  lemma CompareIsTotalOrder(a: Bytes, b: Bytes, c: Bytes)
    ensures Compare(a, b) == 0 <==> a == b
    ensures Compare(a, b) == -Compare(b, a)
    ensures Compare(a, b) <= 0 && Compare(b, c) <= 0 ==> Compare(a, c) <= 0
    ensures Compare(a, b) < 0 && Compare(b, c) < 0 ==> Compare(a, c) < 0
  {
    CompareFromLaws(a, b, c, 0);
    CompareFromLaws(b, c, a, 0);
  }

  lemma CompareZero(a: Bytes, b: Bytes)
    ensures Compare(a, b) == 0 <==> a == b
  {
    CompareIsTotalOrder(a, b, a);
  }
}
