/** Bytes, machine words and the small wrappers every other module uses. */
module Base {

  type Byte = x: int | 0 <= x < 0x100
  type Bytes = seq<Byte>

  const MAX_U64: nat := 0xFFFF_FFFF_FFFF_FFFF

  type U32 = x: int | 0 <= x < 0x1_0000_0000
  type U64 = x: int | 0 <= x <= MAX_U64

  /** CRC-32, left open: any function of the bytes. */
  type Checksum = Bytes -> U32

  datatype Option<+T> = None | Some(value: T)

  lemma SliceOfTake<T>(s: seq<T>, n: nat, i: nat, j: nat)
    requires i <= j <= n <= |s|
    ensures s[..n][i..j] == s[i..j]
  {
  }

  lemma SliceOfSlice<T>(s: seq<T>, lo: nat, hi: nat, i: nat, j: nat)
    requires lo <= hi <= |s| && i <= j <= hi - lo
    ensures s[lo..hi][i..j] == s[lo + i..lo + j]
  {
    var a, b := s[lo..hi][i..j], s[lo + i..lo + j];
    assert |a| == |b|;
    assert forall k :: 0 <= k < |a| ==> a[k] == b[k];
  }

  lemma SliceOfDrop<T>(s: seq<T>, n: nat, i: nat, j: nat)
    requires i <= j && n + j <= |s|
    ensures s[n..][i..j] == s[n + i..n + j]
  {
  }

  lemma SliceOfFront<T>(a: seq<T>, b: seq<T>, i: nat, j: nat)
    requires i <= j <= |a|
    ensures (a + b)[i..j] == a[i..j]
  {
  }

  lemma SliceOfBack<T>(a: seq<T>, b: seq<T>)
    ensures (a + b)[|a|..|a| + |b|] == b
  {
  }

  /** Byte strings one after another. */
  function Flatten(parts: seq<Bytes>): Bytes {
    if parts == [] then [] else parts[0] + Flatten(parts[1..])
  }

  lemma {:induction false} FlattenAppend(parts: seq<Bytes>, last: Bytes)
    ensures Flatten(parts + [last]) == Flatten(parts) + last
  {
    if parts == [] {
      assert [last][1..] == [];
    } else {
      FlattenAppend(parts[1..], last);
      assert (parts + [last])[1..] == parts[1..] + [last];
    }
  }

  /** The first n of the parts one after another. */
  function Joined(parts: seq<Bytes>, n: nat): (b: Bytes)
    requires n <= |parts|
  {
    if n == 0 then [] else Joined(parts, n - 1) + parts[n - 1]
  }

  /** Where each part lies in the whole. */
  lemma {:induction false} JoinedAt(parts: seq<Bytes>, i: nat, n: nat)
    requires i < n <= |parts|
    ensures var start := |Joined(parts, i)|;
      start + |parts[i]| <= |Joined(parts, n)| && Joined(parts, n)[start..start + |parts[i]|] == parts[i]
  {
    var start, front := |Joined(parts, i)|, Joined(parts, n - 1);
    if i < n - 1 {
      JoinedAt(parts, i, n - 1);
      SliceOfFront(front, parts[n - 1], start, start + |parts[i]|);
    } else {
      SliceOfBack(front, parts[i]);
    }
  }

  lemma {:induction false} JoinedSame(a: seq<Bytes>, b: seq<Bytes>, n: nat)
    requires n <= |a| && n <= |b| && forall i :: 0 <= i < n ==> a[i] == b[i]
    ensures Joined(a, n) == Joined(b, n)
  {
    if n > 0 {
      JoinedSame(a, b, n - 1);
    }
  }
}
