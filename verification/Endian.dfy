/** Fixed-width big- and little-endian integers. An encoder keeps the low bytes only, which
    is what the integer conversions of the source do to a length that does not fit. */
module Endian {
  import opened Base

  function Pow256(width: nat): (p: nat)
    ensures p > 0
  {
    if width == 0 then 1 else 0x100 * Pow256(width - 1)
  }

  function LE(n: nat, width: nat): (b: Bytes)
    ensures |b| == width
  {
    if width == 0 then [] else [n % 0x100] + LE(n / 0x100, width - 1)
  }

  function FromLE(b: Bytes): nat {
    if b == [] then 0 else b[0] + 0x100 * FromLE(b[1..])
  }

  function BE(n: nat, width: nat): (b: Bytes)
    ensures |b| == width
  {
    if width == 0 then [] else BE(n / 0x100, width - 1) + [n % 0x100]
  }

  function FromBEUpTo(b: Bytes, n: nat): nat
    requires n <= |b|
  {
    if n == 0 then 0 else 0x100 * FromBEUpTo(b, n - 1) + b[n - 1]
  }

  function FromBE(b: Bytes): nat {
    FromBEUpTo(b, |b|)
  }

  lemma {:induction false} FromLEOfLE(n: nat, width: nat)
    requires n < Pow256(width)
    ensures FromLE(LE(n, width)) == n
  {
    if width > 0 {
      FromLEOfLE(n / 0x100, width - 1);
      assert LE(n, width)[1..] == LE(n / 0x100, width - 1);
    }
  }

  lemma {:induction false} FromBEUpToSame(a: Bytes, b: Bytes, n: nat)
    requires n <= |a| && n <= |b| && forall i :: 0 <= i < n ==> a[i] == b[i]
    ensures FromBEUpTo(a, n) == FromBEUpTo(b, n)
  {
    if n > 0 {
      FromBEUpToSame(a, b, n - 1);
    }
  }

  lemma {:induction false} FromBEOfBE(n: nat, width: nat)
    requires n < Pow256(width)
    ensures FromBE(BE(n, width)) == n
  {
    if width > 0 {
      FromBEOfBE(n / 0x100, width - 1);
      FromBEUpToSame(BE(n, width), BE(n / 0x100, width - 1), width - 1);
    }
  }

  lemma {:induction false} FromLEBound(b: Bytes)
    ensures FromLE(b) < Pow256(|b|)
  {
    if b != [] {
      FromLEBound(b[1..]);
    }
  }

  lemma {:induction false} FromBEUpToBound(b: Bytes, n: nat)
    requires n <= |b|
    ensures FromBEUpTo(b, n) < Pow256(n)
  {
    if n > 0 {
      FromBEUpToBound(b, n - 1);
    }
  }

  lemma FromBEBound(b: Bytes)
    ensures FromBE(b) < Pow256(|b|)
  {
    FromBEUpToBound(b, |b|);
  }

  /** The bytes of a field are the encoding of the number that they decode to. */
  lemma {:induction false} LEOfFromLE(b: Bytes)
    ensures LE(FromLE(b), |b|) == b
  {
    if b != [] {
      LEOfFromLE(b[1..]);
      assert b == [b[0]] + b[1..];
    }
  }

  lemma {:induction false} BEOfFromBE(b: Bytes)
    ensures BE(FromBE(b), |b|) == b
  {
    if b != [] {
      var n := |b| - 1;
      BEOfFromBE(b[..n]);
      FromBEUpToSame(b, b[..n], n);
      assert FromBE(b) == 0x100 * FromBE(b[..n]) + b[n];
      assert b == b[..n] + [b[n]];
    }
  }

  /** Only the low bytes of a number are written. */
  lemma {:induction false} BETruncates(n: nat, width: nat)
    ensures BE(n, width) == BE(n % Pow256(width), width)
  {
    if width > 0 {
      var p := Pow256(width - 1);
      DivMod(n, p);
      BETruncates(n / 0x100, width - 1);
    }
  }

  /** The order of the bytes: the lowest comes first in little-endian, and last in big-endian. */
  lemma {:induction false} ByteOrder(n: nat, width: nat, i: nat)
    requires i < width
    ensures LE(n, width)[i] == n / Pow256(i) % 0x100
    ensures BE(n, width)[width - 1 - i] == n / Pow256(i) % 0x100
  {
    if i > 0 {
      DivMod(n, Pow256(i - 1));
      ByteOrder(n / 0x100, width - 1, i - 1);
    }
  }

  lemma DivMod(n: nat, p: nat)
    requires p > 0
    ensures (n % (0x100 * p)) % 0x100 == n % 0x100
    ensures (n % (0x100 * p)) / 0x100 == (n / 0x100) % p
    ensures n / (0x100 * p) == (n / 0x100) / p
  {
    var q, r := n / 0x100, n % 0x100;
    var qq, qr := q / p, q % p;
    assert q == qq * p + qr;
    assert n == 0x100 * q + r;
    assert n == (0x100 * p) * qq + (0x100 * qr + r) by {
      assert 0x100 * (qq * p) == (0x100 * p) * qq;
    }
    assert 0 <= 0x100 * qr + r < 0x100 * p;
    DivUnique(n, 0x100 * p, qq, 0x100 * qr + r);
  }

  lemma DivUnique(n: nat, d: nat, q: nat, r: nat)
    requires d > 0 && n == d * q + r && r < d
    ensures n / d == q && n % d == r
  {
    var q', r' := n / d, n % d;
    MulDifference(d, q, q');
    MulSign(d, q - q');
  }

  lemma MulDifference(d: int, a: int, b: int)
    ensures d * a - d * b == d * (a - b)
  {
  }

  lemma MulSign(d: int, x: int)
    requires d > 0
    ensures x > 0 ==> d * x >= d
    ensures x < 0 ==> d * x <= -d
  {
    if x > 0 {
      MulDifference(d, x, 1);
    } else if x < 0 {
      MulDifference(d, x, -1);
    }
  }

  lemma Pow256Values()
    ensures Pow256(1) == 0x100 && Pow256(2) == 0x1_0000 && Pow256(4) == 0x1_0000_0000
    ensures Pow256(8) == MAX_U64 + 1
  {
    assert Pow256(3) == 0x100_0000;
    assert Pow256(5) == 0x100_0000_0000;
    assert Pow256(6) == 0x1_0000_0000_0000;
    assert Pow256(7) == 0x100_0000_0000_0000;
  }

  /** A copy into a buffer at pos. */
  method CopyInto(dst: array<Byte>, pos: nat, src: Bytes)
    requires pos + |src| <= dst.Length
    modifies dst
    ensures dst[..pos] == old(dst[..pos])
    ensures dst[pos..pos + |src|] == src
    ensures forall i :: pos + |src| <= i < dst.Length ==> dst[i] == old(dst[i])
  {
    for i := 0 to |src|
      invariant dst[..pos] == old(dst[..pos])
      invariant dst[pos..pos + i] == src[..i]
      invariant forall i :: pos + |src| <= i < dst.Length ==> dst[i] == old(dst[i])
    {
      dst[pos + i] := src[i];
      assert dst[pos..pos + i + 1] == dst[pos..pos + i] + [src[i]];
    }
  }

  /** A copy at pos, which moves past it. */
  method WriteNext(dst: array<Byte>, pos: nat, field: Bytes) returns (next: nat)
    requires pos + |field| <= dst.Length
    modifies dst
    ensures next == pos + |field| && dst[..next] == old(dst[..pos]) + field
    ensures forall i :: next <= i < dst.Length ==> dst[i] == old(dst[i])
  {
    CopyInto(dst, pos, field);
    next := pos + |field|;
    assert dst[..next] == dst[..pos] + dst[pos..next];
  }

  /** The big-endian integer of the given width at pos. */
  function BEAt(b: Bytes, pos: nat, width: nat): (n: nat)
    requires pos + width <= |b|
    ensures n < Pow256(width)
  {
    FromBEBound(b[pos..pos + width]);
    FromBE(b[pos..pos + width])
  }

  lemma BEReads(b: Bytes, pos: nat, width: nat, n: nat)
    requires pos + width <= |b| && b[pos..pos + width] == BE(n, width)
    ensures BEAt(b, pos, width) == n % Pow256(width)
  {
    BETruncates(n, width);
    FromBEOfBE(n % Pow256(width), width);
  }

  /** The little-endian integer of the given width at pos. */
  function LEAt(b: Bytes, pos: nat, width: nat): (n: nat)
    requires pos + width <= |b|
    ensures n < Pow256(width)
  {
    FromLEBound(b[pos..pos + width]);
    FromLE(b[pos..pos + width])
  }

  lemma LEReads(b: Bytes, pos: nat, width: nat, n: nat)
    requires pos + width <= |b| && b[pos..pos + width] == LE(n, width) && n < Pow256(width)
    ensures LEAt(b, pos, width) == n
  {
    FromLEOfLE(n, width);
  }
}
