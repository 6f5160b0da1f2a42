/** The Bloom filter over 64-bit words, with its wrap-around hashing and its encoding. */
module Bloom {
  import opened Base
  import opened Bits
  import opened Endian

  const BLOOM_FORMAT_VERSION: Byte := 1
  const HEADER_SIZE: nat := 33
  const TWO_64: nat := 0x1_0000_0000_0000_0000

  /** What a filter holds: m bits in words, k hash functions, n added keys. */
  datatype Filter = Filter(bits: seq<bv64>, m: U64, k: U64, n: U64, seed: bv64)
  {
    ghost predicate Valid() {
      m <= MAX_U64 - 63 && |bits| == (m + 63) / 64
    }
  }

  const EMPTY := Filter([], 0, 0, 0, 0)

  // ------------------------------------------------------------------ hashing

  function Fnv(h: bv64, key: Bytes, i: nat): bv64
    requires i <= |key|
    decreases |key| - i
  {
    if i == |key| then h else Fnv(FnvStep(h, key[i]), key, i + 1)
  }

  function FnvStep(h: bv64, b: Byte): bv64 {
    (h ^ (b as bv64)) * 0x100000001b3
  }

  function Mix(h1: bv64): bv64 {
    var a := h1 ^ 0x9e3779b97f4a7c15;
    var b := (a ^ (a >> 33)) * 0xff51afd7ed558ccd;
    var c := (b ^ (b >> 33)) * 0xc4ceb9fe1a85ec53;
    c ^ (c >> 33)
  }

  method Hash(seed: bv64, key: Bytes) returns (h1: bv64, h2: bv64)
    ensures h1 == Fnv(seed, key, 0) && h2 == Mix(h1)
  {
    hide FnvStep, Mix;
    h1 := seed;
    for i := 0 to |key|
      invariant Fnv(seed, key, 0) == Fnv(h1, key, i)
    {
      h1 := FnvStep(h1, key[i]);
    }
    h2 := Mix(h1);
  }

  /** The i-th position of a key: h1 + i * h2 in 64 bits, then modulo m. */
  function Position(h1: nat, h2: nat, i: nat, m: nat): (p: nat)
    requires m > 0
    ensures p < m
  {
    ((h1 + i * h2) % TWO_64) % m
  }

  function PositionOf(f: Filter, key: Bytes, i: nat): (p: nat)
    requires f.m > 0
    ensures p < f.m
  {
    Position(Value(Fnv(f.seed, key, 0)), Value(Mix(Fnv(f.seed, key, 0))), i, f.m)
  }

  // ------------------------------------------------------------------ bits

  predicate IsSet(bits: seq<bv64>, pos: nat)
    requires pos / 64 < |bits|
  {
    Bit(bits[pos / 64], pos % 64)
  }

  function WithBit(bits: seq<bv64>, pos: nat): seq<bv64>
    requires pos / 64 < |bits|
  {
    bits[pos / 64 := Or(bits[pos / 64], Mask(pos % 64))]
  }

  lemma WithBitSets(bits: seq<bv64>, pos: nat, q: nat)
    requires pos / 64 < |bits| && q / 64 < |bits|
    ensures IsSet(WithBit(bits, pos), q) <==> pos == q || IsSet(bits, q)
  {
    if pos / 64 == q / 64 {
      SetBit(bits[pos / 64], pos % 64, q % 64);
    }
  }

  /** The bits after the first i positions of key are set. */
  function WithPositions(f: Filter, key: Bytes, i: nat): (bits: seq<bv64>)
    requires f.Valid() && f.m > 0
    ensures |bits| == |f.bits|
  {
    if i == 0 then f.bits else WithBit(WithPositions(f, key, i - 1), PositionOf(f, key, i - 1))
  }

  function Added(f: Filter, key: Bytes): (r: Filter)
    requires f.Valid()
    ensures r.Valid() && r.m == f.m && r.k == f.k && r.seed == f.seed
  {
    if f.m == 0 || f.k == 0 then f
    else f.(bits := WithPositions(f, key, f.k), n := (f.n + 1) % TWO_64)
  }

  predicate Contains(f: Filter, key: Bytes)
    requires f.Valid()
  {
    f.m != 0 && f.k != 0 && forall i :: 0 <= i < f.k ==> IsSet(f.bits, PositionOf(f, key, i))
  }

  method WriteWords(buf: array<Byte>, pos: nat, words: seq<bv64>) returns (next: nat)
    requires pos + |words| * 8 <= buf.Length
    modifies buf
    ensures next == pos + |words| * 8 && buf[..next] == old(buf[..pos]) + Words(words)
  {
    hide Value, LE;
    next := pos;
    for i := 0 to |words|
      invariant next == pos + i * 8 && buf[..next] == old(buf[..pos]) + Words(words[..i])
    {
      assert words[..i + 1][..i] == words[..i];
      next := WriteNext(buf, next, LE(Value(words[i]), 8));
    }
    assert words[..|words|] == words;
  }

  class BloomFilter {
    var bits: seq<bv64>
    var m: U64
    var k: U64
    var n: U64
    var seed: bv64

    ghost predicate Valid()
      reads this
    {
      Abs().Valid()
    }

    function Abs(): Filter
      reads this
    {
      Filter(bits, m, k, n, seed)
    }

    /** The sizes come from floating-point formulas and the seed from a random source. */
    constructor (m: U64, k: U64, seed: bv64)
      requires m <= MAX_U64 - 63
      ensures Valid() && Abs() == Filter(seq((m + 63) / 64, _ => 0), m, k, 0, seed)
    {
      this.bits := seq((m + 63) / 64, _ => 0);
      this.m, this.k, this.n, this.seed := m, k, 0, seed;
    }

    /** The filter that decoding gave. */
    constructor Decode(f: Filter)
      requires f.Valid()
      ensures Valid() && Abs() == f
    {
      bits, m, k, n, seed := f.bits, f.m, f.k, f.n, f.seed;
    }

    method Add(key: Bytes)
      requires Valid()
      modifies this
      ensures Valid() && Abs() == Added(old(Abs()), key)
    {
      hide Fnv, Mix, Or, Mask, Value, Position;
      if m == 0 || k == 0 {
        return;
      }
      var h1, h2 := Hash(seed, key);
      ghost var f := Abs();
      for i := 0 to k
        invariant m == f.m && k == f.k && n == f.n && seed == f.seed
        invariant bits == WithPositions(f, key, i)
      {
        var pos := Position(Value(h1), Value(h2), i, m);
        bits := bits[pos / 64 := Or(bits[pos / 64], Mask(pos % 64))];
      }
      n := (n + 1) % TWO_64;
    }

    method MayContain(key: Bytes) returns (may: bool)
      requires Valid()
      ensures may <==> Contains(Abs(), key)
    {
      if m == 0 || k == 0 {
        return false;
      }
      var h1, h2 := Hash(seed, key);
      for i := 0 to k
        invariant forall j :: 0 <= j < i ==> IsSet(bits, PositionOf(Abs(), key, j))
      {
        var pos := Position(Value(h1), Value(h2), i, m);
        if !Meet(bits[pos / 64], Mask(pos % 64)) {
          assert !IsSet(bits, PositionOf(Abs(), key, i));
          return false;
        }
      }
      return true;
    }

    /** The header fields and then the words, all little-endian. */
    method Encode() returns (data: Bytes)
      requires Valid()
      ensures data == Encoded(Abs())
    {
      hide Value, LE;
      var buf := new Byte[HEADER_SIZE + |bits| * 8](_ => 0);
      var off := WriteNext(buf, 0, [BLOOM_FORMAT_VERSION]);
      off := WriteNext(buf, off, LE(m, 8));
      off := WriteNext(buf, off, LE(k, 8));
      off := WriteNext(buf, off, LE(n, 8));
      off := WriteNext(buf, off, LE(Value(seed), 8));
      assert buf[..off] == Header(Abs());
      off := WriteWords(buf, off, bits);
      data := buf[..];
      assert data == buf[..off];
    }

    method BitCount() returns (count: nat)
      ensures count == TotalBits(bits)
    {
      count := 0;
      for i := 0 to |bits|
        invariant count == TotalBits(bits[..i])
      {
        PopcountCounts(bits[i]);
        assert bits[..i + 1][..i] == bits[..i];
        count := count + Value(Popcount(bits[i]));
      }
      assert bits[..|bits|] == bits;
    }
  }

  // ------------------------------------------------------------------ no false negatives

  lemma {:induction false} WithPositionsSets(f: Filter, key: Bytes, i: nat, q: nat)
    requires f.Valid() && f.m > 0 && q < f.m
    ensures IsSet(WithPositions(f, key, i), q)
      <==> IsSet(f.bits, q) || exists j :: 0 <= j < i && PositionOf(f, key, j) == q
  {
    hide PositionOf, IsSet, WithBit;
    if i > 0 {
      WithPositionsSets(f, key, i - 1, q);
      WithBitSets(WithPositions(f, key, i - 1), PositionOf(f, key, i - 1), q);
    }
  }

  /** An added key is contained, and adding a key removes no other. */
  lemma AddedContains(f: Filter, key: Bytes, other: Bytes)
    requires f.Valid() && f.m > 0 && f.k > 0
    ensures Contains(Added(f, key), key)
    ensures Contains(f, other) ==> Contains(Added(f, key), other)
  {
    var r := Added(f, key);
    forall i | 0 <= i < r.k ensures IsSet(r.bits, PositionOf(r, key, i)) {
      WithPositionsSets(f, key, f.k, PositionOf(f, key, i));
    }
    if Contains(f, other) {
      forall i | 0 <= i < r.k ensures IsSet(r.bits, PositionOf(r, other, i)) {
        WithPositionsSets(f, key, f.k, PositionOf(f, other, i));
      }
    }
  }

  function AddedAll(f: Filter, keys: seq<Bytes>): (r: Filter)
    requires f.Valid()
    ensures r.Valid() && r.m == f.m && r.k == f.k && r.seed == f.seed
  {
    if keys == [] then f else Added(AddedAll(f, keys[..|keys| - 1]), keys[|keys| - 1])
  }

  /** No false negatives: after any adds every added key is reported. */
  lemma {:induction false} NoFalseNegatives(f: Filter, keys: seq<Bytes>, key: Bytes)
    requires f.Valid() && f.m > 0 && f.k > 0 && key in keys
    ensures Contains(AddedAll(f, keys), key)
  {
    var init, last := keys[..|keys| - 1], keys[|keys| - 1];
    AddedContains(AddedAll(f, init), last, key);
    if key != last {
      NoFalseNegatives(f, init, key);
    }
  }

  /** The position is one of those of the added keys. */
  ghost predicate Covered(f: Filter, keys: seq<Bytes>, q: nat)
    requires f.m > 0
  {
    exists j: nat, n: nat :: IsPosition(f, keys, j, n, q)
  }

  predicate IsPosition(f: Filter, keys: seq<Bytes>, j: nat, n: nat, q: nat)
    requires f.m > 0
  {
    j < |keys| && n < f.k && PositionOf(f, keys[j], n) == q
  }

  lemma CoveredByLast(f: Filter, keys: seq<Bytes>, q: nat)
    requires f.m > 0 && keys != []
    ensures var last := |keys| - 1;
      Covered(f, keys, q)
      <==> (Covered(f, keys[..last], q) || exists n :: 0 <= n < f.k && q == PositionOf(f, keys[last], n))
  {
    hide PositionOf;
    var last := |keys| - 1;
    if j: nat, n: nat :| IsPosition(f, keys[..last], j, n, q) {
      assert IsPosition(f, keys, j, n, q);
    }
    if n :| 0 <= n < f.k && q == PositionOf(f, keys[last], n) {
      assert IsPosition(f, keys, last, n, q);
    }
    if j: nat, n: nat :| IsPosition(f, keys, j, n, q) {
      if j < last {
        assert IsPosition(f, keys[..last], j, n, q);
      }
    }
  }

  lemma SamePositions(f: Filter, g: Filter, key: Bytes, n: nat)
    requires f.m > 0 && f.m == g.m && f.seed == g.seed
    ensures PositionOf(f, key, n) == PositionOf(g, key, n)
  {
  }

  lemma {:induction false} SetAfterAll(f: Filter, keys: seq<Bytes>, q: nat)
    requires f.Valid() && f.m > 0 && f.k > 0 && q < f.m
    ensures IsSet(AddedAll(f, keys).bits, q) <==> IsSet(f.bits, q) || Covered(f, keys, q)
  {
    hide PositionOf, IsSet, Covered, WithPositions;
    if keys == [] {
      NothingCovered(f, q);
    } else {
      var last := |keys| - 1;
      var before := AddedAll(f, keys[..last]);
      SetAfterAll(f, keys[..last], q);
      WithPositionsSets(before, keys[last], f.k, q);
      CoveredByLast(f, keys, q);
      forall n | 0 <= n < f.k ensures PositionOf(before, keys[last], n) == PositionOf(f, keys[last], n) {
        SamePositions(before, f, keys[last], n);
      }
    }
  }

  lemma NothingCovered(f: Filter, q: nat)
    requires f.m > 0
    ensures !Covered(f, [], q)
  {
  }

  /** Exactly which keys a filter reports: after any adds to an empty one, those of which every
      position is a position of some added key. */
  lemma ReportsIff(m: U64, k: U64, seed: bv64, keys: seq<Bytes>, key: Bytes)
    requires 0 < m <= MAX_U64 - 63 && k > 0
    ensures var f := Filter(seq((m + 63) / 64, _ => 0), m, k, 0, seed);
      Contains(AddedAll(f, keys), key) <==> forall i :: 0 <= i < k ==> Covered(f, keys, PositionOf(f, key, i))
  {
    hide PositionOf, IsSet, Covered, AddedAll;
    var f := Filter(seq((m + 63) / 64, _ => 0), m, k, 0, seed);
    var all := AddedAll(f, keys);
    forall i | 0 <= i < k
      ensures IsSet(all.bits, PositionOf(all, key, i)) <==> Covered(f, keys, PositionOf(f, key, i))
    {
      SamePositions(all, f, key, i);
      SetAfterAll(f, keys, PositionOf(f, key, i));
      NotSetAtFirst(f, PositionOf(f, key, i));
    }
  }

  lemma NotSetAtFirst(f: Filter, q: nat)
    requires f.Valid() && q < f.m && f.bits == seq((f.m + 63) / 64, _ => 0)
    ensures !IsSet(f.bits, q)
  {
    ZeroHasNoBits(q % 64);
  }

  // ------------------------------------------------------------------ encoding

  function Header(f: Filter): (h: Bytes)
    ensures |h| == HEADER_SIZE
  {
    [BLOOM_FORMAT_VERSION] + LE(f.m, 8) + LE(f.k, 8) + LE(f.n, 8) + LE(Value(f.seed), 8)
  }

  function Words(bits: seq<bv64>): (b: Bytes)
    ensures |b| == |bits| * 8
  {
    if bits == [] then [] else Words(bits[..|bits| - 1]) + LE(Value(bits[|bits| - 1]), 8)
  }

  function Encoded(f: Filter): Bytes {
    Header(f) + Words(f.bits)
  }

  function WordAt(data: Bytes, pos: nat): bv64
    requires pos + 8 <= |data|
  {
    Pow256Values();
    LEAt(data, pos, 8) as bv64
  }

  function WordsAt(data: Bytes, pos: nat, n: nat): seq<bv64>
    requires pos + n * 8 <= |data|
  {
    seq(n, i requires 0 <= i < n => WordAt(data, pos + i * 8))
  }

  /** Decoding: no bytes give the filter that contains nothing, and so does a truncated one.
      None stands for the legacy format, whose decoding is not part of this model. */
  function Decoded(data: Bytes): Option<Filter> {
    if |data| == 0 then Some(EMPTY)
    else if data[0] != BLOOM_FORMAT_VERSION then None
    else if |data| < HEADER_SIZE then Some(EMPTY)
    else
      Pow256Values();
      var m := LEAt(data, 1, 8);
      var bitsLen := ((m + 63) % TWO_64) / 64;
      if HEADER_SIZE + bitsLen * 8 > |data| then Some(EMPTY)
      else Some(Filter(WordsAt(data, HEADER_SIZE, bitsLen), m, LEAt(data, 9, 8), LEAt(data, 17, 8), WordAt(data, 25)))
  }

  lemma {:induction false} WordInWords(bits: seq<bv64>, i: nat)
    requires i < |bits|
    ensures Words(bits)[i * 8..i * 8 + 8] == LE(Value(bits[i]), 8)
  {
    hide Value, LE;
    var n := |bits| - 1;
    if i < n {
      WordInWords(bits[..n], i);
      SliceOfTake(Words(bits), n * 8, i * 8, i * 8 + 8);
      assert Words(bits)[..n * 8] == Words(bits[..n]);
    }
  }

  lemma ValueFits(w: bv64)
    ensures Value(w) <= MAX_U64 && Value(w) as bv64 == w
  {
  }

  lemma WordReads(data: Bytes, pos: nat, w: bv64)
    requires pos + 8 <= |data| && data[pos..pos + 8] == LE(Value(w), 8)
    ensures WordAt(data, pos) == w
  {
    Pow256Values();
    ValueFits(w);
    LEReads(data, pos, 8, Value(w));
  }

  /** A filter survives encoding and decoding, so a table opened again has no false negatives. */
  lemma DecodedOfEncoded(f: Filter)
    requires f.Valid()
    ensures Decoded(Encoded(f)) == Some(f)
  {
    Pow256Values();
    hide Value, LE, Pow256;
    var data := Encoded(f);
    var h := Header(f);
    assert h[1..9] == LE(f.m, 8) && h[9..17] == LE(f.k, 8) && h[17..25] == LE(f.n, 8)
        && h[25..33] == LE(Value(f.seed), 8);
    assert data[..HEADER_SIZE] == h;
    SliceOfTake(data, HEADER_SIZE, 1, 9);
    SliceOfTake(data, HEADER_SIZE, 9, 17);
    SliceOfTake(data, HEADER_SIZE, 17, 25);
    SliceOfTake(data, HEADER_SIZE, 25, 33);
    LEReads(data, 1, 8, f.m);
    LEReads(data, 9, 8, f.k);
    LEReads(data, 17, 8, f.n);
    WordReads(data, 25, f.seed);
    EncodedWords(f);
  }

  lemma EncodedWords(f: Filter)
    requires f.Valid()
    ensures WordsAt(Encoded(f), HEADER_SIZE, |f.bits|) == f.bits
  {
    hide Value, LE, Words, WordAt, Header;
    var data := Encoded(f);
    assert |data| == HEADER_SIZE + |f.bits| * 8;
    forall i | 0 <= i < |f.bits| ensures WordAt(data, HEADER_SIZE + i * 8) == f.bits[i] {
      EncodedWord(f, i);
    }
  }

  lemma EncodedWord(f: Filter, i: nat)
    requires f.Valid() && i < |f.bits|
    ensures |Encoded(f)| == HEADER_SIZE + |f.bits| * 8
    ensures WordAt(Encoded(f), HEADER_SIZE + i * 8) == f.bits[i]
  {
    hide Value, LE, Words, WordAt, Header;
    WordInWords(f.bits, i);
    SliceBehind(Header(f), Words(f.bits), i * 8, i * 8 + 8);
    WordReads(Encoded(f), HEADER_SIZE + i * 8, f.bits[i]);
  }

  lemma SliceBehind(a: Bytes, b: Bytes, i: nat, j: nat)
    requires i <= j <= |b|
    ensures (a + b)[|a| + i..|a| + j] == b[i..j]
  {
  }

  // ------------------------------------------------------------------ counting bits

  function TotalBits(bits: seq<bv64>): nat {
    if bits == [] then 0 else TotalBits(bits[..|bits| - 1]) + CountBits(bits[|bits| - 1], 64)
  }

  lemma {:induction false} TotalAfterUpdate(bits: seq<bv64>, i: nat, w: bv64)
    requires i < |bits|
    ensures TotalBits(bits[i := w]) == TotalBits(bits) - CountBits(bits[i], 64) + CountBits(w, 64)
  {
    var n := |bits| - 1;
    if i < n {
      TotalAfterUpdate(bits[..n], i, w);
      assert bits[i := w][..n] == bits[..n][i := w];
    } else {
      assert bits[i := w][..n] == bits[..n];
    }
  }

  lemma {:induction false} TotalAfterPositions(f: Filter, key: Bytes, i: nat)
    requires f.Valid() && f.m > 0
    ensures TotalBits(WithPositions(f, key, i)) <= TotalBits(f.bits) + i
  {
    hide PositionOf, Or, Mask, Bit, CountBits, TotalBits;
    if i > 0 {
      TotalAfterPositions(f, key, i - 1);
      var bits, pos := WithPositions(f, key, i - 1), PositionOf(f, key, i - 1);
      TotalAfterUpdate(bits, pos / 64, Or(bits[pos / 64], Mask(pos % 64)));
      CountAfterSet(bits[pos / 64], pos % 64);
    }
  }

  lemma TotalAfterAdd(f: Filter, key: Bytes)
    requires f.Valid()
    ensures TotalBits(Added(f, key).bits) <= TotalBits(f.bits) + f.k
  {
    if f.m != 0 && f.k != 0 {
      TotalAfterPositions(f, key, f.k);
    }
  }

  /** The number of set bits never exceeds k times the number of added keys. */
  lemma {:induction false} BitCountBound(f: Filter, keys: seq<Bytes>)
    requires f.Valid() && TotalBits(f.bits) == 0
    ensures TotalBits(AddedAll(f, keys).bits) <= f.k * |keys|
  {
    hide TotalBits, Added;
    if keys != [] {
      var n := |keys| - 1;
      BitCountBound(f, keys[..n]);
      TotalAfterAdd(AddedAll(f, keys[..n]), keys[n]);
      assert f.k * (n + 1) == f.k * n + f.k;
    }
  }

  lemma {:induction false} EmptyHasNoBits(n: nat)
    ensures TotalBits(seq(n, _ => 0)) == 0
  {
    if n > 0 {
      EmptyHasNoBits(n - 1);
      assert seq<bv64>(n, _ => 0)[..n - 1] == seq<bv64>(n - 1, _ => 0);
      ZeroHasNoBits(64);
    }
  }

  /** A filter that starts empty has at most k bits set for every key added. */
  lemma FreshBitCount(m: U64, k: U64, seed: bv64, keys: seq<Bytes>)
    requires m <= MAX_U64 - 63
    ensures TotalBits(AddedAll(Filter(seq((m + 63) / 64, _ => 0), m, k, 0, seed), keys).bits) <= k * |keys|
  {
    hide TotalBits, AddedAll;
    EmptyHasNoBits((m + 63) / 64);
    BitCountBound(Filter(seq((m + 63) / 64, _ => 0), m, k, 0, seed), keys);
  }
}
