/** Single bits of a 64-bit word, and the number of them that are set. */
module Bits {
  function Value(x: bv64): nat {
    x as nat
  }

  function Mask(p: nat): bv64
    requires p < 64
  {
    (1 as bv64) << p
  }

  function Or(a: bv64, b: bv64): bv64 {
    a | b
  }

  predicate Meet(a: bv64, b: bv64) {
    a & b != 0
  }

  predicate Bit(w: bv64, p: nat)
    requires p < 64
  {
    Meet(w, Mask(p))
  }

  lemma MasksMeet(p: nat, q: nat)
    requires p < 64 && q < 64
    ensures Meet(Mask(p), Mask(q)) <==> p == q
  {
  }

  lemma Distribute(w: bv64, a: bv64, b: bv64)
    ensures (w | a) & b == (w & b) | (a & b)
  {
  }

  lemma OrIsZero(c: bv64, d: bv64)
    ensures c | d != 0 <==> c != 0 || d != 0
  {
  }

  lemma OrMeets(w: bv64, a: bv64, b: bv64)
    ensures (w | a) & b != 0 <==> w & b != 0 || a & b != 0
  {
    Distribute(w, a, b);
    OrIsZero(w & b, a & b);
  }

  lemma MeetJoined(w: bv64, a: bv64, join: bv64, b: bv64)
    requires join == w | a
    ensures Meet(join, b) <==> Meet(w, b) || Meet(a, b)
  {
    OrMeets(w, a, b);
  }

  lemma MeetOr(w: bv64, a: bv64, b: bv64)
    ensures Meet(Or(w, a), b) <==> Meet(w, b) || Meet(a, b)
  {
    hide Meet;
    MeetJoined(w, a, Or(w, a), b);
  }

  /** Setting a bit sets that bit and no other. */
  lemma SetBit(w: bv64, p: nat, q: nat)
    requires p < 64 && q < 64
    ensures Bit(Or(w, Mask(p)), q) <==> p == q || Bit(w, q)
  {
    hide Mask, Meet, Or;
    MasksMeet(p, q);
    MeetOr(w, Mask(p), Mask(q));
  }

  function Add(a: bv64, b: bv64): bv64 {
    a + b
  }

  /** The sum of every two neighbouring bits, then of every two pairs, then of every two nibbles. */
  function BitPairs(x: bv64): bv64 {
    x - ((x >> 1) & 0x5555555555555555)
  }

  function SumPairs(x: bv64): bv64 {
    (x & 0x3333333333333333) + ((x >> 2) & 0x3333333333333333)
  }

  function SumNibbles(x: bv64): bv64 {
    (x + (x >> 4)) & 0x0f0f0f0f0f0f0f0f
  }

  function Counted(x: bv64): bv64 {
    SumNibbles(SumPairs(BitPairs(x)))
  }

  function Fold8(x: bv64): bv64 {
    x + (x >> 8)
  }

  function Fold16(x: bv64): bv64 {
    x + (x >> 16)
  }

  function Fold32(x: bv64): bv64 {
    x + (x >> 32)
  }

  function Low7(x: bv64): bv64 {
    x & 0x7f
  }

  /** The population count of Hacker's Delight, on 64 bits. */
  function Popcount(x: bv64): bv64 {
    Low7(Fold32(Fold16(Fold8(Counted(x)))))
  }

  /** The number of set bits among the p lowest. */
  function CountBits(w: bv64, p: nat): (c: nat)
    ensures c <= p
  {
    if p == 0 then 0 else (if w & 1 != 0 then 1 else 0) + CountBits(Half(w), p - 1)
  }

  predicate Under(y: bv64, mask: bv64) {
    y & mask == 0
  }

  function One(x: bv64): bv64 {
    x & 1
  }

  function Half(x: bv64): bv64 {
    x >> 1
  }

  function FourBits(x: bv64): bv64 {
    Add(Add(One(x), One(Half(x))), Add(One(Half(Half(x))), One(Half(Half(Half(x))))))
  }

  function AfterFour(x: bv64): bv64 {
    Half(Half(Half(Half(x))))
  }

  /** The sum of the eight lowest bits of x. */
  function ByteBits(x: bv64): bv64 {
    Add(FourBits(x), FourBits(AfterFour(x)))
  }

  function Rest(x: bv64): bv64 {
    AfterFour(AfterFour(x))
  }

  function SumBytes(a: bv64, b: bv64, c: bv64, d: bv64): bv64 {
    Add(Add(a, b), Add(c, d))
  }

  function Low(x: bv64): bv64 {
    x & 0xff
  }

  // ------------------------------------------------------------------ one byte at a time

  function Byte8(x: bv64): bv64 {
    x >> 8
  }

  lemma RestIsShift(x: bv64)
    ensures Rest(x) == Byte8(x)
  {
  }

  lemma BitPairsHigh(x: bv64)
    ensures (x - ((x >> 1) & 0x5555555555555555)) >> 8 == (x >> 8) - (((x >> 8) >> 1) & 0x5555555555555555)
  {
  }

  lemma BitPairsLow(x: bv64)
    ensures (x - ((x >> 1) & 0x5555555555555555)) & 0xff == (x & 0xff) - (((x & 0xff) >> 1) & 0x5555555555555555)
  {
  }

  lemma BitPairsByByte(x: bv64)
    ensures Byte8(BitPairs(x)) == BitPairs(Byte8(x)) && Low(BitPairs(x)) == BitPairs(Low(x))
  {
    BitPairsHigh(x);
    BitPairsLow(x);
  }

  lemma SumPairsHigh(x: bv64)
    ensures ((x & 0x3333333333333333) + ((x >> 2) & 0x3333333333333333)) >> 8
      == ((x >> 8) & 0x3333333333333333) + (((x >> 8) >> 2) & 0x3333333333333333)
  {
  }

  lemma SumPairsLow(x: bv64)
    ensures ((x & 0x3333333333333333) + ((x >> 2) & 0x3333333333333333)) & 0xff
      == ((x & 0xff) & 0x3333333333333333) + (((x & 0xff) >> 2) & 0x3333333333333333)
  {
  }

  lemma SumPairsByByte(x: bv64)
    ensures Byte8(SumPairs(x)) == SumPairs(Byte8(x)) && Low(SumPairs(x)) == SumPairs(Low(x))
  {
    SumPairsHigh(x);
    SumPairsLow(x);
  }

  lemma PairsFit(x: bv64)
    ensures Under(SumPairs(x), 0x8888888888888888)
  {
  }

  lemma SumNibblesHigh(x: bv64)
    requires x & 0x8888888888888888 == 0
    ensures ((x + (x >> 4)) & 0x0f0f0f0f0f0f0f0f) >> 8 == ((x >> 8) + ((x >> 8) >> 4)) & 0x0f0f0f0f0f0f0f0f
  {
  }

  lemma SumNibblesLow(x: bv64)
    requires x & 0x8888888888888888 == 0
    ensures ((x + (x >> 4)) & 0x0f0f0f0f0f0f0f0f) & 0xff == ((x & 0xff) + ((x & 0xff) >> 4)) & 0x0f0f0f0f0f0f0f0f
  {
  }

  lemma SumNibblesByByte(x: bv64)
    requires Under(x, 0x8888888888888888)
    ensures Byte8(SumNibbles(x)) == SumNibbles(Byte8(x)) && Low(SumNibbles(x)) == SumNibbles(Low(x))
  {
    SumNibblesHigh(x);
    SumNibblesLow(x);
  }

  lemma NibblesFit(x: bv64)
    ensures Under(SumNibbles(x), 0xf0f0f0f0f0f0f0f0)
  {
  }

  /** The three masked steps work on every byte by itself. */
  lemma CountedByByte(x: bv64)
    ensures Byte8(Counted(x)) == Counted(Byte8(x)) && Low(Counted(x)) == Counted(Low(x))
  {
    hide BitPairs, SumPairs, SumNibbles, Byte8, Low, Under;
    BitPairsByByte(x);
    SumPairsByByte(BitPairs(x));
    PairsFit(BitPairs(x));
    SumNibblesByByte(SumPairs(BitPairs(x)));
  }

  /** For a single byte they count its bits. */
  lemma CountedByte(x: bv64)
    requires Under(x, 0xffffffffffffff00)
    ensures Counted(x) == ByteBits(x)
  {
  }

  lemma LowIsByte(x: bv64)
    ensures Under(Low(x), 0xffffffffffffff00) && ByteBits(Low(x)) == ByteBits(x)
  {
  }

  lemma LowCounted(x: bv64)
    ensures Low(Counted(x)) == ByteBits(x)
  {
    hide Counted, ByteBits, Under, Low, Byte8;
    CountedByByte(x);
    LowIsByte(x);
    CountedByte(Low(x));
  }

  lemma RestCounted(x: bv64)
    ensures Rest(Counted(x)) == Counted(Rest(x)) && Low(Counted(x)) == ByteBits(x)
  {
    hide Counted, ByteBits, Low, Byte8, Rest;
    CountedByByte(x);
    RestIsShift(x);
    RestIsShift(Counted(x));
    LowCounted(x);
  }

  lemma CountedFits(x: bv64)
    ensures Under(Counted(x), 0xf0f0f0f0f0f0f0f0)
  {
    hide BitPairs, SumPairs, SumNibbles, Under;
    NibblesFit(SumPairs(BitPairs(x)));
  }

  // ------------------------------------------------------------------ the fold

  lemma Fold8Raw(y: bv64)
    requires y & 0xf0f0f0f0f0f0f0f0 == 0
    ensures (y + (y >> 8)) & 0xe0e0e0e0e0e0e0e0 == 0
    ensures (y + (y >> 8)) & 0xff == (y & 0xff) + ((y >> 8) & 0xff)
    ensures ((y + (y >> 8)) >> 16) & 0xff == ((y >> 16) & 0xff) + ((y >> 24) & 0xff)
    ensures ((y + (y >> 8)) >> 32) & 0xff == ((y >> 32) & 0xff) + ((y >> 40) & 0xff)
    ensures ((y + (y >> 8)) >> 48) & 0xff == ((y >> 48) & 0xff) + ((y >> 56) & 0xff)
  {
  }

  /** The bytes added in pairs, which are small enough not to carry into each other. */
  lemma FoldOnce(y: bv64)
    requires Under(y, 0xf0f0f0f0f0f0f0f0)
    ensures Under(Fold8(y), 0xe0e0e0e0e0e0e0e0)
    ensures Low(Fold8(y)) == Add(Low(y), Low(y >> 8)) && Low(Fold8(y) >> 16) == Add(Low(y >> 16), Low(y >> 24))
    ensures Low(Fold8(y) >> 32) == Add(Low(y >> 32), Low(y >> 40))
    ensures Low(Fold8(y) >> 48) == Add(Low(y >> 48), Low(y >> 56))
  {
    Fold8Raw(y);
  }

  lemma Fold16Raw(a: bv64)
    requires a & 0xe0e0e0e0e0e0e0e0 == 0
    ensures (a + (a >> 16)) & 0xc0c0c0c0c0c0c0c0 == 0
    ensures (a + (a >> 16)) & 0xff == (a & 0xff) + ((a >> 16) & 0xff)
    ensures ((a + (a >> 16)) >> 32) & 0xff == ((a >> 32) & 0xff) + ((a >> 48) & 0xff)
  {
  }

  /** And in fours. */
  lemma FoldTwice(a: bv64)
    requires Under(a, 0xe0e0e0e0e0e0e0e0)
    ensures Under(Fold16(a), 0xc0c0c0c0c0c0c0c0)
    ensures Low(Fold16(a)) == Add(Low(a), Low(a >> 16)) && Low(Fold16(a) >> 32) == Add(Low(a >> 32), Low(a >> 48))
  {
    Fold16Raw(a);
  }

  lemma Fold32Raw(b: bv64)
    requires b & 0xc0c0c0c0c0c0c0c0 == 0
    ensures (b + (b >> 32)) & 0x7f == (b & 0xff) + ((b >> 32) & 0xff)
  {
  }

  lemma FoldThrice(b: bv64)
    requires Under(b, 0xc0c0c0c0c0c0c0c0)
    ensures Fold32(b) & 0x7f == Add(Low(b), Low(b >> 32))
  {
    Fold32Raw(b);
  }

  function Rest4(x: bv64): bv64 {
    Rest(Rest(Rest(Rest(x))))
  }

  lemma TwoBytes(x: bv64)
    ensures Byte8(Byte8(x)) == x >> 16 && Byte8(Byte8(Byte8(x))) == x >> 24
  {
  }

  lemma MoreBytes(x: bv64)
    ensures Byte8(Byte8(x >> 16)) == x >> 32 && Byte8(x >> 32) == x >> 40
    ensures Byte8(x >> 40) == x >> 48 && Byte8(x >> 48) == x >> 56
  {
  }

  lemma Bytes(x: bv64)
    ensures Rest(x) == x >> 8 && Rest(Rest(x)) == x >> 16 && Rest(Rest(Rest(x))) == x >> 24 && Rest4(x) == x >> 32
    ensures Rest(Rest4(x)) == x >> 40 && Rest(Rest(Rest4(x))) == x >> 48 && Rest(Rest(Rest(Rest4(x)))) == x >> 56
  {
    FirstBytes(x);
    hide Rest, Byte8;
    TwoBytes(x);
    MoreBytes(x);
    RestIsShift(x);
    RestIsShift(Rest(x));
    RestIsShift(x >> 16);
    RestIsShift(Rest(Rest(Rest(x))));
    RestIsShift(x >> 32);
    RestIsShift(x >> 40);
    RestIsShift(x >> 48);
  }

  lemma FirstBytes(x: bv64)
    ensures Byte8(x) == x >> 8 && Byte8(x >> 24) == x >> 32
  {
  }

  function LowSum(y: bv64): bv64 {
    SumBytes(Low(y), Low(Rest(y)), Low(Rest(Rest(y))), Low(Rest(Rest(Rest(y)))))
  }

  lemma FoldOnceByByte(y: bv64)
    requires Under(y, 0xf0f0f0f0f0f0f0f0)
    ensures var a := Fold8(y);
      && Low(a) == Add(Low(y), Low(Rest(y)))
      && Low(Rest(Rest(a))) == Add(Low(Rest(Rest(y))), Low(Rest(Rest(Rest(y)))))
      && Low(Rest4(a)) == Add(Low(Rest4(y)), Low(Rest(Rest4(y))))
      && Low(Rest(Rest(Rest4(a)))) == Add(Low(Rest(Rest(Rest4(y)))), Low(Rest(Rest(Rest(Rest4(y))))))
  {
    hide Add, Low, Rest, Rest4, Under, Fold8;
    Bytes(y);
    Bytes(Fold8(y));
    FoldOnce(y);
  }

  lemma FoldTwiceByByte(a: bv64)
    requires Under(a, 0xe0e0e0e0e0e0e0e0)
    ensures var b := Fold16(a);
      && Low(b) == Add(Low(a), Low(Rest(Rest(a))))
      && Low(Rest4(b)) == Add(Low(Rest4(a)), Low(Rest(Rest(Rest4(a)))))
  {
    hide Add, Low, Rest, Rest4, Under, Fold16;
    Bytes(a);
    Bytes(Fold16(a));
    FoldTwice(a);
  }

  lemma FoldThriceByByte(b: bv64)
    requires Under(b, 0xc0c0c0c0c0c0c0c0)
    ensures Low7(Fold32(b)) == Add(Low(b), Low(Rest4(b)))
  {
    hide Add, Low, Rest, Rest4, Under, Fold32;
    Bytes(b);
    FoldThrice(b);
  }

  /** The folding adds up the bytes. */
  lemma FoldSums(y: bv64)
    requires Under(y, 0xf0f0f0f0f0f0f0f0)
    ensures Low7(Fold32(Fold16(Fold8(y)))) == Add(LowSum(y), LowSum(Rest4(y)))
  {
    FoldsFit(y);
    hide Add, Low, Low7, Rest, Rest4, Under, Fold8, Fold16, Fold32;
    FoldOnceByByte(y);
    FoldTwiceByByte(Fold8(y));
    FoldThriceByByte(Fold16(Fold8(y)));
  }

  lemma FoldsFit(y: bv64)
    requires Under(y, 0xf0f0f0f0f0f0f0f0)
    ensures Under(Fold8(y), 0xe0e0e0e0e0e0e0e0) && Under(Fold16(Fold8(y)), 0xc0c0c0c0c0c0c0c0)
  {
    hide Under, Fold8, Fold16;
    FoldOnce(y);
    FoldTwice(Fold8(y));
  }

  function FourBytes(x: bv64): bv64 {
    SumBytes(ByteBits(x), ByteBits(Rest(x)), ByteBits(Rest(Rest(x))), ByteBits(Rest(Rest(Rest(x)))))
  }

  lemma LowSumCounted(x: bv64)
    ensures LowSum(Counted(x)) == FourBytes(x) && Rest4(Counted(x)) == Counted(Rest4(x))
  {
    hide Counted, ByteBits, Low, Rest, SumBytes;
    RestCounted(x);
    RestCounted(Rest(x));
    RestCounted(Rest(Rest(x)));
    RestCounted(Rest(Rest(Rest(x))));
  }

  lemma PopcountIsByteSum(x: bv64)
    ensures Popcount(x) == Add(FourBytes(x), FourBytes(Rest4(x)))
  {
    hide Counted, Fold8, Fold16, Fold32, Low7, Under, Add, ByteBits, Rest, SumBytes, LowSum, FourBytes, Rest4;
    CountedFits(x);
    FoldSums(Counted(x));
    LowSumCounted(x);
    LowSumCounted(Rest4(x));
  }

  function Succ(x: bv64): bv64 {
    x + 1
  }

  predicate Below(x: bv64, m: bv64) {
    x <= m
  }

  lemma SuccValue(c: bv64)
    requires Below(c, 127)
    ensures Value(Succ(c)) == Value(c) + 1
  {
    NextValue(c);
  }

  lemma NextValue(c: bv64)
    requires c <= 127
    ensures (c + 1) as nat == c as nat + 1
  {
  }

  lemma PredSucc(b: bv64)
    requires Below(b, 64) && b != 0
    ensures Succ(b - 1) == b && Below(b - 1, 63)
  {
  }

  lemma AddSucc(a: bv64, p: bv64)
    ensures Add(a, Succ(p)) == Succ(Add(a, p)) && Add(a, 0) == a
    ensures Below(a, 64) && Below(p, 63) ==> Below(Add(a, p), 127) && Below(p, 127) && Below(p, 64)
  {
  }

  lemma ZeroValue()
    ensures Value(0) == 0
  {
  }

  lemma {:induction false} AddSmall(a: bv64, b: bv64)
    requires Below(a, 64) && Below(b, 64)
    ensures Value(Add(a, b)) == Value(a) + Value(b)
    decreases Value(b)
  {
    hide Value, Add, Succ, Below;
    if b == 0 {
      AddSucc(a, 0);
      ZeroValue();
    } else {
      var p := b - 1;
      PredSucc(b);
      AddSucc(a, p);
      SuccValue(p);
      SuccValue(Add(a, p));
      AddSmall(a, p);
    }
  }

  lemma ValueBound(a: bv64)
    requires Value(a) <= 64
    ensures Below(a, 64)
  {
  }

  lemma AddValues(a: bv64, b: bv64)
    requires Value(a) <= 64 && Value(b) <= 64
    ensures Value(Add(a, b)) == Value(a) + Value(b)
  {
    hide Value, Add, Below;
    ValueBound(a);
    ValueBound(b);
    AddSmall(a, b);
  }

  lemma OneValue(x: bv64)
    ensures Value(One(x)) == if x & 1 != 0 then 1 else 0
  {
    assert x & 1 == 0 || x & 1 == 1;
  }

  lemma CountShift(w: bv64, p: nat)
    requires 0 < p
    ensures CountBits(w, p) == CountBits(Half(w), p - 1) + Value(One(w)) && Value(One(w)) <= 1
  {
    OneValue(w);
  }

  lemma FourValue(x: bv64, p: nat)
    requires 4 <= p <= 64
    ensures Value(FourBits(x)) == CountBits(x, p) - CountBits(AfterFour(x), p - 4) <= 4
  {
    hide One, Add, Half, CountBits, Value;
    var x1 := Half(x);
    var x2 := Half(x1);
    var x3 := Half(x2);
    CountShift(x, p);
    CountShift(x1, p - 1);
    CountShift(x2, p - 2);
    CountShift(x3, p - 3);
    AddValues(One(x), One(x1));
    AddValues(One(x2), One(x3));
    AddValues(Add(One(x), One(x1)), Add(One(x2), One(x3)));
  }

  lemma ByteValue(x: bv64, p: nat)
    requires 8 <= p <= 64
    ensures Value(ByteBits(x)) == CountBits(x, p) - CountBits(Rest(x), p - 8) <= 8
  {
    hide FourBits, AfterFour, Add, CountBits, Value;
    FourValue(x, p);
    FourValue(AfterFour(x), p - 4);
    AddValues(FourBits(x), FourBits(AfterFour(x)));
  }

  lemma SumValue(a: bv64, b: bv64, c: bv64, d: bv64)
    requires Value(a) <= 8 && Value(b) <= 8 && Value(c) <= 8 && Value(d) <= 8
    ensures Value(SumBytes(a, b, c, d)) == Value(a) + Value(b) + Value(c) + Value(d)
  {
    hide Value, Add;
    AddValues(a, b);
    AddValues(c, d);
    AddValues(Add(a, b), Add(c, d));
  }

  lemma FourBytesValue(x: bv64, p: nat)
    requires 32 <= p <= 64
    ensures Value(FourBytes(x)) == CountBits(x, p) - CountBits(Rest4(x), p - 32) <= 32
  {
    hide ByteBits, SumBytes, CountBits, Value, Rest;
    ByteValue(x, p);
    ByteValue(Rest(x), p - 8);
    ByteValue(Rest(Rest(x)), p - 16);
    ByteValue(Rest(Rest(Rest(x))), p - 24);
    SumValue(ByteBits(x), ByteBits(Rest(x)), ByteBits(Rest(Rest(x))), ByteBits(Rest(Rest(Rest(x)))));
  }

  /** For every word, popcount is the number of its set bits. */
  lemma PopcountCounts(x: bv64)
    ensures Value(Popcount(x)) == CountBits(x, 64)
  {
    hide FourBytes, Popcount, CountBits, Value, Rest4, Add;
    var y := Rest4(x);
    PopcountIsByteSum(x);
    FourBytesValue(x, 64);
    FourBytesValue(y, 32);
    NoBitsLeft(Rest4(y));
    AddValues(FourBytes(x), FourBytes(y));
  }

  lemma NoBitsLeft(x: bv64)
    ensures CountBits(x, 0) == 0
  {
  }

  lemma HalfOr(w: bv64, m: bv64)
    ensures Half(Or(w, m)) == Or(Half(w), Half(m))
    ensures Or(w, m) & 1 != 0 ==> w & 1 != 0 || m & 1 != 0
  {
  }

  lemma {:induction false} CountOr(w: bv64, m: bv64, p: nat)
    ensures CountBits(Or(w, m), p) <= CountBits(w, p) + CountBits(m, p)
    decreases p
  {
    hide Half, Or;
    if p > 0 {
      HalfOr(w, m);
      CountOr(Half(w), Half(m), p - 1);
    }
  }

  predicate Single(m: bv64) {
    m & (m - 1) == 0
  }

  lemma MaskIsSingle(p: nat)
    requires p < 64
    ensures Single(Mask(p))
  {
  }

  lemma HalfOfSingle(m: bv64)
    requires Single(m)
    ensures Single(Half(m)) && (m & 1 != 0 ==> Half(m) == 0)
  {
  }

  lemma {:induction false} SingleCount(m: bv64, p: nat)
    requires Single(m)
    ensures CountBits(m, p) <= 1
    decreases p
  {
    hide Single, Half;
    if p > 0 {
      HalfOfSingle(m);
      SingleCount(Half(m), p - 1);
      ZeroHasNoBits(p - 1);
    }
  }

  /** Setting a bit adds at most one set bit. */
  lemma CountAfterSet(w: bv64, q: nat)
    requires q < 64
    ensures CountBits(Or(w, Mask(q)), 64) <= CountBits(w, 64) + 1
  {
    hide Or, Mask, CountBits, Single;
    CountOr(w, Mask(q), 64);
    MaskIsSingle(q);
    SingleCount(Mask(q), 64);
  }

  lemma {:induction false} ZeroHasNoBits(p: nat)
    ensures CountBits(0, p) == 0
  {
    if p > 0 {
      ZeroHasNoBits(p - 1);
    }
  }
}
