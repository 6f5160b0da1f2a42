/** The write-ahead log record codec and its recovery loop. */
module Wal {
  import opened Base
  import opened Endian

  const OP_PUT: Byte := 1
  const OP_DELETE: Byte := 2
  const OP_BATCH: Byte := 3

  const HEADER_SIZE: nat := 16
  const MAX_WAL_ENTRY_SIZE: nat := 0x10_0000

  /** A record. Decoding yields an empty value where the writer had nil. */
  datatype WalEntry = WalEntry(op: Byte, isLarge: bool, timestamp: U64, key: Bytes, value: Bytes)

  function Body(e: WalEntry): Bytes {
    [e.op, if e.isLarge then 1 else 0] + BE(e.timestamp, 8) + BE(|e.key|, 2) + BE(|e.value|, 4) + e.key + e.value
  }

  function Encode(crc: Checksum, e: WalEntry): Bytes {
    Body(e) + BE(crc(Body(e)), 4)
  }

  function EncodedSize(e: WalEntry): nat {
    HEADER_SIZE + |e.key| + |e.value| + 4
  }

  lemma EncodedSizeIs(crc: Checksum, e: WalEntry)
    ensures |Encode(crc, e)| == EncodedSize(e)
  {
  }

  /** Whether the key length fits its two bytes and the record the encode buffer. */
  predicate Fits(e: WalEntry) {
    |e.key| < 0x1_0000 && EncodedSize(e) <= MAX_WAL_ENTRY_SIZE
  }

  ghost predicate AllFit(es: seq<WalEntry>) {
    forall i :: 0 <= i < |es| ==> Fits(es[i])
  }

  /** Encodes into the front of dst, field by field; fails without writing when dst is too small. */
  method EncodeWalEntryTo(crc: Checksum, e: WalEntry, dst: array<Byte>) returns (ok: bool, n: nat)
    modifies dst
    ensures ok <==> EncodedSize(e) <= dst.Length
    ensures ok ==> n == EncodedSize(e) && dst[..n] == Encode(crc, e) && dst[n..] == old(dst[n..])
    ensures !ok ==> n == 0 && dst[..] == old(dst[..])
  {
    var keyLen, valLen := |e.key|, |e.value|;
    var totalSize := 1 + 1 + 8 + 2 + 4 + keyLen + valLen + 4;
    if totalSize > dst.Length {
      return false, 0;
    }
    var flags: Byte := if e.isLarge then 1 else 0;
    var pos := WriteHeader(e, flags, dst);
    pos := WriteNext(dst, pos, e.key);
    pos := WriteNext(dst, pos, e.value);
    assert dst[..pos] == Body(e);
    var sum := crc(dst[..pos]);
    pos := WriteNext(dst, pos, BE(sum, 4));
    return true, pos;
  }

  function Header(op: Byte, flags: Byte, timestamp: U64, keyLen: nat, valLen: nat): (h: Bytes)
    ensures |h| == HEADER_SIZE
  {
    [op, flags] + BE(timestamp, 8) + BE(keyLen, 2) + BE(valLen, 4)
  }

  method WriteHeader(e: WalEntry, flags: Byte, dst: array<Byte>) returns (pos: nat)
    requires HEADER_SIZE <= dst.Length
    modifies dst
    ensures pos == HEADER_SIZE && dst[..pos] == Header(e.op, flags, e.timestamp, |e.key|, |e.value|)
    ensures forall i :: pos <= i < dst.Length ==> dst[i] == old(dst[i])
  {
    pos := 0;
    dst[pos] := e.op;
    pos := pos + 1;
    dst[pos] := flags;
    pos := pos + 1;
    assert dst[..2] == [e.op, flags];
    pos := WriteNext(dst, pos, BE(e.timestamp, 8));
    pos := WriteNext(dst, pos, BE(|e.key|, 2));
    pos := WriteNext(dst, pos, BE(|e.value|, 4));
  }

  // ------------------------------------------------------------------ decoding

  /** Why a record cannot be read; recovery stops at any of them. */
  datatype Decoded = Entry(entry: WalEntry, size: nat) | Eof | UnexpectedEof | CrcMismatch

  datatype ReadOutcome = Full | End | Short

  /** io.ReadFull of n bytes when left bytes are left. */
  function ReadFull(left: nat, n: nat): ReadOutcome {
    if n <= left then Full else if left == 0 then End else Short
  }

  function Failed(r: ReadOutcome): Decoded
    requires !r.Full?
  {
    if r.End? then Eof else UnexpectedEof
  }

  /** Reads one record from the front of b. */
  function Decode(crc: Checksum, b: Bytes): (d: Decoded)
    ensures d.Entry? ==> 0 < d.size <= |b|
  {
    var r1 := ReadFull(|b|, HEADER_SIZE);
    if !r1.Full? then Failed(r1) else
    var keyLen, valLen := FromBE(b[10..12]), FromBE(b[12..16]);
    var r2 := ReadFull(|b| - HEADER_SIZE, keyLen);
    if !r2.Full? then Failed(r2) else
    var r3 := ReadFull(|b| - HEADER_SIZE - keyLen, valLen);
    if !r3.Full? then Failed(r3) else
    var end := HEADER_SIZE + keyLen + valLen;
    var r4 := ReadFull(|b| - end, 4);
    if !r4.Full? then Failed(r4) else
    if crc(b[..end]) != FromBE(b[end..end + 4]) then CrcMismatch else
    FromBEBound(b[2..10]);
    Pow256Values();
    Entry(WalEntry(b[0], b[1] % 2 == 1, FromBE(b[2..10]), b[16..16 + keyLen], b[16 + keyLen..end]), end + 4)
  }

  /** Nothing else decodes: what is read as a record is its encoding with the right checksum, except
      for the unused bits of its flag byte. */
  lemma DecodeOnlyEncoded(crc: Checksum, b: Bytes)
    requires Decode(crc, b).Entry?
    ensures var Entry(e, n) := Decode(crc, b);
      && n == EncodedSize(e) <= |b| && |e.key| < 0x1_0000 && |e.value| < 0x1_0000_0000
      && (e.isLarge <==> b[1] % 2 == 1)
      && var body := Header(e.op, b[1], e.timestamp, |e.key|, |e.value|) + e.key + e.value;
         b[..n] == body + BE(crc(body), 4)
  {
    hide BE, FromBE;
    var Entry(e, n) := Decode(crc, b);
    Pow256Values();
    FromBEBound(b[10..12]);
    FromBEBound(b[12..16]);
    BEOfFromBE(b[2..10]);
    BEOfFromBE(b[10..12]);
    BEOfFromBE(b[12..16]);
    var end := n - 4;
    BEOfFromBE(b[end..n]);
    BodyOf(b, |e.key|, end);
    assert b[..n] == b[..end] + b[end..n];
  }

  lemma BodyOf(b: Bytes, keyLen: nat, end: nat)
    requires HEADER_SIZE + keyLen <= end <= |b|
    ensures b[..end] == [b[0], b[1]] + b[2..10] + b[10..12] + b[12..16] + b[16..16 + keyLen] + b[16 + keyLen..end]
  {
  }

  /** All records up to the first one that cannot be read. */
  function RecoverAll(crc: Checksum, b: Bytes): seq<WalEntry> {
    match Decode(crc, b)
    case Entry(e, size) => [e] + RecoverAll(crc, b[size..])
    case _ => []
  }

  /** The recovery loop: seeks to the start and hands every entry on until one cannot be read. */
  method Recover(crc: Checksum, file: Bytes) returns (entries: seq<WalEntry>)
    ensures entries == RecoverAll(crc, file)
  {
    entries := [];
    var reader := file;
    while true
      invariant RecoverAll(crc, file) == entries + RecoverAll(crc, reader)
      decreases |reader|
    {
      var d := Decode(crc, reader);
      if !d.Entry? {
        return;
      }
      entries := entries + [d.entry];
      reader := reader[d.size..];
    }
  }

  // ------------------------------------------------------------------ the codec

  lemma HeaderFields(op: Byte, flags: Byte, timestamp: U64, keyLen: nat, valLen: nat, b: Bytes)
    requires HEADER_SIZE <= |b| && b[..HEADER_SIZE] == Header(op, flags, timestamp, keyLen, valLen)
    requires valLen < 0x1_0000_0000
    ensures b[0] == op && b[1] == flags
    ensures FromBE(b[2..10]) == timestamp
    ensures FromBE(b[10..12]) == keyLen % 0x1_0000
    ensures FromBE(b[12..16]) == valLen
  {
    Pow256Values();
    var h := Header(op, flags, timestamp, keyLen, valLen);
    assert b[2..10] == h[2..10] == BE(timestamp, 8);
    assert b[10..12] == h[10..12] == BE(keyLen, 2);
    assert b[12..16] == h[12..16] == BE(valLen, 4);
    FromBEOfBE(timestamp, 8);
    BETruncates(keyLen, 2);
    FromBEOfBE(keyLen % 0x1_0000, 2);
    FromBEOfBE(valLen, 4);
  }

  lemma EncodeLayout(crc: Checksum, e: WalEntry, rest: Bytes)
    ensures var b := Encode(crc, e) + rest;
      && |b| == EncodedSize(e) + |rest|
      && b[..HEADER_SIZE] == Header(e.op, if e.isLarge then 1 else 0, e.timestamp, |e.key|, |e.value|)
      && b[16..16 + |e.key|] == e.key
      && b[16 + |e.key|..16 + |e.key| + |e.value|] == e.value
      && b[..16 + |e.key| + |e.value|] == Body(e)
      && b[16 + |e.key| + |e.value|..EncodedSize(e)] == BE(crc(Body(e)), 4)
      && b[EncodedSize(e)..] == rest
  {
    var h := Header(e.op, if e.isLarge then 1 else 0, e.timestamp, |e.key|, |e.value|);
    var b := Encode(crc, e) + rest;
    assert Body(e) == h + e.key + e.value;
    assert b[..16 + |e.key| + |e.value|] == Body(e);
    assert b[..16] == Body(e)[..16] == h;
    assert b[16..16 + |e.key|] == Body(e)[16..16 + |e.key|] == e.key;
    assert b[16 + |e.key|..16 + |e.key| + |e.value|] == Body(e)[16 + |e.key|..] == e.value;
  }

  /** Bytes whose header and fields are those of e decode to e. */
  lemma DecodeFields(crc: Checksum, b: Bytes, e: WalEntry)
    requires EncodedSize(e) <= |b| && b[0] == e.op && b[1] == (if e.isLarge then 1 else 0)
    requires FromBE(b[2..10]) == e.timestamp && FromBE(b[10..12]) == |e.key| && FromBE(b[12..16]) == |e.value|
    requires b[16..16 + |e.key|] == e.key && b[16 + |e.key|..16 + |e.key| + |e.value|] == e.value
    requires FromBE(b[16 + |e.key| + |e.value|..EncodedSize(e)]) == crc(b[..16 + |e.key| + |e.value|])
    ensures Decode(crc, b) == Entry(e, EncodedSize(e))
  {
  }

  /** An encodable record reads back, whatever follows it, exactly when its key length fits
      two bytes; a longer key is written with its length cut to the low two bytes. */
  lemma DecodeOfEncode(crc: Checksum, e: WalEntry, rest: Bytes)
    requires EncodedSize(e) <= MAX_WAL_ENTRY_SIZE
    ensures Decode(crc, Encode(crc, e) + rest) == Entry(e, EncodedSize(e)) <==> |e.key| < 0x1_0000
  {
    var b := Encode(crc, e) + rest;
    EncodeLayout(crc, e, rest);
    HeaderFields(e.op, if e.isLarge then 1 else 0, e.timestamp, |e.key|, |e.value|, b);
    if |e.key| < 0x1_0000 {
      Pow256Values();
      FromBEOfBE(crc(Body(e)), 4);
      DecodeFields(crc, b, e);
    } else {
      DecodedKeyLength(crc, b);
    }
  }

  lemma DecodedKeyLength(crc: Checksum, b: Bytes)
    ensures var d := Decode(crc, b);
      d.Entry? ==> HEADER_SIZE <= |b| && |d.entry.key| == FromBE(b[10..12])
  {
  }

  /** A record cut short is never taken for a record. */
  lemma DecodeOfTorn(crc: Checksum, e: WalEntry, cut: nat)
    requires Fits(e) && cut < EncodedSize(e)
    ensures cut <= |Encode(crc, e)| && !Decode(crc, Encode(crc, e)[..cut]).Entry?
  {
    EncodedSizeIs(crc, e);
    var whole := Encode(crc, e) + [];
    EncodeLayout(crc, e, []);
    assert whole == Encode(crc, e);
    if cut >= HEADER_SIZE {
      HeaderFields(e.op, if e.isLarge then 1 else 0, e.timestamp, |e.key|, |e.value|, whole);
      SliceOfTake(whole, cut, 10, 12);
      SliceOfTake(whole, cut, 12, 16);
      DecodeShort(crc, whole[..cut], |e.key|, |e.value|);
    }
  }

  /** A header that promises more than there is. */
  lemma DecodeShort(crc: Checksum, b: Bytes, keyLen: nat, valLen: nat)
    requires HEADER_SIZE <= |b| < HEADER_SIZE + keyLen + valLen + 4
    requires FromBE(b[10..12]) == keyLen && FromBE(b[12..16]) == valLen
    ensures !Decode(crc, b).Entry?
  {
  }

  // ------------------------------------------------------------------ crash cuts

  function Encodings(crc: Checksum, es: seq<WalEntry>): (parts: seq<Bytes>)
    ensures |parts| == |es|
  {
    seq(|es|, i requires 0 <= i < |es| => Encode(crc, es[i]))
  }

  /** The bytes of a log of records. */
  function Concat(crc: Checksum, es: seq<WalEntry>): Bytes {
    Flatten(Encodings(crc, es))
  }

  lemma ConcatFirst(crc: Checksum, es: seq<WalEntry>)
    requires es != []
    ensures Concat(crc, es) == Encode(crc, es[0]) + Concat(crc, es[1..])
    ensures |Encode(crc, es[0])| == EncodedSize(es[0])
  {
    EncodedSizeIs(crc, es[0]);
    assert Encodings(crc, es)[1..] == Encodings(crc, es[1..]);
  }

  /** How many leading records lie wholly within the first cut bytes. */
  function WholeRecords(es: seq<WalEntry>, cut: nat): (k: nat)
    ensures k <= |es|
  {
    if es == [] || cut < EncodedSize(es[0]) then 0 else 1 + WholeRecords(es[1..], cut - EncodedSize(es[0]))
  }

  lemma ConcatAppend(crc: Checksum, es: seq<WalEntry>, e: WalEntry)
    ensures Concat(crc, es + [e]) == Concat(crc, es) + Encode(crc, e)
  {
    assert Encodings(crc, es + [e]) == Encodings(crc, es) + [Encode(crc, e)];
    FlattenAppend(Encodings(crc, es), Encode(crc, e));
  }

  lemma RecoverFirst(crc: Checksum, e: WalEntry, tail: Bytes)
    requires Fits(e)
    ensures RecoverAll(crc, Encode(crc, e) + tail) == [e] + RecoverAll(crc, tail)
  {
    DecodeOfEncode(crc, e, tail);
    EncodeLayout(crc, e, tail);
  }

  /** For any reader of records: parts cut anywhere read as the records wholly before the cut. */
  lemma {:induction false} ReadParts(read: Bytes -> seq<WalEntry>, parts: seq<Bytes>, es: seq<WalEntry>, cut: nat)
    requires |parts| == |es| && cut <= |Flatten(parts)| && read([]) == []
    requires forall i :: 0 <= i < |es| ==> |parts[i]| == EncodedSize(es[i])
    requires forall i, tail :: 0 <= i < |es| ==> read(parts[i] + tail) == [es[i]] + read(tail)
    requires forall i, n :: 0 <= i < |es| && 0 <= n < |parts[i]| ==> read(parts[i][..n]) == []
    ensures read(Flatten(parts)[..cut]) == es[..WholeRecords(es, cut)]
  {
    if es != [] {
      var part, tail := parts[0], Flatten(parts[1..]);
      TakeOfConcat(part, tail, cut);
      if cut >= |part| {
        ReadParts(read, parts[1..], es[1..], cut - |part|);
        assert es[..WholeRecords(es, cut)] == [es[0]] + es[1..][..WholeRecords(es[1..], cut - |part|)];
      }
    }
  }

  lemma TakeOfConcat(a: Bytes, b: Bytes, n: nat)
    requires n <= |a| + |b|
    ensures (a + b)[..n] == if n < |a| then a[..n] else a + b[..n - |a|]
  {
  }

  /** A log cut at any byte recovers exactly the records wholly before the cut. */
  lemma RecoverCut(crc: Checksum, es: seq<WalEntry>, cut: nat)
    requires AllFit(es) && cut <= |Concat(crc, es)|
    ensures RecoverAll(crc, Concat(crc, es)[..cut]) == es[..WholeRecords(es, cut)]
  {
    var read := b => RecoverAll(crc, b);
    var parts := Encodings(crc, es);
    forall i, tail | 0 <= i < |es| ensures read(parts[i] + tail) == [es[i]] + read(tail) {
      RecoverFirst(crc, es[i], tail);
    }
    forall i, n | 0 <= i < |es| && 0 <= n < |parts[i]| ensures read(parts[i][..n]) == [] {
      EncodedSizeIs(crc, es[i]);
      DecodeOfTorn(crc, es[i], n);
    }
    forall i | 0 <= i < |es| ensures |parts[i]| == EncodedSize(es[i]) {
      EncodedSizeIs(crc, es[i]);
    }
    ReadParts(read, parts, es, cut);
  }

  /** The number recovered says which: these records end by the cut and the next one does not. */
  lemma {:induction false} WholeRecordsIsMaximal(crc: Checksum, es: seq<WalEntry>, cut: nat)
    ensures var k := WholeRecords(es, cut);
      && |Concat(crc, es[..k])| <= cut
      && (k < |es| ==> cut < |Concat(crc, es[..k + 1])|)
  {
    if es != [] {
      var n := EncodedSize(es[0]);
      ConcatFirst(crc, es[..1]);
      if cut >= n {
        var rest := es[1..];
        var k := WholeRecords(rest, cut - n);
        WholeRecordsIsMaximal(crc, rest, cut - n);
        ConcatFirst(crc, es[..k + 1]);
        assert es[..k + 1][1..] == rest[..k];
        if k < |rest| {
          ConcatFirst(crc, es[..k + 2]);
          assert es[..k + 2][1..] == rest[..k + 1];
        }
      }
    }
  }
}
