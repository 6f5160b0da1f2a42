/** The write batch codec: the encoder and decoder of transactions, and the engine's own decoder. */
module Batch {
  import opened Base
  import opened Endian

  datatype BatchOp = Put(key: Bytes, value: Bytes) | Delete(key: Bytes)

  /** An operation as the engine's decoder returns it. */
  datatype LocalOp = LocalOp(isDelete: bool, key: Bytes, value: Bytes)

  /** An operation as it lies in the bytes, with whatever type byte it has. */
  datatype RawOp = RawOp(tag: Byte, key: Bytes, value: Bytes)

  const TAG_PUT: Byte := 1
  const TAG_DELETE: Byte := 2

  function Raw(op: BatchOp): RawOp {
    match op
    case Put(key, value) => RawOp(TAG_PUT, key, value)
    case Delete(key) => RawOp(TAG_DELETE, key, [])
  }

  function RawBytes(r: RawOp): (b: Bytes)
    ensures |b| == RawSize(r)
  {
    [r.tag] + BE(|r.key|, 2) + r.key + BE(|r.value|, 4) + r.value
  }

  function RawSize(r: RawOp): nat {
    7 + |r.key| + |r.value|
  }

  function OpParts(ops: seq<BatchOp>): (parts: seq<Bytes>)
    ensures |parts| == |ops|
  {
    seq(|ops|, i requires 0 <= i < |ops| => RawBytes(Raw(ops[i])))
  }

  function Encoded(ops: seq<BatchOp>): Bytes {
    BE(|ops|, 2) + Flatten(OpParts(ops))
  }

  /** Within the widths of the count and length fields. */
  predicate OpFits(op: BatchOp) {
    |op.key| < 0x1_0000 && |Raw(op).value| < 0x1_0000_0000
  }

  ghost predicate Fits(ops: seq<BatchOp>) {
    |ops| < 0x1_0000 && forall i :: 0 <= i < |ops| ==> OpFits(ops[i])
  }

  // ------------------------------------------------------------------ encoding

  lemma OpPartsPrefix(ops: seq<BatchOp>, i: nat)
    requires i < |ops|
    ensures Flatten(OpParts(ops[..i + 1])) == Flatten(OpParts(ops[..i])) + RawBytes(Raw(ops[i]))
  {
    assert OpParts(ops[..i + 1]) == OpParts(ops[..i]) + [RawBytes(Raw(ops[i]))];
    FlattenAppend(OpParts(ops[..i]), RawBytes(Raw(ops[i])));
  }

  lemma {:induction false} FlattenPrefix(ops: seq<BatchOp>, i: nat)
    requires i <= |ops|
    ensures |Flatten(OpParts(ops[..i]))| <= |Flatten(OpParts(ops))|
    decreases |ops| - i
  {
    if i < |ops| {
      OpPartsPrefix(ops, i);
      FlattenPrefix(ops, i + 1);
    } else {
      assert ops[..i] == ops;
    }
  }

  /** Sizes the buffer in a first pass and fills it in a second. */
  method EncodeBatch(ops: seq<BatchOp>) returns (data: Bytes)
    ensures data == Encoded(ops)
  {
    hide BE, Flatten, Raw;
    assert OpParts(ops[..0]) == [];
    assert Flatten([]) == [] by { FlattenNothing(); }
    var totalSize := 2;
    for i := 0 to |ops|
      invariant totalSize == 2 + |Flatten(OpParts(ops[..i]))|
    {
      OpPartsPrefix(ops, i);
      totalSize := totalSize + RawSize(Raw(ops[i]));
    }
    assert ops[..|ops|] == ops;
    var buf := new Byte[totalSize](_ => 0);
    var pos := WriteNext(buf, 0, BE(|ops|, 2));
    for i := 0 to |ops|
      invariant pos == 2 + |Flatten(OpParts(ops[..i]))| <= buf.Length
      invariant buf[..pos] == BE(|ops|, 2) + Flatten(OpParts(ops[..i]))
    {
      OpPartsPrefix(ops, i);
      FlattenPrefix(ops, i + 1);
      pos := WriteOp(buf, pos, Raw(ops[i]));
    }
    data := buf[..];
    assert data == buf[..pos];
  }

  lemma FlattenNothing()
    ensures Flatten([]) == []
  {
  }

  method WriteOp(buf: array<Byte>, start: nat, r: RawOp) returns (pos: nat)
    requires start + RawSize(r) <= buf.Length
    modifies buf
    ensures pos == start + RawSize(r) && buf[..pos] == old(buf[..start]) + RawBytes(r)
  {
    pos := WriteNext(buf, start, [r.tag]);
    pos := WriteNext(buf, pos, BE(|r.key|, 2));
    pos := WriteNext(buf, pos, r.key);
    pos := WriteNext(buf, pos, BE(|r.value|, 4));
    pos := WriteNext(buf, pos, r.value);
  }

  // ------------------------------------------------------------------ decoding

  datatype ParsedOp = Parsed(op: RawOp, size: nat) | Malformed

  /** One operation from position pos on. */
  function ParseOp(data: Bytes, pos: nat): (r: ParsedOp)
    requires pos <= |data|
    ensures r.Parsed? ==> r.size == RawSize(r.op) && pos + r.size <= |data|
  {
    if pos + 3 > |data| then Malformed else
    var keyLen := BEAt(data, pos + 1, 2);
    if pos + 7 + keyLen > |data| then Malformed else
    var valLen := BEAt(data, pos + 3 + keyLen, 4);
    if pos + 7 + keyLen + valLen > |data| then Malformed else
    Parsed(RawOp(data[pos], data[pos + 3..pos + 3 + keyLen], data[pos + 7 + keyLen..pos + 7 + keyLen + valLen]),
           7 + keyLen + valLen)
  }

  /** The operations read so far, then n more from position pos on. */
  function ParseOps(data: Bytes, pos: nat, n: nat, done: seq<RawOp>): Option<seq<RawOp>>
    requires pos <= |data|
    decreases n
  {
    if n == 0 then Some(done) else
    match ParseOp(data, pos)
    case Malformed => None
    case Parsed(op, size) => ParseOps(data, pos + size, n - 1, done + [op])
  }

  function ParseBatch(data: Bytes): Option<seq<RawOp>> {
    if |data| < 2 then None else ParseOps(data, 2, BEAt(data, 0, 2), [])
  }

  predicate KnownTag(tag: Byte) {
    tag == TAG_PUT || tag == TAG_DELETE
  }

  predicate AllKnown(raw: seq<RawOp>) {
    forall i :: 0 <= i < |raw| ==> KnownTag(raw[i].tag)
  }

  function ToBatchOp(r: RawOp): BatchOp {
    if r.tag == TAG_PUT then Put(r.key, r.value) else Delete(r.key)
  }

  function ToBatchOps(raw: seq<RawOp>): seq<BatchOp> {
    seq(|raw|, i requires 0 <= i < |raw| => ToBatchOp(raw[i]))
  }

  /** What the decoder of transactions accepts, and as what. */
  function BatchDecoding(data: Bytes): Option<seq<BatchOp>> {
    match ParseBatch(data)
    case None => None
    case Some(raw) => if AllKnown(raw) then Some(ToBatchOps(raw)) else None
  }

  /** What has been read stays at the front of what is returned. */
  lemma {:induction false} ParseKeeps(data: Bytes, pos: nat, n: nat, done: seq<RawOp>)
    requires pos <= |data|
    ensures match ParseOps(data, pos, n, done)
      case None => true
      case Some(ops) => |ops| == |done| + n && done <= ops
    decreases n
  {
    if n > 0 && ParseOp(data, pos).Parsed? {
      ParseKeeps(data, pos + ParseOp(data, pos).size, n - 1, done + [ParseOp(data, pos).op]);
    }
  }

  /** The decoder's field-by-field reading, with its bounds checks. */
  method ReadOp(data: Bytes, start: nat) returns (r: ParsedOp)
    requires start <= |data|
    ensures r == ParseOp(data, start)
  {
    var pos := start;
    if pos + 1 > |data| {
      return Malformed;
    }
    var opType := data[pos];
    pos := pos + 1;
    if pos + 2 > |data| {
      return Malformed;
    }
    var keyLen := BEAt(data, pos, 2);
    pos := pos + 2;
    if pos + keyLen > |data| {
      return Malformed;
    }
    var key := data[pos..pos + keyLen];
    pos := pos + keyLen;
    if pos + 4 > |data| {
      return Malformed;
    }
    var valLen := BEAt(data, pos, 4);
    pos := pos + 4;
    if pos + valLen > |data| {
      return Malformed;
    }
    var value := data[pos..pos + valLen];
    pos := pos + valLen;
    return Parsed(RawOp(opType, key, value), pos - start);
  }

  /** Decodes a batch; the first malformed field or unknown type rejects it. */
  method DecodeBatch(data: Bytes) returns (batch: Option<seq<BatchOp>>)
    ensures batch == BatchDecoding(data)
  {
    hide ParseOp;
    if |data| < 2 {
      return None;
    }
    var numOps := BEAt(data, 0, 2);
    var pos: nat, ops: seq<BatchOp> := 2, [];
    ghost var raw: seq<RawOp> := [];
    ghost var parsed := ParseBatch(data);
    for i := 0 to numOps
      invariant pos <= |data| && parsed == ParseOps(data, pos, numOps - i, raw)
      invariant AllKnown(raw) && ops == ToBatchOps(raw)
    {
      var r := ReadOp(data, pos);
      if r.Malformed? {
        return None;
      }
      pos := pos + r.size;
      raw := raw + [r.op];
      if r.op.tag == TAG_PUT {
        ops := ops + [Put(r.op.key, r.op.value)];
      } else if r.op.tag == TAG_DELETE {
        ops := ops + [Delete(r.op.key)];
      } else {
        ParseKeeps(data, pos, numOps - i - 1, raw);
        assert parsed.Some? ==> parsed.value[|raw| - 1] == r.op;
        return None;
      }
    }
    return Some(ops);
  }

  // ------------------------------------------------------------------ the engine's decoder

  /** The engine's own big-endian helpers: bytes shifted and or-ed together. */
  function BigEndianUint16(b: Bytes): nat
    requires |b| >= 2
  {
    0x100 * (b[0] as nat) + b[1]
  }

  function BigEndianUint32(b: Bytes): nat
    requires |b| >= 4
  {
    0x100_0000 * (b[0] as nat) + 0x1_0000 * (b[1] as nat) + 0x100 * (b[2] as nat) + b[3]
  }

  datatype LocalRead = LocalRead(op: LocalOp, next: nat) | LocalMalformed

  /** The engine's reading of one operation, field after field. */
  function ReadLocal(data: Bytes, pos: nat): (r: LocalRead)
    ensures r.LocalRead? ==> pos < r.next <= |data|
  {
    if pos + 1 > |data| then LocalMalformed else
    var lenAt := pos + 1;
    if lenAt + 2 > |data| then LocalMalformed else
    var keyLen, keyAt := BigEndianUint16(data[lenAt..lenAt + 2]), lenAt + 2;
    if keyAt + keyLen > |data| then LocalMalformed else
    var valLenAt := keyAt + keyLen;
    if valLenAt + 4 > |data| then LocalMalformed else
    var valLen, valueAt := BigEndianUint32(data[valLenAt..valLenAt + 4]), valLenAt + 4;
    if valueAt + valLen > |data| then LocalMalformed else
    var next := valueAt + valLen;
    LocalRead(LocalOp(data[pos] == 2, data[keyAt..valLenAt], data[valueAt..next]), next)
  }

  /** n operations from position pos on; a type that is not a delete is a put. */
  function LocalOps(data: Bytes, pos: nat, n: nat): Option<seq<LocalOp>>
    decreases n
  {
    if n == 0 then Some([]) else
    match ReadLocal(data, pos)
    case LocalMalformed => None
    case LocalRead(op, next) =>
      match LocalOps(data, next, n - 1)
      case None => None
      case Some(rest) => Some([op] + rest)
  }

  /** What the engine's decoder accepts, and as what. */
  function LocalDecoding(data: Bytes): Option<seq<LocalOp>> {
    if |data| < 2 then None else LocalOps(data, 2, BigEndianUint16(data[0..2]))
  }

  /** The loop goes on from what it has. */
  function Onto(done: seq<LocalOp>, rest: Option<seq<LocalOp>>): Option<seq<LocalOp>> {
    match rest
    case None => None
    case Some(ops) => Some(done + ops)
  }

  method ReadLocalOp(data: Bytes, start: nat) returns (r: LocalRead)
    ensures r == ReadLocal(data, start)
  {
    hide BigEndianUint16, BigEndianUint32;
    var pos := start;
    if pos + 1 > |data| {
      return LocalMalformed;
    }
    var opType := data[pos];
    pos := pos + 1;
    if pos + 2 > |data| {
      return LocalMalformed;
    }
    var keyLen := BigEndianUint16(data[pos..pos + 2]);
    pos := pos + 2;
    if pos + keyLen > |data| {
      return LocalMalformed;
    }
    var key := data[pos..pos + keyLen];
    pos := pos + keyLen;
    if pos + 4 > |data| {
      return LocalMalformed;
    }
    var valLen := BigEndianUint32(data[pos..pos + 4]);
    pos := pos + 4;
    if pos + valLen > |data| {
      return LocalMalformed;
    }
    var value := data[pos..pos + valLen];
    pos := pos + valLen;
    return LocalRead(LocalOp(opType == 2, key, value), pos);
  }

  method DecodeBatchLocal(data: Bytes) returns (batch: Option<seq<LocalOp>>)
    ensures batch == LocalDecoding(data)
  {
    hide BigEndianUint16, ReadLocal, Onto;
    if |data| < 2 {
      return None;
    }
    var pos: nat := 0;
    var numOps := BigEndianUint16(data[pos..pos + 2]);
    pos := pos + 2;
    var ops: seq<LocalOp> := [];
    OntoNothing(LocalOps(data, pos, numOps), []);
    for i := 0 to numOps
      invariant LocalDecoding(data) == Onto(ops, LocalOps(data, pos, numOps - i))
    {
      OntoNothing(LocalOps(data, pos, numOps - i), ops);
      var r := ReadLocalOp(data, pos);
      if r.LocalMalformed? {
        return None;
      }
      OntoStep(ops, r.op, LocalOps(data, r.next, numOps - i - 1));
      pos := r.next;
      ops := ops + [r.op];
    }
    OntoNothing(Some([]), ops);
    return Some(ops);
  }

  lemma OntoNothing(rest: Option<seq<LocalOp>>, done: seq<LocalOp>)
    ensures Onto([], rest) == rest && Onto(done, None) == None && Onto(done, Some([])) == Some(done)
  {
    assert done + [] == done;
    if rest.Some? {
      assert [] + rest.value == rest.value;
    }
  }

  lemma OntoStep(done: seq<LocalOp>, op: LocalOp, rest: Option<seq<LocalOp>>)
    ensures match rest
      case None => true
      case Some(ops) => Onto(done, Some([op] + ops)) == Onto(done + [op], rest)
    ensures rest.None? ==> Onto(done + [op], rest) == None
  {
    if rest.Some? {
      assert done + ([op] + rest.value) == done + [op] + rest.value;
    }
  }

  // ------------------------------------------------------------------ the two decoders

  /** Both helpers read the same numbers. */
  lemma SameNumbers(data: Bytes, pos: nat)
    ensures pos + 2 <= |data| ==> BigEndianUint16(data[pos..pos + 2]) == BEAt(data, pos, 2)
    ensures pos + 4 <= |data| ==> BigEndianUint32(data[pos..pos + 4]) == BEAt(data, pos, 4)
  {
    if pos + 2 <= |data| {
      TwoBytes(data[pos..pos + 2]);
    }
    if pos + 4 <= |data| {
      FourBytes(data[pos..pos + 4]);
    }
  }

  lemma TwoBytes(b: Bytes)
    requires |b| == 2
    ensures FromBE(b) == BigEndianUint16(b)
  {
    assert FromBEUpTo(b, 1) == b[0];
  }

  lemma FourBytes(b: Bytes)
    requires |b| == 4
    ensures FromBE(b) == BigEndianUint32(b)
  {
    assert FromBEUpTo(b, 1) == b[0];
    assert FromBEUpTo(b, 2) == 0x100 * (b[0] as nat) + b[1];
    assert FromBEUpTo(b, 3) == 0x1_0000 * (b[0] as nat) + 0x100 * (b[1] as nat) + b[2];
  }

  /** One operation: the two readers stop at the same bytes or read the same fields. */
  lemma SameFields(data: Bytes, pos: nat)
    requires pos <= |data|
    ensures match ParseOp(data, pos)
      case Malformed => ReadLocal(data, pos).LocalMalformed?
      case Parsed(op, size) =>
        ReadLocal(data, pos) == LocalRead(LocalOp(op.tag == TAG_DELETE, op.key, op.value), pos + size)
  {
    hide BEAt, BigEndianUint16, BigEndianUint32;
    SameNumbers(data, pos + 1);
    if pos + 3 <= |data| {
      SameNumbers(data, pos + 3 + BEAt(data, pos + 1, 2));
    }
  }

  /** The same operations as the engine returns them. */
  ghost predicate SameOps(raw: seq<RawOp>, local: seq<LocalOp>) {
    && |raw| == |local|
    && forall i :: 0 <= i < |raw| ==> local[i] == LocalOp(raw[i].tag == TAG_DELETE, raw[i].key, raw[i].value)
  }

  /** All operations, however many: the readers accept the same bytes and read the same fields. */
  lemma {:induction false} SameReading(data: Bytes, pos: nat, n: nat, done: seq<RawOp>)
    requires pos <= |data|
    ensures match ParseOps(data, pos, n, done)
      case None => LocalOps(data, pos, n).None?
      case Some(raw) =>
        && |raw| >= |done| && raw[..|done|] == done
        && LocalOps(data, pos, n).Some? && SameOps(raw[|done|..], LocalOps(data, pos, n).value)
    decreases n
  {
    hide ParseOp, ReadLocal;
    SameFields(data, pos);
    if n > 0 && ParseOp(data, pos).Parsed? {
      var d := ParseOp(data, pos);
      SameReading(data, pos + d.size, n - 1, done + [d.op]);
      var all := ParseOps(data, pos, n, done);
      if all.Some? {
        SameStep(all.value, done, d.op, LocalOps(data, pos + d.size, n - 1).value);
      }
    }
  }

  lemma SameStep(raw: seq<RawOp>, done: seq<RawOp>, op: RawOp, rest: seq<LocalOp>)
    requires |raw| >= |done| + 1 && raw[..|done| + 1] == done + [op] && SameOps(raw[|done| + 1..], rest)
    ensures raw[..|done|] == done && SameOps(raw[|done|..], [LocalOp(op.tag == TAG_DELETE, op.key, op.value)] + rest)
  {
    assert raw[..|done| + 1][..|done|] == raw[..|done|];
    assert raw[..|done| + 1][|done|] == raw[|done|];
    assert raw[|done|..][1..] == raw[|done| + 1..];
    assert raw[|done|..] == [op] + raw[|done| + 1..];
  }

  /** The decoders agree on what both accept, and the engine's accepts whatever the other one
      does; it accepts more exactly when some operation has an unknown type byte. */
  lemma LocalAcceptsWhatBatchDoes(data: Bytes)
    ensures BatchDecoding(data).Some? ==>
      LocalDecoding(data).Some? && Agree(BatchDecoding(data).value, LocalDecoding(data).value)
    ensures LocalDecoding(data).Some? && BatchDecoding(data).None?
      <==> ParseBatch(data).Some? && !AllKnown(ParseBatch(data).value)
  {
    hide ParseOps, LocalOps, BEAt, BigEndianUint16;
    if |data| >= 2 {
      SameNumbers(data, 0);
      SameReading(data, 2, BEAt(data, 0, 2), []);
      var all := ParseBatch(data);
      if all.Some? {
        assert all.value[0..] == all.value;
      }
    }
  }

  /** Same keys and kinds in order, and the same values of puts. */
  ghost predicate Agree(batch: seq<BatchOp>, local: seq<LocalOp>) {
    && |batch| == |local|
    && forall i :: 0 <= i < |batch| ==>
         && batch[i].key == local[i].key
         && (batch[i].Delete? <==> local[i].isDelete)
         && (batch[i].Put? ==> batch[i].value == local[i].value)
  }

  // ------------------------------------------------------------------ the round trip

  lemma RawFields(r: RawOp, data: Bytes, pos: nat)
    requires pos + RawSize(r) <= |data| && data[pos..pos + RawSize(r)] == RawBytes(r)
    ensures data[pos] == r.tag
    ensures data[pos + 1..pos + 3] == BE(|r.key|, 2)
    ensures data[pos + 3..pos + 3 + |r.key|] == r.key
    ensures data[pos + 3 + |r.key|..pos + 7 + |r.key|] == BE(|r.value|, 4)
    ensures data[pos + 7 + |r.key|..pos + RawSize(r)] == r.value
  {
    var b, n := RawBytes(r), |r.key|;
    assert b[0] == r.tag && b[1..3] == BE(n, 2) && b[3..3 + n] == r.key;
    assert b[3 + n..7 + n] == BE(|r.value|, 4) && b[7 + n..] == r.value;
    Sub(data, pos, b, 1, 3);
    Sub(data, pos, b, 3, 3 + n);
    Sub(data, pos, b, 3 + n, 7 + n);
    Sub(data, pos, b, 7 + n, |b|);
  }

  lemma Sub(data: Bytes, pos: nat, b: Bytes, i: nat, j: nat)
    requires pos + |b| <= |data| && data[pos..pos + |b|] == b && i <= j <= |b|
    ensures data[pos + i..pos + j] == b[i..j]
    ensures |b| > 0 ==> data[pos] == b[0]
  {
    SliceOfSlice(data, pos, pos + |b|, i, j);
    assert |b| > 0 ==> data[pos..pos + |b|][0] == b[0];
  }

  lemma ParseFields(data: Bytes, pos: nat, r: RawOp)
    requires pos + RawSize(r) <= |data|
    requires data[pos] == r.tag && BEAt(data, pos + 1, 2) == |r.key| && data[pos + 3..pos + 3 + |r.key|] == r.key
    requires BEAt(data, pos + 3 + |r.key|, 4) == |r.value| && data[pos + 7 + |r.key|..pos + RawSize(r)] == r.value
    ensures ParseOp(data, pos) == Parsed(r, RawSize(r))
  {
  }

  lemma ParsedLengths(data: Bytes, pos: nat)
    requires pos <= |data|
    ensures match ParseOp(data, pos)
      case Malformed => true
      case Parsed(op, _) =>
        && pos + 7 + |op.key| <= |data|
        && |op.key| == BEAt(data, pos + 1, 2)
        && |op.value| == BEAt(data, pos + 3 + |op.key|, 4)
  {
  }

  lemma RawLengths(r: RawOp, data: Bytes, pos: nat)
    requires pos + RawSize(r) <= |data| && data[pos..pos + RawSize(r)] == RawBytes(r)
    ensures BEAt(data, pos + 1, 2) == |r.key| % 0x1_0000
    ensures BEAt(data, pos + 3 + |r.key|, 4) == |r.value| % 0x1_0000_0000
  {
    RawFields(r, data, pos);
    Pow256Values();
    BEReads(data, pos + 1, 2, |r.key|);
    BEReads(data, pos + 3 + |r.key|, 4, |r.value|);
  }

  /** One operation reads back when its lengths fit their fields; otherwise whatever is read
      differs from it in a length. */
  lemma ParseOfRaw(op: BatchOp, data: Bytes, pos: nat)
    requires pos + RawSize(Raw(op)) <= |data| && data[pos..pos + RawSize(Raw(op))] == RawBytes(Raw(op))
    ensures OpFits(op) ==> ParseOp(data, pos) == Parsed(Raw(op), RawSize(Raw(op)))
    ensures !OpFits(op) && ParseOp(data, pos).Parsed? ==> Differs(ParseOp(data, pos).op, op)
  {
    hide ParseOp, BE, BEAt, RawBytes;
    RawLengths(Raw(op), data, pos);
    ParsedLengths(data, pos);
    if OpFits(op) {
      RawFields(Raw(op), data, pos);
      ParseFields(data, pos, Raw(op));
    }
  }

  predicate Differs(r: RawOp, op: BatchOp) {
    if |op.key| >= 0x1_0000 then |r.key| != |op.key| else |r.value| != |Raw(op).value|
  }

  function Raws(ops: seq<BatchOp>): seq<RawOp> {
    seq(|ops|, i requires 0 <= i < |ops| => Raw(ops[i]))
  }

  lemma FirstPart(ops: seq<BatchOp>, data: Bytes, pos: nat)
    requires ops != [] && pos <= |data| && data[pos..] == Flatten(OpParts(ops))
    ensures var n := RawSize(Raw(ops[0]));
      && pos + n <= |data|
      && data[pos..pos + n] == RawBytes(Raw(ops[0]))
      && data[pos + n..] == Flatten(OpParts(ops[1..]))
  {
    var part, tail := RawBytes(Raw(ops[0])), Flatten(OpParts(ops[1..]));
    assert OpParts(ops)[1..] == OpParts(ops[1..]);
    assert data[pos..] == part + tail;
    assert data[pos..pos + |part|] == data[pos..][..|part|] == part;
    assert data[pos + |part|..] == data[pos..][|part|..] == tail;
  }

  lemma {:induction false} ParseOfParts(ops: seq<BatchOp>, data: Bytes, pos: nat, done: seq<RawOp>)
    requires pos <= |data| && data[pos..] == Flatten(OpParts(ops))
    requires forall i :: 0 <= i < |ops| ==> OpFits(ops[i])
    ensures ParseOps(data, pos, |ops|, done) == Some(done + Raws(ops))
    decreases |ops|
  {
    hide ParseOp;
    if ops != [] {
      var r := Raw(ops[0]);
      FirstPart(ops, data, pos);
      ParseOfRaw(ops[0], data, pos);
      ParseOfParts(ops[1..], data, pos + RawSize(r), done + [r]);
      assert done + Raws(ops) == done + [r] + Raws(ops[1..]);
    } else {
      assert done + Raws(ops) == done;
    }
  }

  lemma {:induction false} ParseOfUnfit(ops: seq<BatchOp>, data: Bytes, pos: nat, done: seq<RawOp>, k: nat)
    requires pos <= |data| && data[pos..] == Flatten(OpParts(ops))
    requires k < |ops| && !OpFits(ops[k]) && forall i :: 0 <= i < k ==> OpFits(ops[i])
    ensures match ParseOps(data, pos, |ops|, done)
      case None => true
      case Some(raw) => |raw| == |done| + |ops| && Differs(raw[|done| + k], ops[k])
    decreases k
  {
    hide ParseOp;
    FirstPart(ops, data, pos);
    ParseOfRaw(ops[0], data, pos);
    if k > 0 {
      ParseOfUnfit(ops[1..], data, pos + RawSize(Raw(ops[0])), done + [Raw(ops[0])], k - 1);
    } else if ParseOp(data, pos).Parsed? {
      var d := ParseOp(data, pos);
      ParseKeeps(data, pos + d.size, |ops| - 1, done + [d.op]);
    }
  }

  lemma FirstUnfit(ops: seq<BatchOp>) returns (k: nat)
    requires exists i :: 0 <= i < |ops| && !OpFits(ops[i])
    ensures k < |ops| && !OpFits(ops[k]) && forall i :: 0 <= i < k ==> OpFits(ops[i])
  {
    k := 0;
    while OpFits(ops[k])
      invariant k < |ops| && forall i :: 0 <= i < k ==> OpFits(ops[i])
      invariant exists i :: k <= i < |ops| && !OpFits(ops[i])
      decreases |ops| - k
    {
      k := k + 1;
    }
  }

  lemma EncodedLayout(ops: seq<BatchOp>)
    ensures var data := Encoded(ops);
      |data| >= 2 && BEAt(data, 0, 2) == |ops| % 0x1_0000 && data[2..] == Flatten(OpParts(ops))
  {
    assert Encoded(ops)[0..2] == BE(|ops|, 2);
    BEReads(Encoded(ops), 0, 2, |ops|);
    Pow256Values();
  }

  lemma FittingBatch(ops: seq<BatchOp>, data: Bytes)
    requires |data| >= 2 && BEAt(data, 0, 2) == |ops| && data[2..] == Flatten(OpParts(ops))
    requires forall i :: 0 <= i < |ops| ==> OpFits(ops[i])
    ensures BatchDecoding(data) == Some(ops)
  {
    ParseOfParts(ops, data, 2, []);
    assert [] + Raws(ops) == Raws(ops);
    assert AllKnown(Raws(ops)) && ToBatchOps(Raws(ops)) == ops;
  }

  lemma UnfitBatch(ops: seq<BatchOp>, data: Bytes)
    requires |data| >= 2 && BEAt(data, 0, 2) == |ops| && data[2..] == Flatten(OpParts(ops))
    requires exists i :: 0 <= i < |ops| && !OpFits(ops[i])
    ensures BatchDecoding(data) != Some(ops)
  {
    var k := FirstUnfit(ops);
    ParseOfUnfit(ops, data, 2, [], k);
    match ParseOps(data, 2, |ops|, [])
    case None =>
    case Some(raw) => assert ToBatchOp(raw[k]) != ops[k];
  }

  /** Decoding an encoded batch gives the batch back exactly when its operation count, key
      lengths and value lengths fit their fields. */
  lemma BatchRoundTrip(ops: seq<BatchOp>)
    ensures BatchDecoding(Encoded(ops)) == Some(ops) <==> Fits(ops)
  {
    var data := Encoded(ops);
    EncodedLayout(ops);
    if Fits(ops) {
      FittingBatch(ops, data);
    } else if |ops| < 0x1_0000 {
      UnfitBatch(ops, data);
    } else {
      ParseKeeps(data, 2, |ops| % 0x1_0000, []);
    }
  }

  // ------------------------------------------------------------------ nothing else decodes

  function RawParts(raw: seq<RawOp>): (parts: seq<Bytes>)
    ensures |parts| == |raw|
  {
    seq(|raw|, i requires 0 <= i < |raw| => RawBytes(raw[i]))
  }

  lemma OneParsed(data: Bytes, pos: nat)
    requires pos <= |data| && ParseOp(data, pos).Parsed?
    ensures var r := ParseOp(data, pos); data[pos..pos + r.size] == RawBytes(r.op)
  {
    hide BE, FromBE;
    var r := ParseOp(data, pos);
    var k, v := |r.op.key|, |r.op.value|;
    ReadsAsBE(data, pos + 1, 2);
    ReadsAsBE(data, pos + 3 + k, 4);
    FivePieces(data, pos, k, v);
    assert r.op.key == data[pos + 3..pos + 3 + k] && r.op.value == data[pos + 7 + k..pos + 7 + k + v];
    assert BE(k, 2) == data[pos + 1..pos + 3] && BE(v, 4) == data[pos + 3 + k..pos + 7 + k];
  }

  lemma ReadsAsBE(data: Bytes, pos: nat, width: nat)
    requires pos + width <= |data|
    ensures BE(BEAt(data, pos, width), width) == data[pos..pos + width]
  {
    hide BE, FromBE;
    BEOfFromBE(data[pos..pos + width]);
  }

  lemma FivePieces(data: Bytes, pos: nat, k: nat, v: nat)
    requires pos + 7 + k + v <= |data|
    ensures data[pos..pos + 7 + k + v]
      == [data[pos]] + data[pos + 1..pos + 3] + data[pos + 3..pos + 3 + k] + data[pos + 3 + k..pos + 7 + k]
         + data[pos + 7 + k..pos + 7 + k + v]
  {
  }

  lemma {:induction false} ParsedFrom(data: Bytes, pos: nat, n: nat, done: seq<RawOp>)
    requires pos <= |data| && ParseOps(data, pos, n, done).Some?
    requires pos >= |Flatten(RawParts(done))|
    requires data[pos - |Flatten(RawParts(done))|..pos] == Flatten(RawParts(done))
    ensures var all := ParseOps(data, pos, n, done).value; var start := pos - |Flatten(RawParts(done))|;
      && |all| == |done| + n && start + |Flatten(RawParts(all))| <= |data|
      && data[start..start + |Flatten(RawParts(all))|] == Flatten(RawParts(all))
    decreases n
  {
    hide ParseOp, RawBytes, Flatten;
    if n > 0 {
      var r := ParseOp(data, pos);
      OneParsed(data, pos);
      FlattenAppend(RawParts(done), RawBytes(r.op));
      assert RawParts(done + [r.op]) == RawParts(done) + [RawBytes(r.op)];
      var start := pos - |Flatten(RawParts(done))|;
      assert data[start..pos + r.size] == data[start..pos] + data[pos..pos + r.size];
      ParsedFrom(data, pos + r.size, n - 1, done + [r.op]);
    }
  }

  /** What decodes as operations is their count and their bytes, one after another; what stands
      behind them is ignored. */
  lemma DecodesOnlyEncoded(data: Bytes)
    requires ParseBatch(data).Some?
    ensures var raw := ParseBatch(data).value; var bytes := BE(|raw|, 2) + Flatten(RawParts(raw));
      |bytes| <= |data| && data[..|bytes|] == bytes
  {
    hide ParseOps, Flatten, BE, FromBE;
    FlattenNothing();
    assert RawParts([]) == [];
    assert data[2..2] == [];
    BEOfFromBE(data[0..2]);
    ParsedFrom(data, 2, BEAt(data, 0, 2), []);
    var all := Flatten(RawParts(ParseBatch(data).value));
    assert data[..2 + |all|] == data[0..2] + data[2..2 + |all|];
  }
}
