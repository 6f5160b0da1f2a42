/** Stored values: a type tag in front, and the 12-byte pointer into the value log. */
module Values {
  import opened Base
  import opened Endian

  const TYPE_INLINE: Byte := 0
  const TYPE_VALUE_POINTER: Byte := 1
  const TYPE_TOMBSTONE: Byte := 2

  const VALUE_POINTER_SIZE: nat := 12
  const MAX_INLINE_SIZE: nat := 64

  /** The bits of an int64 and of an int32. */
  function ToUint64(x: int): (n: nat)
    requires -0x8000_0000_0000_0000 <= x < 0x8000_0000_0000_0000
    ensures n <= MAX_U64
  {
    if x < 0 then x + 0x1_0000_0000_0000_0000 else x
  }

  function ToInt64(n: nat): int
    requires n <= MAX_U64
  {
    if n < 0x8000_0000_0000_0000 then n else n - 0x1_0000_0000_0000_0000
  }

  /** The sum of int64 values, as 64 bits hold it. */
  function WrapInt64(x: int): int {
    ToInt64(x % 0x1_0000_0000_0000_0000)
  }

  function ToUint32(x: int): (n: nat)
    requires -0x8000_0000 <= x < 0x8000_0000
    ensures n < 0x1_0000_0000
  {
    if x < 0 then x + 0x1_0000_0000 else x
  }

  /** A length cut to 32 bits and read as signed. */
  function ToInt32(n: nat): (x: int)
    ensures -0x8000_0000 <= x < 0x8000_0000
    ensures n < 0x8000_0000 ==> x == n
  {
    var low := n % 0x1_0000_0000;
    if low < 0x8000_0000 then low else low - 0x1_0000_0000
  }

  datatype ValuePointer = ValuePointer(offset: int, size: int)
  {
    predicate InRange() {
      -0x8000_0000_0000_0000 <= offset < 0x8000_0000_0000_0000 && -0x8000_0000 <= size < 0x8000_0000
    }
  }

  function EncodeValuePointer(vp: ValuePointer): (b: Bytes)
    requires vp.InRange()
    ensures |b| == VALUE_POINTER_SIZE
  {
    BE(ToUint64(vp.offset), 8) + BE(ToUint32(vp.size), 4)
  }

  /** Any 12 bytes are a pointer. */
  function DecodeValuePointer(data: Bytes): (r: Option<ValuePointer>)
    ensures r.Some? <==> |data| == VALUE_POINTER_SIZE
  {
    if |data| != VALUE_POINTER_SIZE then None
    else
      Pow256Values();
      Some(ValuePointer(ToInt64(BEAt(data, 0, 8)), ToInt32(BEAt(data, 8, 4))))
  }

  lemma PointerRoundTrip(vp: ValuePointer)
    requires vp.InRange()
    ensures DecodeValuePointer(EncodeValuePointer(vp)) == Some(vp)
  {
    Pow256Values();
    hide BE, BEAt, Pow256;
    var b := EncodeValuePointer(vp);
    assert b[0..8] == BE(ToUint64(vp.offset), 8) && b[8..12] == BE(ToUint32(vp.size), 4);
    BEReads(b, 0, 8, ToUint64(vp.offset));
    BEReads(b, 8, 4, ToUint32(vp.size));
  }

  /** The tagged form of an inline value. */
  function TagInline(value: Bytes): Bytes {
    [TYPE_INLINE] + value
  }
}
