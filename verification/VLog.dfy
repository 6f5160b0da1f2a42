/** The value log: append into a mapped region that grows, checked reads, and the collector
    that moves the live values to a new file. */
module VLog {
  import opened Base
  import opened Endian
  import opened Sorting
  import opened Values

  const VLOG_MAGIC: nat := 0x53434F52
  const VLOG_VERSION: nat := 1
  const HEADER: Bytes := BE(VLOG_MAGIC, 4) + BE(VLOG_VERSION, 4)

  /** size rounded up to a multiple of align. */
  function AlignTo(size: nat, align: nat): (r: nat)
    requires align > 0
    ensures size <= r < size + align && r % align == 0
  {
    if size % align == 0 then size
    else
      Multiple(size / align + 1, align);
      (size / align + 1) * align
  }

  lemma Multiple(q: nat, align: nat)
    requires align > 0
    ensures (q * align) % align == 0
  {
    DivUnique(q * align, align, q, 0);
  }

  /** A record: checksum, length and value. */
  function RecordBytes(crc: Checksum, value: Bytes): (b: Bytes)
    ensures |b| == |value| + 8
  {
    BE(crc(value), 4) + BE(|value|, 4) + value
  }

  /** A checked read. A negative offset or size, or an end beyond the int64 range, on which slicing
      panics, is a failed read. */
  function ReadAt(crc: Checksum, data: Bytes, vp: ValuePointer): (r: Option<Bytes>)
    requires vp.InRange()
    ensures r.Some? ==> vp.offset >= 0 && vp.size > 0 && |r.value| == vp.size && vp.offset + 8 + vp.size <= |data|
  {
    if vp.size == 0 || vp.size < 0 || vp.offset < 0 || vp.offset + 8 + vp.size > |data| then None
    else
      var crcStored, sizeStored := BEAt(data, vp.offset, 4), BEAt(data, vp.offset + 4, 4);
      var value := data[vp.offset + 8..vp.offset + 8 + vp.size];
      if sizeStored != ToUint32(vp.size) || crc(value) != crcStored then None else Some(value)
  }

  /** A read depends on the bytes of its record only. */
  lemma ReadIsLocal(crc: Checksum, a: Bytes, b: Bytes, n: nat, vp: ValuePointer)
    requires vp.InRange() && n <= |a| && n <= |b| && a[..n] == b[..n] && vp.offset + 8 + vp.size <= n
    ensures ReadAt(crc, a, vp) == ReadAt(crc, b, vp)
  {
    if vp.size > 0 && vp.offset >= 0 {
      var o, e := vp.offset, vp.offset + 8 + vp.size;
      SliceOfTake(a, n, o, o + 4);
      SliceOfTake(b, n, o, o + 4);
      SliceOfTake(a, n, o + 4, o + 8);
      SliceOfTake(b, n, o + 4, o + 8);
      SliceOfTake(a, n, o + 8, e);
      SliceOfTake(b, n, o + 8, e);
    }
  }

  /** The pointer that Write returns for a value at an offset. */
  function PointerTo(offset: nat, value: Bytes): ValuePointer {
    ValuePointer(offset, ToInt32(|value|))
  }

  /** A record is read back through its pointer exactly when its length fits a signed 32-bit
      integer and is not zero. */
  lemma RecordReads(crc: Checksum, data: Bytes, offset: nat, value: Bytes)
    requires offset < 0x8000_0000_0000_0000
    requires offset + |value| + 8 <= |data| && data[offset..offset + |value| + 8] == RecordBytes(crc, value)
    ensures ReadAt(crc, data, PointerTo(offset, value)) == Some(value) <==> 0 < |value| < 0x8000_0000
  {
    hide BE, BEAt, Pow256;
    var n := |value|;
    if 0 < n < 0x8000_0000 {
      Pow256Values();
      var b := RecordBytes(crc, value);
      assert b[0..4] == BE(crc(value), 4) && b[4..8] == BE(n, 4) && b[8..8 + n] == value;
      SliceOfSlice(data, offset, offset + n + 8, 0, 4);
      SliceOfSlice(data, offset, offset + n + 8, 4, 8);
      SliceOfSlice(data, offset, offset + n + 8, 8, 8 + n);
      BEReads(data, offset, 4, crc(value));
      BEReads(data, offset + 4, 4, n);
    }
  }

  /** A read answers exactly with a value whose record stands there, length and checksum included. */
  lemma ReadIff(crc: Checksum, data: Bytes, vp: ValuePointer, value: Bytes)
    requires vp.InRange()
    ensures ReadAt(crc, data, vp) == Some(value)
      <==> (vp.offset >= 0 && vp.size == |value| > 0 && vp.offset + |value| + 8 <= |data|
            && data[vp.offset..vp.offset + |value| + 8] == RecordBytes(crc, value))
  {
    hide BE, BEAt, RecordBytes;
    var n := |value|;
    if vp.offset >= 0 && vp.size == n > 0 && vp.offset + n + 8 <= |data| {
      if data[vp.offset..vp.offset + n + 8] == RecordBytes(crc, value) {
        RecordReads(crc, data, vp.offset, value);
        assert PointerTo(vp.offset, value) == vp;
      }
    }
    if ReadAt(crc, data, vp) == Some(value) {
      OnlyTheRecord(crc, data, vp.offset, value);
    }
  }

  lemma OnlyTheRecord(crc: Checksum, data: Bytes, o: nat, value: Bytes)
    requires |value| < 0x8000_0000 && o + |value| + 8 <= |data| && data[o + 8..o + 8 + |value|] == value
    requires BEAt(data, o, 4) == crc(value) && BEAt(data, o + 4, 4) == |value|
    ensures data[o..o + |value| + 8] == RecordBytes(crc, value)
  {
    hide BE, FromBE;
    BEOfFromBE(data[o..o + 4]);
    BEOfFromBE(data[o + 4..o + 8]);
    assert data[o..o + |value| + 8] == data[o..o + 4] + data[o + 4..o + 8] + data[o + 8..o + 8 + |value|];
  }

  /** What OpenVLog works on: a new or a corrupted file starts over with a header. */
  function OpenContents(file: Bytes): Option<Bytes> {
    if file == [] then Some(HEADER)
    else if |file| < 8 then None
    else if file[..8] != HEADER then Some(HEADER)
    else Some(file)
  }

  /** Opening fails exactly on a file too short for a header; else what it works on has the header,
      and it is the file itself exactly when that has it. */
  lemma OpenContentsIff(file: Bytes)
    ensures OpenContents(file).None? <==> 0 < |file| < 8
    ensures OpenContents(file).Some? ==> var c := OpenContents(file).value;
      && |HEADER| == 8 <= |c| && c[..8] == HEADER && (c == file <==> |file| >= 8 && file[..8] == HEADER)
      && (c != file ==> c == HEADER)
  {
    HeaderSize();
  }

  function Sum(ps: seq<ValuePointer>): int {
    if ps == [] then 0 else Sum(ps[..|ps| - 1]) + 8 + ps[|ps| - 1].size
  }

  ghost predicate ByOffset(ps: seq<ValuePointer>) {
    forall i, j :: 0 <= i < j < |ps| ==> ps[i].offset <= ps[j].offset
  }

  ghost predicate Distinct(ps: seq<ValuePointer>) {
    forall i, j :: 0 <= i < j < |ps| ==> ps[i] != ps[j]
  }

  /** ps lists the pointers of live that have a positive size, each once and by offset. */
  ghost predicate Lists(ps: seq<ValuePointer>, live: set<ValuePointer>) {
    Distinct(ps) && ByOffset(ps) && forall p :: p in ps <==> p in live && p.size > 0
  }

  predicate LowerOffset(a: ValuePointer, b: ValuePointer) {
    a.offset < b.offset
  }

  /** The live pointers to stored values, by offset; the set is met in any order. */
  method SortPointers(live: set<ValuePointer>) returns (ps: seq<ValuePointer>)
    ensures Lists(ps, live)
  {
    var found: seq<ValuePointer> := [];
    var rest := live;
    while rest != {}
      invariant rest <= live && Distinct(found)
      invariant forall p :: p in found <==> p in live - rest && p.size > 0
      decreases |rest|
    {
      var p :| p in rest;
      if p.size > 0 {
        found := found + [p];
      }
      rest := rest - {p};
    }
    ps := SortSlice(found, LowerOffset);
    SameElements(ps, found);
    forall i, j | 0 <= i < j < |ps| ensures ps[i] != ps[j] {
      StaysDistinct(ps, found, i, j);
    }
  }

  /** Every pointer of ps leads to the same bytes in the new data through the translation. */
  ghost predicate Moved(crc: Checksum, from: Bytes, to: Bytes, translation: map<ValuePointer, ValuePointer>,
                        ps: seq<ValuePointer>) {
    forall p :: p in ps ==>
      && p in translation && p.InRange() && translation[p].InRange()
      && ReadAt(crc, from, p).Some? && ReadAt(crc, to, translation[p]) == ReadAt(crc, from, p)
  }

  ghost predicate Injective(translation: map<ValuePointer, ValuePointer>) {
    forall p, q :: p in translation && q in translation && p != q ==> translation[p] != translation[q]
  }

  /** Targets lie within the first n bytes. */
  ghost predicate Below(translation: map<ValuePointer, ValuePointer>, n: nat) {
    forall p :: p in translation ==> 0 < translation[p].size && translation[p].offset + 8 + translation[p].size <= n
  }

  /** What three copies into a region leave: r1, r2 and r3 follow r0. */
  lemma ThreeCopies(r0: Bytes, r1: Bytes, r2: Bytes, r3: Bytes, at: nat, size: Bytes, value: Bytes, sum: Bytes)
    requires |size| == |sum| == 4 && at + |value| + 8 <= |r0| == |r1| == |r2| == |r3|
    requires r1[..at + 4] == r0[..at + 4] && r1[at + 4..at + 8] == size
    requires r2[..at + 8] == r1[..at + 8] && r2[at + 8..at + 8 + |value|] == value
    requires r3[..at] == r2[..at] && r3[at..at + 4] == sum && r3[at + 4..] == r2[at + 4..]
    ensures r3[..at + |value| + 8] == r0[..at] + (sum + size + value)
  {
    var end := at + |value| + 8;
    SliceOfTake(r0, at + 4, 0, at);
    SliceOfTake(r1, at + 4, 0, at);
    SliceOfTake(r1, at + 8, 0, at);
    SliceOfTake(r2, at + 8, 0, at);
    assert r3[..at] == r0[..at];
    SliceOfTake(r1, at + 8, at + 4, at + 8);
    SliceOfTake(r2, at + 8, at + 4, at + 8);
    SliceOfDrop(r2, at + 4, 0, 4);
    SliceOfDrop(r3, at + 4, 0, 4);
    SliceOfDrop(r2, at + 4, 4, 4 + |value|);
    SliceOfDrop(r3, at + 4, 4, 4 + |value|);
    FourPieces(r3, at, at + 4, at + 8, end);
  }

  lemma FourPieces(r: Bytes, i: nat, j: nat, k: nat, end: nat)
    requires i <= j <= k <= end <= |r|
    ensures r[..end] == r[..i] + (r[i..j] + r[j..k] + r[k..end])
  {
  }

  /** The length goes in first, then the value, and the checksum last. */
  method PutRecord(crc: Checksum, region: array<Byte>, offset: nat, value: Bytes)
    requires offset + |value| + 8 <= region.Length
    modifies region
    ensures region[..offset + |value| + 8] == old(region[..offset]) + RecordBytes(crc, value)
  {
    hide BE;
    ghost var r0 := region[..];
    var size, sum := BE(|value|, 4), BE(crc(value), 4);
    CopyInto(region, offset + 4, size);
    ghost var r1 := region[..];
    CopyInto(region, offset + 8, value);
    ghost var r2 := region[..];
    CopyInto(region, offset, sum);
    ThreeCopies(r0, r1, r2, region[..], offset, size, value, sum);
  }

  class VLog {
    const crc: Checksum
    const extendSize: nat
    /** The mapped region, which the read mapping shares. */
    var writeData: array<Byte>
    var dataSize: nat
    var mmapSize: nat
    var closed: bool

    ghost predicate Valid()
      reads this
    {
      extendSize > 0 && dataSize <= mmapSize == writeData.Length && mmapSize < 0x8000_0000_0000_0000
    }

    /** What has been written. */
    ghost function Log(): Bytes
      requires Valid()
      reads this, writeData
    {
      writeData[..dataSize]
    }

    /** Opening reserves at least one extension beyond nothing, zero-filled. */
    constructor (crc: Checksum, extendSize: nat, contents: Bytes)
      requires 0 < extendSize < 0x4000_0000_0000_0000 && |contents| < 0x4000_0000_0000_0000
      ensures Valid() && fresh(writeData) && !closed && Log() == contents
      ensures this.crc == crc && this.extendSize == extendSize && mmapSize % extendSize == 0 && mmapSize >= extendSize
    {
      this.crc, this.extendSize, closed := crc, extendSize, false;
      var size := AlignTo(|contents|, extendSize);
      if size < extendSize {
        size := extendSize;
      }
      var region := new Byte[size](_ => 0);
      writeData, dataSize, mmapSize := region, |contents|, size;
      new;
      CopyInto(region, 0, contents);
    }

    /** A new and larger mapping of the same file. */
    method ExtendMmap(newDataSize: nat)
      requires Valid() && mmapSize < newDataSize < 0x4000_0000_0000_0000 && extendSize < 0x4000_0000_0000_0000
      modifies this
      ensures Valid() && fresh(writeData) && mmapSize == AlignTo(newDataSize, extendSize) && dataSize == old(dataSize)
      ensures writeData[..old(mmapSize)] == old(writeData[..]) && closed == old(closed)
    {
      var newMmapSize := AlignTo(newDataSize, extendSize);
      var region := new Byte[newMmapSize](_ => 0);
      CopyInto(region, 0, writeData[..]);
      writeData, mmapSize := region, newMmapSize;
    }

    /** Appends a record for a value above the inline limit; smaller ones get the zero pointer. */
    method Write(value: Bytes) returns (vp: ValuePointer, ok: bool)
      requires Valid() && dataSize + |value| + 8 < 0x4000_0000_0000_0000 && extendSize < 0x4000_0000_0000_0000
      modifies this, writeData
      ensures Valid() && closed == old(closed) && (writeData == old(writeData) || fresh(writeData))
      ensures ok == (|value| <= MAX_INLINE_SIZE || !closed)
      ensures |value| <= MAX_INLINE_SIZE || !ok ==> Log() == old(Log()) && vp == ValuePointer(0, 0)
      ensures |value| > MAX_INLINE_SIZE && ok ==>
        Log() == old(Log()) + RecordBytes(crc, value) && vp == PointerTo(old(dataSize), value)
    {
      if |value| <= MAX_INLINE_SIZE {
        return ValuePointer(0, 0), true;
      }
      if closed {
        return ValuePointer(0, 0), false;
      }
      hide RecordBytes;
      ghost var log := Log();
      var totalSize := 8 + |value|;
      var newDataSize := dataSize + totalSize;
      if newDataSize > mmapSize {
        ExtendMmap(newDataSize);
        SliceOfTake(writeData[..], old(mmapSize), 0, dataSize);
      }
      assert writeData[..dataSize] == log;
      var offset := dataSize;
      PutRecord(crc, writeData, offset, value);
      dataSize := newDataSize;
      return PointerTo(offset, value), true;
    }

    method Read(vp: ValuePointer) returns (value: Option<Bytes>)
      requires Valid() && vp.InRange()
      ensures value == if closed then None else ReadAt(crc, writeData[..], vp)
    {
      if vp.size == 0 || closed {
        return None;
      }
      return ReadAt(crc, writeData[..], vp);
    }

    /** The collector: copies every live value to a new file and swaps it in. It fails, and
        changes nothing, exactly when the log is closed or some live value cannot be read. */
    method GC(live: set<ValuePointer>)
      returns (ok: bool, translation: map<ValuePointer, ValuePointer>, ghost moved: seq<ValuePointer>)
      requires Valid() && forall p :: p in live ==> p.InRange()
      requires FitsFile(live)
      modifies this
      ensures Valid() && closed == old(closed) && Lists(moved, live)
      ensures ok <==> !closed && forall p :: p in moved ==> ReadAt(crc, old(writeData[..]), p).Some?
      ensures !ok ==>
        translation == map[] && writeData == old(writeData) && dataSize == old(dataSize) && mmapSize == old(mmapSize)
      ensures ok ==> fresh(writeData) && dataSize == mmapSize == 8 + Sum(moved)
      ensures ok ==> Moved(crc, old(writeData[..]), writeData[..], translation, moved) && Injective(translation)
      ensures ok ==> forall p :: p in translation <==> p in live && p.size > 0
    {
      hide ReadAt, BE, Injective, Moved, Below, Sum;
      var pointers := SortPointers(live);
      moved := pointers;
      assert 8 + Sum(pointers) < 0x8000_0000_0000_0000;
      if closed {
        return false, map[], moved;
      }
      ghost var before := writeData[..];
      var file := HEADER;
      assert |HEADER| == 8 by { HeaderSize(); }
      translation := map[];
      NothingMoved(crc, before, file);
      SumEmpty();
      for i := 0 to |pointers|
        invariant writeData[..] == before && writeData == old(writeData) && Valid() && dataSize == old(dataSize)
        invariant !closed
        invariant |file| == 8 + Sum(pointers[..i])
        invariant Moved(crc, before, file, translation, pointers[..i]) && Injective(translation)
        invariant Below(translation, |file|)
        invariant forall p :: p in translation <==> p in pointers[..i]
        invariant forall p :: p in pointers[..i] ==> ReadAt(crc, before, p).Some?
        invariant mmapSize == old(mmapSize)
      {
        var vp := pointers[i];
        assert vp in live;
        var value := ReadAt(crc, writeData[..], vp);
        if value.None? {
          assert pointers[i] in moved;
          return false, map[], moved;
        }
        SumStep(pointers, i);
        SumBound(pointers, i + 1);
        MoveOne(crc, before, file, translation, pointers, i, value.value);
        translation := translation[vp := ValuePointer(|file|, vp.size)];
        file := file + (BE(crc(value.value), 4) + BE(|value.value|, 4) + value.value);
        assert pointers[..i + 1] == pointers[..i] + [vp];
      }
      assert pointers[..|pointers|] == pointers;
      SumBound(pointers, |pointers|);
      var region := new Byte[|file|](_ => 0);
      CopyInto(region, 0, file);
      writeData, dataSize, mmapSize := region, |file|, |file|;
      assert region[..] == file;
      return true, translation, moved;
    }
  }

  lemma HeaderSize()
    ensures |HEADER| == 8
  {
  }

  lemma SumEmpty()
    ensures Sum([]) == 0
  {
  }

  lemma NothingMoved(crc: Checksum, from: Bytes, to: Bytes)
    ensures Moved(crc, from, to, map[], []) && Injective(map[]) && Below(map[], |to|)
  {
  }

  lemma SumStep(ps: seq<ValuePointer>, i: nat)
    requires i < |ps|
    ensures Sum(ps[..i + 1]) == Sum(ps[..i]) + 8 + ps[i].size
  {
    assert ps[..i + 1][..i] == ps[..i];
  }

  lemma {:induction false} SumBound(ps: seq<ValuePointer>, i: nat)
    requires i <= |ps| && forall p :: p in ps ==> p.size > 0
    ensures 0 <= Sum(ps[..i]) <= Sum(ps)
    decreases |ps| - i
  {
    if i < |ps| {
      SumStep(ps, i);
      SumBound(ps, i + 1);
    } else {
      assert ps[..i] == ps;
    }
    SumPositive(ps, i);
  }

  lemma {:induction false} SumPositive(ps: seq<ValuePointer>, i: nat)
    requires i <= |ps| && forall p :: p in ps ==> p.size > 0
    ensures 0 <= Sum(ps[..i])
  {
    if i > 0 {
      SumPositive(ps, i - 1);
      SumStep(ps, i - 1);
    }
  }

  /** The file of the live values stays within the range of file offsets. */
  ghost predicate FitsFile(live: set<ValuePointer>) {
    forall ps :: Lists(ps, live) ==> 8 + Sum(ps) < 0x8000_0000_0000_0000
  }

  /** One value moved: it reads back at its new place, and the ones moved before still do. */
  lemma MoveOne(crc: Checksum, from: Bytes, to: Bytes, translation: map<ValuePointer, ValuePointer>,
                ps: seq<ValuePointer>, i: nat, value: Bytes)
    requires Distinct(ps) && i < |ps| && ps[i].InRange() && |to| + 8 + ps[i].size < 0x8000_0000_0000_0000
    requires ReadAt(crc, from, ps[i]) == Some(value)
    requires Moved(crc, from, to, translation, ps[..i]) && Injective(translation) && Below(translation, |to|)
    requires forall p :: p in translation <==> p in ps[..i]
    ensures var t, f := translation[ps[i] := ValuePointer(|to|, ps[i].size)], to + RecordBytes(crc, value);
      Moved(crc, from, f, t, ps[..i + 1]) && Injective(t) && Below(t, |f|)
  {
    var vp := ps[i];
    var t, f := translation[vp := ValuePointer(|to|, vp.size)], to + RecordBytes(crc, value);
    assert f[|to|..|to| + |value| + 8] == RecordBytes(crc, value);
    RecordReads(crc, f, |to|, value);
    assert vp !in ps[..i];
    forall p | p in ps[..i + 1]
      ensures p in t && p.InRange() && t[p].InRange() && ReadAt(crc, from, p).Some?
      ensures ReadAt(crc, f, t[p]) == ReadAt(crc, from, p)
    {
      if p != vp {
        assert p in ps[..i];
        ReadIsLocal(crc, to, f, |to|, t[p]);
      }
    }
  }

  // ------------------------------------------------------------------ runs

  function LogAfter(crc: Checksum, log: Bytes, values: seq<Bytes>): Bytes {
    if values == [] then log else LogAfter(crc, log, values[..|values| - 1]) + RecordBytes(crc, values[|values| - 1])
  }

  lemma {:induction false} LogGrows(crc: Checksum, log: Bytes, values: seq<Bytes>, i: nat)
    requires i <= |values|
    ensures LogAfter(crc, log, values[..i]) <= LogAfter(crc, log, values)
    decreases |values| - i
  {
    if i < |values| {
      var n := |values| - 1;
      LogGrows(crc, log, values[..n], i);
      assert values[..n][..i] == values[..i];
    } else {
      assert values[..i] == values;
    }
  }

  /** Over a whole run, every pointer keeps reading exactly its value, whatever the region
      beyond the log holds, exactly when the length of that value fits 31 bits. */
  lemma RunKeepsValues(crc: Checksum, log: Bytes, values: seq<Bytes>, i: nat, data: Bytes)
    requires i < |values| && values[i] != [] && LogAfter(crc, log, values) <= data && |data| < 0x8000_0000_0000_0000
    ensures |LogAfter(crc, log, values[..i])| <= |data|
    ensures ReadAt(crc, data, PointerTo(|LogAfter(crc, log, values[..i])|, values[i])) == Some(values[i])
      <==> |values[i]| < 0x8000_0000
  {
    hide RecordBytes, ReadAt, PointerTo;
    LogGrows(crc, log, values, i);
    LogGrows(crc, log, values, i + 1);
    var before, after := LogAfter(crc, log, values[..i]), LogAfter(crc, log, values[..i + 1]);
    assert values[..i + 1][..i] == values[..i];
    assert after == before + RecordBytes(crc, values[i]);
    assert data[|before|..|before| + |values[i]| + 8] == RecordBytes(crc, values[i]);
    RecordReads(crc, data, |before|, values[i]);
  }

  /** Reopening the file, padding included, reads every pointer as before. */
  lemma ReopenKeepsReads(crc: Checksum, file: Bytes, region: Bytes, vp: ValuePointer)
    requires |file| >= 8 && file[..8] == HEADER && file <= region && vp.InRange() && vp.offset + 8 + vp.size <= |file|
    ensures OpenContents(file) == Some(file)
    ensures ReadAt(crc, region, vp) == ReadAt(crc, file, vp)
  {
    ReadIsLocal(crc, region, file, |file|, vp);
  }
}
