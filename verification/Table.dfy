/** The file of an SSTable: blocks, index, Bloom filter, key bounds and footer, and opening it. */
module Table {
  import opened Base
  import opened Bloom
  import opened Endian
  import opened Format
  import opened Keys

  const MAGIC: nat := 0x53434F5249415F53
  const FOOTER_SIZE: nat := 80

  /** A block: the user key of its first entry and its serialized entries. */
  datatype Block = Block(firstKey: Bytes, data: Bytes)

  datatype IndexEntry = IndexEntry(key: Bytes, offset: nat)

  /** What Finish writes. A nil key bound is written like an empty one. */
  datatype Image = Image(blocks: seq<Block>, bloom: Filter, minKey: Bytes, maxKey: Bytes, numKeys: nat)

  function OnDisk(crc: Checksum, data: Bytes): (b: Bytes)
    ensures |b| == |data| + 8
  {
    LE(|data|, 4) + data + LE(crc(data), 4)
  }

  function BlockParts(crc: Checksum, blocks: seq<Block>): seq<Bytes> {
    seq(|blocks|, i requires 0 <= i < |blocks| => OnDisk(crc, blocks[i].data))
  }

  function BlockOffset(crc: Checksum, blocks: seq<Block>, i: nat): nat
    requires i <= |blocks|
  {
    |Joined(BlockParts(crc, blocks), i)|
  }

  function IndexOf(crc: Checksum, blocks: seq<Block>): seq<IndexEntry> {
    seq(|blocks|, i requires 0 <= i < |blocks| => IndexEntry(blocks[i].firstKey, BlockOffset(crc, blocks, i)))
  }

  function IndexBytes(e: IndexEntry): (b: Bytes)
    ensures |b| == |e.key| + 12
  {
    LE(|e.key|, 4) + e.key + LE(e.offset, 8)
  }

  function IndexParts(index: seq<IndexEntry>): seq<Bytes> {
    seq(|index|, i requires 0 <= i < |index| => IndexBytes(index[i]))
  }

  /** A byte string with its length in front. */
  function Counted(b: Bytes): (r: Bytes)
    ensures |r| == |b| + 4
  {
    LE(|b|, 4) + b
  }

  function BlockSection(crc: Checksum, im: Image): Bytes {
    Joined(BlockParts(crc, im.blocks), |im.blocks|)
  }

  function IndexSection(crc: Checksum, im: Image): Bytes {
    Joined(IndexParts(IndexOf(crc, im.blocks)), |im.blocks|)
  }

  /** The fields of the footer. The offset does not move past the min key, so the max key is
      given the offset of the min key. */
  function FooterFields(crc: Checksum, im: Image): (f: seq<nat>)
    ensures |f| == 10
  {
    var indexStart := |BlockSection(crc, im)|;
    var bloomStart := indexStart + |IndexSection(crc, im)|;
    var minStart := bloomStart + |Counted(Encoded(im.bloom))|;
    [indexStart, bloomStart - indexStart, bloomStart, minStart - bloomStart, im.numKeys, MAGIC,
     minStart, |im.minKey|, minStart, |im.maxKey|]
  }

  function FieldParts(fields: seq<nat>): seq<Bytes> {
    seq(|fields|, i requires 0 <= i < |fields| => LE(fields[i], 8))
  }

  function FooterBytes(fields: seq<nat>): Bytes {
    Joined(FieldParts(fields), |fields|)
  }

  function Sections(crc: Checksum, im: Image): (s: seq<Bytes>)
    ensures |s| == 6
  {
    [BlockSection(crc, im), IndexSection(crc, im), Counted(Encoded(im.bloom)), Counted(im.minKey), Counted(im.maxKey),
     FooterBytes(FooterFields(crc, im))]
  }

  function FileOf(crc: Checksum, im: Image): Bytes {
    Joined(Sections(crc, im), 6)
  }

  /** Every length fits its field and the file is within the range of offsets. */
  ghost predicate ImageFits(crc: Checksum, im: Image) {
    && (forall i :: 0 <= i < |im.blocks| ==>
          |im.blocks[i].data| < 0x1_0000_0000 && |im.blocks[i].firstKey| < 0x1_0000_0000)
    && im.bloom.Valid() && |Encoded(im.bloom)| < 0x1_0000_0000
    && |im.minKey| < 0x1_0000_0000 && |im.maxKey| < 0x1_0000_0000
    && im.numKeys <= MAX_U64 && |FileOf(crc, im)| < 0x8000_0000_0000_0000
  }

  // ------------------------------------------------------------------ opening

  /** What Open keeps. A key bound that is nil is empty here: the range filter treats both alike. */
  datatype Opened = Opened(data: Bytes, index: seq<IndexEntry>, bloom: Filter, minKey: Bytes, maxKey: Bytes,
                           numKeys: nat)

  function FooterField(data: Bytes, i: nat): nat
    requires |data| >= FOOTER_SIZE && i < 10
  {
    LEAt(data, |data| - FOOTER_SIZE + i * 8, 8)
  }

  /** The index from pos on; None when it is truncated. */
  function ParseIndexFrom(data: Bytes, pos: nat): Option<seq<IndexEntry>>
    requires pos <= |data|
    decreases |data| - pos
  {
    if pos == |data| then Some([])
    else if pos + 4 > |data| then None
    else
      var keyLen := LEAt(data, pos, 4);
      if pos + 4 + keyLen + 8 > |data| then None
      else
        match ParseIndexFrom(data, pos + 4 + keyLen + 8)
        case None => None
        case Some(rest) => Some([IndexEntry(data[pos + 4..pos + 4 + keyLen], LEAt(data, pos + 4 + keyLen, 8))] + rest)
  }

  /** The parsing loop. */
  method ParseIndex(data: Bytes) returns (entries: Option<seq<IndexEntry>>)
    ensures entries == ParseIndexFrom(data, 0)
  {
    var pos := 0;
    var parsed: seq<IndexEntry> := [];
    assert forall rest: seq<IndexEntry> :: parsed + rest == rest;
    while pos < |data|
      invariant pos <= |data|
      invariant ParseIndexFrom(data, 0)
        == match ParseIndexFrom(data, pos) { case None => None case Some(rest) => Some(parsed + rest) }
    {
      if pos + 4 > |data| {
        return None;
      }
      var keyLen := LEAt(data, pos, 4);
      if pos + 4 + keyLen + 8 > |data| {
        return None;
      }
      var entry := IndexEntry(data[pos + 4..pos + 4 + keyLen], LEAt(data, pos + 4 + keyLen, 8));
      ghost var rest := ParseIndexFrom(data, pos + 4 + keyLen + 8);
      assert rest.Some? ==> parsed + ([entry] + rest.value) == (parsed + [entry]) + rest.value;
      parsed := parsed + [entry];
      pos := pos + 4 + keyLen + 8;
    }
    assert parsed + [] == parsed;
    return Some(parsed);
  }

  /** The Bloom section: a length that does not fit stands for no filter. */
  function ParseBloom(section: Bytes): Option<Filter> {
    if |section| < 4 then Decoded([])
    else
      var size := LEAt(section, 0, 4);
      if size > |section| - 4 then Decoded([]) else Decoded(section[4..4 + size])
  }

  /** A key bound, empty unless the length in front of it is the length in the footer. */
  function ParseKey(data: Bytes, offset: nat, length: nat): Bytes {
    if length == 0 || offset + 4 + length > |data| || LEAt(data, offset, 4) != length then []
    else data[offset + 4..offset + 4 + length]
  }

  function ReadBlock(crc: Checksum, data: Bytes, offset: nat): Option<Bytes> {
    if offset + 4 > |data| then None
    else
      var size := LEAt(data, offset, 4);
      if offset + 4 + size + 4 > |data| then None
      else
        var block := data[offset + 4..offset + 4 + size];
        if LEAt(data, offset + 4 + size, 4) != crc(block) then None else Some(block)
  }

  /** The block stands there, with its length in front and its checksum behind. */
  ghost predicate StandsAt(crc: Checksum, data: Bytes, offset: nat, block: Bytes) {
    && |block| < 0x1_0000_0000 && offset + |block| + 8 <= |data|
    && data[offset..offset + |block| + 8] == LE(|block|, 4) + block + LE(crc(block), 4)
  }

  /** A block is served exactly when it stands there so. */
  lemma ServedIff(crc: Checksum, data: Bytes, offset: nat, block: Bytes)
    ensures ReadBlock(crc, data, offset) == Some(block) <==> StandsAt(crc, data, offset, block)
  {
    hide ReadBlock, StandsAt;
    if StandsAt(crc, data, offset, block) {
      IsServed(crc, data, offset, block);
    }
    if ReadBlock(crc, data, offset) == Some(block) {
      ServedStands(crc, data, offset, block);
    }
  }

  lemma IsServed(crc: Checksum, data: Bytes, offset: nat, block: Bytes)
    requires StandsAt(crc, data, offset, block)
    ensures ReadBlock(crc, data, offset) == Some(block)
  {
    hide LE, FromLE, Pow256;
    var n := |block|;
    var a, b, c := data[offset..offset + 4], data[offset + 4..offset + 4 + n], data[offset + 4 + n..offset + n + 8];
    Pow256Values();
    FromLEOfLE(n, 4);
    FromLEOfLE(crc(block), 4);
    Pieces(data, offset, n);
    ThreeParts(a, b, c, LE(n, 4), block, LE(crc(block), 4));
  }

  lemma ServedStands(crc: Checksum, data: Bytes, offset: nat, block: Bytes)
    requires ReadBlock(crc, data, offset) == Some(block)
    ensures StandsAt(crc, data, offset, block)
  {
    hide LE, FromLE, Pow256;
    var n := |block|;
    Pow256Values();
    FromLEBound(data[offset..offset + 4]);
    LEOfFromLE(data[offset..offset + 4]);
    LEOfFromLE(data[offset + 4 + n..offset + n + 8]);
    Pieces(data, offset, n);
  }

  lemma Pieces(data: Bytes, offset: nat, n: nat)
    requires offset + n + 8 <= |data|
    ensures data[offset..offset + n + 8]
      == data[offset..offset + 4] + data[offset + 4..offset + 4 + n] + data[offset + 4 + n..offset + n + 8]
  {
  }

  lemma ThreeParts(a: Bytes, b: Bytes, c: Bytes, x: Bytes, y: Bytes, z: Bytes)
    requires |a| == |x| && |b| == |y| && |c| == |z| && a + b + c == x + y + z
    ensures a == x && b == y && c == z
  {
    assert (a + b + c)[..|a|] == a && (x + y + z)[..|a|] == x;
    assert (a + b + c)[|a|..|a| + |b|] == b && (x + y + z)[|a|..|a| + |b|] == y;
    assert (a + b + c)[|a| + |b|..] == c && (x + y + z)[|a| + |b|..] == z;
  }

  function OpenOf(data: Bytes): Option<Opened> {
    if |data| < FOOTER_SIZE || FooterField(data, 5) != MAGIC then None
    else
      var indexOffset, indexSize := FooterField(data, 0), FooterField(data, 1);
      var bloomOffset, bloomSize := FooterField(data, 2), FooterField(data, 3);
      if indexOffset + indexSize > |data| || bloomOffset + bloomSize > |data| then None
      else
        match (ParseIndexFrom(data[indexOffset..indexOffset + indexSize], 0),
               ParseBloom(data[bloomOffset..bloomOffset + bloomSize]))
        case (Some(index), Some(bloom)) =>
          Some(Opened(data, index, bloom, ParseKey(data, FooterField(data, 6), FooterField(data, 7)),
                      ParseKey(data, FooterField(data, 8), FooterField(data, 9)), FooterField(data, 4)))
        case _ => None
  }

  /** Only a file with the magic number in its footer opens. */
  lemma OpensOnlyTables(data: Bytes)
    requires OpenOf(data).Some?
    ensures |data| >= 80 && data[|data| - 40..|data| - 32] == LE(MAGIC, 8) && OpenOf(data).value.data == data
  {
    hide LE, FromLE, ParseIndexFrom, ParseBloom, ParseKey;
    LEOfFromLE(data[|data| - 40..|data| - 32]);
  }

  // ------------------------------------------------------------------ the round trip

  /** The start of a section of the file. */
  function SectionStart(crc: Checksum, im: Image, i: nat): nat
    requires i <= 6
  {
    |Joined(Sections(crc, im), i)|
  }

  lemma SectionAt(crc: Checksum, im: Image, i: nat)
    requires i < 6
    ensures var start, s := SectionStart(crc, im, i), Sections(crc, im)[i];
      start + |s| == SectionStart(crc, im, i + 1) <= |FileOf(crc, im)| && FileOf(crc, im)[start..start + |s|] == s
  {
    hide Sections;
    JoinedAt(Sections(crc, im), i, 6);
  }

  lemma {:induction false} FieldPartsSize(fields: seq<nat>, n: nat)
    requires n <= |fields|
    ensures |Joined(FieldParts(fields), n)| == n * 8
  {
    if n > 0 {
      FieldPartsSize(fields, n - 1);
    }
  }

  lemma FieldReads(crc: Checksum, im: Image, i: nat)
    requires ImageFits(crc, im) && i < 10 && FooterFields(crc, im)[i] <= MAX_U64
    ensures |FileOf(crc, im)| >= FOOTER_SIZE && FooterField(FileOf(crc, im), i) == FooterFields(crc, im)[i]
  {
    hide FooterFields, FileOf, Sections, LE;
    var data, fields := FileOf(crc, im), FooterFields(crc, im);
    var start := SectionStart(crc, im, 5);
    assert Sections(crc, im)[5] == FooterBytes(fields) && SectionStart(crc, im, 6) == |data| by {
      FooterIsLast(crc, im);
    }
    FieldPartsSize(fields, 10);
    FieldPartsSize(fields, i);
    SectionAt(crc, im, 5);
    JoinedAt(FieldParts(fields), i, 10);
    SliceOfSlice(data, start, |data|, i * 8, i * 8 + 8);
    Pow256Values();
    LEReads(data, start + i * 8, 8, fields[i]);
  }

  lemma FooterIsLast(crc: Checksum, im: Image)
    ensures Sections(crc, im)[5] == FooterBytes(FooterFields(crc, im)) && SectionStart(crc, im, 6) == |FileOf(crc, im)|
  {
  }

  /** The starts of the sections are the offsets in the footer. */
  lemma Starts(crc: Checksum, im: Image)
    ensures var f := FooterFields(crc, im);
      && f[0] == SectionStart(crc, im, 1) && f[0] + f[1] == f[2] == SectionStart(crc, im, 2)
      && f[2] + f[3] == f[6] == f[8] == SectionStart(crc, im, 3)
  {
    assert Joined(Sections(crc, im), 1) == BlockSection(crc, im);
  }

  /** Parsing the encoded index gives the index back. */
  lemma {:induction false} IndexRoundTrip(index: seq<IndexEntry>, i: nat)
    requires i <= |index|
    requires forall e :: e in index ==> |e.key| < 0x1_0000_0000 && e.offset <= MAX_U64
    ensures var data := Joined(IndexParts(index), |index|);
      |Joined(IndexParts(index), i)| <= |data|
        && ParseIndexFrom(data, |Joined(IndexParts(index), i)|) == Some(index[i..])
    decreases |index| - i
  {
    hide IndexBytes, ParseIndexFrom;
    var parts := IndexParts(index);
    var data := Joined(parts, |index|);
    if i == |index| {
      assert index[i..] == [];
      EndOfIndex(data);
    } else {
      var pos, e := |Joined(parts, i)|, index[i];
      JoinedAt(parts, i, |index|);
      IndexRoundTrip(index, i + 1);
      IndexEntryReads(data, pos, e, index[i + 1..]);
      assert index[i..] == [e] + index[i + 1..];
    }
  }

  lemma EndOfIndex(data: Bytes)
    ensures ParseIndexFrom(data, |data|) == Some([])
  {
  }

  lemma IndexEntryReads(data: Bytes, pos: nat, e: IndexEntry, rest: seq<IndexEntry>)
    requires |e.key| < 0x1_0000_0000 && e.offset <= MAX_U64
    requires pos + |IndexBytes(e)| <= |data| && data[pos..pos + |IndexBytes(e)|] == IndexBytes(e)
    requires ParseIndexFrom(data, pos + |IndexBytes(e)|) == Some(rest)
    ensures ParseIndexFrom(data, pos) == Some([e] + rest)
  {
    hide LE, LEAt;
    var b, n := IndexBytes(e), |e.key|;
    Pow256Values();
    assert b[0..4] == LE(n, 4) && b[4..4 + n] == e.key && b[4 + n..4 + n + 8] == LE(e.offset, 8);
    SliceOfSlice(data, pos, pos + |b|, 0, 4);
    SliceOfSlice(data, pos, pos + |b|, 4, 4 + n);
    SliceOfSlice(data, pos, pos + |b|, 4 + n, 4 + n + 8);
    LEReads(data, pos, 4, n);
    LEReads(data, pos + 4 + n, 8, e.offset);
  }

  lemma CountedReads(data: Bytes, pos: nat, b: Bytes)
    requires |b| < 0x1_0000_0000 && pos + |b| + 4 <= |data| && data[pos..pos + |b| + 4] == Counted(b)
    ensures LEAt(data, pos, 4) == |b| && data[pos + 4..pos + 4 + |b|] == b
  {
    hide LE, LEAt;
    Pow256Values();
    assert Counted(b)[0..4] == LE(|b|, 4) && Counted(b)[4..4 + |b|] == b;
    SliceOfSlice(data, pos, pos + |b| + 4, 0, 4);
    SliceOfSlice(data, pos, pos + |b| + 4, 4, 4 + |b|);
    LEReads(data, pos, 4, |b|);
  }

  lemma BloomRoundTrip(f: Filter)
    requires f.Valid() && |Encoded(f)| < 0x1_0000_0000
    ensures ParseBloom(Counted(Encoded(f))) == Some(f)
  {
    hide LEAt, Encoded, Decoded;
    var b := Counted(Encoded(f));
    assert b[0..|b|] == b;
    CountedReads(b, 0, Encoded(f));
    DecodedOfEncoded(f);
  }

  /** The max key a reader sees: the bytes at the offset of the min key, which are taken only
      when the two lengths agree. */
  function ParsedMaxKey(im: Image): Bytes {
    if |im.minKey| == |im.maxKey| then im.minKey else []
  }

  lemma SectionsAre(crc: Checksum, im: Image)
    ensures Sections(crc, im)[0] == BlockSection(crc, im)
    ensures Sections(crc, im)[1] == IndexSection(crc, im)
    ensures Sections(crc, im)[2] == Counted(Encoded(im.bloom))
    ensures Sections(crc, im)[3] == Counted(im.minKey)
    ensures Sections(crc, im)[4] == Counted(im.maxKey)
  {
  }

  lemma KeysRead(crc: Checksum, im: Image)
    requires ImageFits(crc, im)
    ensures var data, start := FileOf(crc, im), SectionStart(crc, im, 3);
      ParseKey(data, start, |im.minKey|) == im.minKey && ParseKey(data, start, |im.maxKey|) == ParsedMaxKey(im)
  {
    hide FileOf, LEAt, Sections, Counted, SectionStart;
    var data, start := FileOf(crc, im), SectionStart(crc, im, 3);
    SectionsAre(crc, im);
    SectionAt(crc, im, 3);
    SectionAt(crc, im, 4);
    CountedReads(data, start, im.minKey);
  }

  /** Opening a finished file gives back its index, filter and min key, and the max key as
      the reader sees it. */
  lemma OpenOfFile(crc: Checksum, im: Image)
    requires ImageFits(crc, im)
    ensures OpenOf(FileOf(crc, im))
      == Some(Opened(FileOf(crc, im), IndexOf(crc, im.blocks), im.bloom, im.minKey, ParsedMaxKey(im), im.numKeys))
  {
    hide FileOf, Sections, SectionStart, FooterField, FooterFields, IndexSection, Counted, Encoded, ParseKey,
      ParsedMaxKey,
      ParseBloom, ParseIndexFrom, IndexOf, ImageFits;
    Starts(crc, im);
    SectionsAre(crc, im);
    SectionAt(crc, im, 1);
    SectionAt(crc, im, 2);
    FieldsRead(crc, im);
    FieldsAre(crc, im);
    IndexReads(crc, im);
    assert im.bloom.Valid() && |Encoded(im.bloom)| < 0x1_0000_0000 by { BloomFits(crc, im); }
    BloomRoundTrip(im.bloom);
    KeysRead(crc, im);
  }

  lemma BloomFits(crc: Checksum, im: Image)
    requires ImageFits(crc, im)
    ensures im.bloom.Valid() && |Encoded(im.bloom)| < 0x1_0000_0000
  {
  }

  lemma FieldsAre(crc: Checksum, im: Image)
    ensures var f := FooterFields(crc, im);
      f[4] == im.numKeys && f[5] == MAGIC && f[7] == |im.minKey| && f[9] == |im.maxKey|
  {
  }

  lemma FieldsRead(crc: Checksum, im: Image)
    requires ImageFits(crc, im)
    ensures |FileOf(crc, im)| >= FOOTER_SIZE
    ensures forall i :: 0 <= i < 10 ==> FooterField(FileOf(crc, im), i) == FooterFields(crc, im)[i]
  {
    FieldsFit(crc, im);
    forall i | 0 <= i < 10
      ensures |FileOf(crc, im)| >= FOOTER_SIZE && FooterField(FileOf(crc, im), i) == FooterFields(crc, im)[i]
    {
      FieldReads(crc, im, i);
    }
  }

  lemma FieldsFit(crc: Checksum, im: Image)
    requires ImageFits(crc, im)
    ensures forall i :: 0 <= i < 10 ==> FooterFields(crc, im)[i] <= MAX_U64
  {
    Starts(crc, im);
    SectionAt(crc, im, 0);
    SectionAt(crc, im, 1);
    SectionAt(crc, im, 2);
  }

  lemma IndexReads(crc: Checksum, im: Image)
    requires ImageFits(crc, im)
    ensures ParseIndexFrom(IndexSection(crc, im), 0) == Some(IndexOf(crc, im.blocks))
  {
    var index := IndexOf(crc, im.blocks);
    SectionAt(crc, im, 0);
    assert Joined(Sections(crc, im), 1) == BlockSection(crc, im);
    forall e | e in index ensures |e.key| < 0x1_0000_0000 && e.offset <= MAX_U64 {
      var i :| 0 <= i < |index| && index[i] == e;
      JoinedAt(BlockParts(crc, im.blocks), i, |im.blocks|);
    }
    IndexRoundTrip(index, 0);
    assert index[0..] == index;
  }

  /** Every block is read back from the offset its index entry holds. */
  lemma BlockReads(crc: Checksum, im: Image, i: nat)
    requires ImageFits(crc, im) && i < |im.blocks|
    ensures ReadBlock(crc, FileOf(crc, im), BlockOffset(crc, im.blocks, i)) == Some(im.blocks[i].data)
  {
    var parts, data := BlockParts(crc, im.blocks), FileOf(crc, im);
    var pos := BlockOffset(crc, im.blocks, i);
    JoinedAt(parts, i, |im.blocks|);
    SectionAt(crc, im, 0);
    assert Joined(Sections(crc, im), 0) == [];
    assert Sections(crc, im)[0] == Joined(parts, |im.blocks|);
    hide FileOf, Sections, OnDisk;
    SliceOfSlice(data, 0, |Joined(parts, |im.blocks|)|, pos, pos + |parts[i]|);
    assert parts[i] == OnDisk(crc, im.blocks[i].data);
    OnDiskReads(crc, data, pos, im.blocks[i].data);
  }

  lemma OnDiskReads(crc: Checksum, data: Bytes, pos: nat, block: Bytes)
    requires |block| < 0x1_0000_0000
    requires pos + |block| + 8 <= |data| && data[pos..pos + |block| + 8] == OnDisk(crc, block)
    ensures ReadBlock(crc, data, pos) == Some(block)
  {
    hide LE, LEAt;
    Pow256Values();
    var b, n := OnDisk(crc, block), |block|;
    assert b[0..4] == LE(n, 4) && b[4..4 + n] == block && b[4 + n..8 + n] == LE(crc(block), 4);
    SliceOfSlice(data, pos, pos + n + 8, 0, 4);
    SliceOfSlice(data, pos, pos + n + 8, 4, 4 + n);
    SliceOfSlice(data, pos, pos + n + 8, 4 + n, 8 + n);
    LEReads(data, pos, 4, n);
    LEReads(data, pos + 4 + n, 4, crc(block));
  }
}
