/** Building an SSTable: buffered entries are sorted, cut into blocks and written. */
module Writer {
  import opened Base
  import opened Bloom
  import opened Endian
  import opened Format
  import opened Keys
  import opened Mvcc
  import opened Sorting
  import opened Table
  import opened Versions

  // ------------------------------------------------------------------ sorting

  /** The comparison of the sort, as the code writes it. */
  predicate EntryLess(a: RawEntry, b: RawEntry) {
    NodeKeyLess(a.key, b.key)
  }

  lemma EntryLessIsOrder()
    ensures WeakOrder(EntryLess)
  {
    forall a: RawEntry, b: RawEntry, c: RawEntry
      ensures EntryLess(a, b) ==> !EntryLess(b, a)
      ensures !EntryLess(b, a) && !EntryLess(c, b) ==> !EntryLess(c, a)
    {
      NodeKeyLessIsStrictTotalOrder(c.key, a.key, b.key);
      NodeKeyLessIsStrictTotalOrder(a.key, b.key, c.key);
    }
  }

  method SortEntries(entries: seq<RawEntry>) returns (sorted: seq<RawEntry>)
    ensures SortedEntries(sorted) && multiset(sorted) == multiset(entries)
  {
    EntryLessIsOrder();
    sorted := SortSlice(entries, EntryLess);
  }

  // ------------------------------------------------------------------ blocks

  /** b holds exactly the entries lo to hi, is indexed by the first of them, and is within the
      block size or holds a single entry. */
  ghost predicate BlockIs(b: Block, es: seq<RawEntry>, lo: nat, hi: nat) {
    && lo < hi <= |es|
    && b == Block(es[lo].key.key, BlockData(es[lo..hi]))
    && (|b.data| <= BLOCK_SIZE || hi == lo + 1)
  }

  /** A block ends only where the next entry would not fit. */
  ghost predicate Full(b: Block, es: seq<RawEntry>, hi: nat) {
    hi < |es| ==> |b.data| + |EntryBytes(es[hi])| > BLOCK_SIZE
  }

  /** The blocks partition the entries: block i holds the entries from cuts[i] to cuts[i + 1]. */
  ghost predicate Partition(blocks: seq<Block>, cuts: seq<nat>, es: seq<RawEntry>, n: nat) {
    && |cuts| == |blocks| + 1 && cuts[0] == 0 && cuts[|blocks|] == n
    && forall i {:trigger blocks[i]} :: 0 <= i < |blocks| ==>
         BlockIs(blocks[i], es, cuts[i], cuts[i + 1]) && Full(blocks[i], es, cuts[i + 1])
  }

  lemma PartitionGrows(blocks: seq<Block>, cuts: seq<nat>, es: seq<RawEntry>, lo: nat, hi: nat, b: Block)
    requires Partition(blocks, cuts, es, lo) && BlockIs(b, es, lo, hi) && Full(b, es, hi)
    ensures Partition(blocks + [b], cuts + [hi], es, hi)
  {
    hide BlockIs, Full;
  }

  /** The loop that forms the blocks. */
  method FormBlocks(es: seq<RawEntry>) returns (blocks: seq<Block>, ghost cuts: seq<nat>)
    ensures Partition(blocks, cuts, es, |es|)
    ensures exists c: seq<nat> :: Partition(blocks, c, es, |es|)
  {
    hide EntryBytes, BlockData, Partition;
    blocks, cuts := [], [0];
    assert Partition([], [0], es, 0) by { NoBlocks(es); }
    var current: Bytes := [];
    var blockEntries: seq<RawEntry> := [];
    ghost var lo := 0;
    NonEmptyBlock([]);
    for i := 0 to |es|
      invariant lo <= i && blockEntries == es[lo..i] && current == BlockData(blockEntries)
      invariant (lo == i) == (i == 0) && (lo < i ==> |current| <= BLOCK_SIZE || i == lo + 1)
      invariant Partition(blocks, cuts, es, lo)
    {
      var entryBytes := EntryBytes(es[i]);
      BlockSizes(blockEntries, es[i]);
      if |current| + |entryBytes| > BLOCK_SIZE && |current| > 0 {
        PartitionGrows(blocks, cuts, es, lo, i, Block(blockEntries[0].key.key, current));
        blocks := blocks + [Block(blockEntries[0].key.key, current)];
        cuts := cuts + [i];
        lo := i;
        current := [];
        blockEntries := [];
        BlockSizes([], es[i]);
      }
      BlockDataAppend(blockEntries, es[i]);
      assert es[lo..i + 1] == es[lo..i] + [es[i]];
      blockEntries := blockEntries + [es[i]];
      current := current + entryBytes;
    }
    NonEmptyBlock(blockEntries);
    if |current| > 0 {
      PartitionGrows(blocks, cuts, es, lo, |es|, Block(blockEntries[0].key.key, current));
      blocks := blocks + [Block(blockEntries[0].key.key, current)];
      cuts := cuts + [|es|];
    }
  }

  lemma NoBlocks(es: seq<RawEntry>)
    ensures Partition([], [0], es, 0)
  {
  }

  lemma NonEmptyBlock(es: seq<RawEntry>)
    ensures BlockData(es) == [] <==> es == []
  {
    if es != [] {
      BlockDataAppend(es[..|es| - 1], es[|es| - 1]);
      assert es[..|es| - 1] + [es[|es| - 1]] == es;
    }
  }

  lemma BlockSizes(es: seq<RawEntry>, e: RawEntry)
    ensures |EntryBytes(e)| > 0 && (BlockData(es) == [] <==> es == [])
  {
    NonEmptyBlock(es);
  }

  // ------------------------------------------------------------------ the writer

  ghost predicate IsMin(es: seq<RawEntry>, min: Option<Bytes>) {
    match min
    case None => es == []
    case Some(k) => (exists e :: e in es && e.key.key == k) && forall e :: e in es ==> Compare(k, e.key.key) <= 0
  }

  ghost predicate IsMax(es: seq<RawEntry>, max: Option<Bytes>) {
    match max
    case None => es == []
    case Some(k) => (exists e :: e in es && e.key.key == k) && forall e :: e in es ==> Compare(e.key.key, k) <= 0
  }

  function Bound(k: Option<Bytes>): Bytes {
    if k.None? then [] else k.value
  }

  class TableWriter {
    var entries: seq<RawEntry>
    const bloom: BloomFilter
    var minKey: Option<Bytes>
    var maxKey: Option<Bytes>

    /** The key bounds are exact and the filter knows every appended key. */
    ghost predicate Valid()
      reads this, bloom
    {
      && IsMin(entries, minKey) && IsMax(entries, maxKey)
      && bloom.Valid() && bloom.m > 0 && bloom.k > 0
      && forall e :: e in entries ==> Contains(bloom.Abs(), e.key.key)
    }

    /** The filter is sized by floating-point formulas that clamp m and k to at least 1. */
    constructor (m: U64, k: U64, seed: bv64)
      requires 0 < m <= MAX_U64 - 63 && k > 0
      ensures Valid() && entries == [] && minKey == maxKey == None && fresh(bloom)
      ensures bloom.Abs() == Filter(seq((m + 63) / 64, _ => 0), m, k, 0, seed)
    {
      entries, minKey, maxKey := [], None, None;
      bloom := new BloomFilter(m, k, seed);
    }

    method AppendInternal(key: MVCCKey, value: Option<Bytes>, tagged: bool)
      requires Valid()
      modifies this, bloom
      ensures Valid() && entries == old(entries) + [RawEntry(key, value, tagged)]
    {
      hide Contains, Added;
      ghost var f := bloom.Abs();
      bloom.Add(key.key);
      AddedContains(f, key.key, key.key);
      forall e | e in entries ensures Contains(bloom.Abs(), e.key.key) {
        AddedContains(f, key.key, e.key.key);
      }
      ghost var e := RawEntry(key, value, tagged);
      ghost var all := entries + [e];
      BoundsGrow(entries, e, minKey, maxKey);
      if minKey.None? || Compare(key.key, minKey.value) < 0 {
        minKey := Some(key.key);
      }
      if maxKey.None? || Compare(key.key, maxKey.value) > 0 {
        maxKey := Some(key.key);
      }
      entries := entries + [RawEntry(key, value, tagged)];
    }

    method Append(key: MVCCKey, value: Option<Bytes>)
      requires Valid()
      modifies this, bloom
      ensures Valid() && entries == old(entries) + [RawEntry(key, value, false)]
    {
      AppendInternal(key, value, false);
    }

    method AppendTagged(key: MVCCKey, value: Option<Bytes>)
      requires Valid()
      modifies this, bloom
      ensures Valid() && entries == old(entries) + [RawEntry(key, value, true)]
    {
      AppendInternal(key, value, true);
    }

    /** Sort, form the blocks, write them with their sizes and checksums, then the rest. */
    method Finish(crc: Checksum) returns (file: Bytes, ghost blocks: seq<Block>, ghost cuts: seq<nat>)
      requires Valid()
      modifies this`entries
      ensures Valid() && SortedEntries(entries) && multiset(entries) == multiset(old(entries))
      ensures Partition(blocks, cuts, entries, |entries|)
      ensures file == FileOf(crc, Image(blocks, bloom.Abs(), Bound(minKey), Bound(maxKey), |entries|))
    {
      hide Contains, FileOf, Partition, SortedEntries, IsMin, IsMax;
      if |entries| == 0 {
        blocks, cuts := [], [0];
        NoBlocks(entries);
        assert SortedEntries(entries) by { SortedEmpty(); }
        file := WriteFooter(crc, [], [], []);
        return;
      }
      var sorted := SortEntries(entries);
      SameElements(sorted, entries);
      SameBounds(entries, sorted, minKey, maxKey);
      entries := sorted;
      var formed;
      formed, cuts := FormBlocks(entries);
      blocks := formed;
      var out, index := WriteBlocks(crc, formed);
      file := WriteFooter(crc, out, index, formed);
    }

    /** The index, the filter, the key bounds and the footer after the blocks. The offset stays
        at the min key while both bounds are written. */
    method WriteFooter(crc: Checksum, data: Bytes, index: seq<IndexEntry>, ghost blocks: seq<Block>)
      returns (file: Bytes)
      requires bloom.Valid()
      requires data == Joined(BlockParts(crc, blocks), |blocks|) && index == IndexOf(crc, blocks)
      ensures file == FileOf(crc, Image(blocks, bloom.Abs(), Bound(minKey), Bound(maxKey), |entries|))
    {
      hide Encoded, LE, FooterBytes, FileOf, Joined, IndexParts, BlockParts;
      var indexStart := |data|;
      var indexBytes := WriteIndex(index);
      var bloomStart := indexStart + |indexBytes|;
      var bloomBytes := bloom.Encode();
      var bloomSection := LE(|bloomBytes|, 4) + bloomBytes;
      var minKeyStart := bloomStart + |bloomSection|;
      var minSection := if minKey.None? then LE(0, 4) else LE(|minKey.value|, 4) + minKey.value;
      var maxKeyStart := minKeyStart;
      var maxSection := if maxKey.None? then LE(0, 4) else LE(|maxKey.value|, 4) + maxKey.value;
      var footer := FooterBytes([indexStart, |indexBytes|, bloomStart, |bloomSection|, |entries|, MAGIC,
                                 minKeyStart, |Bound(minKey)|, maxKeyStart, |Bound(maxKey)|]);
      file := data + indexBytes + bloomSection + minSection + maxSection + footer;
      ghost var im := Image(blocks, bloom.Abs(), Bound(minKey), Bound(maxKey), |entries|);
      assert LE(0, 4) + [] == LE(0, 4);
      FileIs(crc, im, data, indexBytes, bloomSection, minSection, maxSection, footer);
    }
  }

  /** The blocks with their sizes and checksums, and an index entry for each. */
  method WriteBlocks(crc: Checksum, blocks: seq<Block>) returns (out: Bytes, index: seq<IndexEntry>)
    ensures out == Joined(BlockParts(crc, blocks), |blocks|) && index == IndexOf(crc, blocks)
  {
    hide LE;
    out, index := [], [];
    for i := 0 to |blocks|
      invariant out == Joined(BlockParts(crc, blocks), i) && index == IndexOf(crc, blocks)[..i]
    {
      index := index + [IndexEntry(blocks[i].firstKey, |out|)];
      out := out + (LE(|blocks[i].data|, 4) + blocks[i].data + LE(crc(blocks[i].data), 4));
    }
    assert IndexOf(crc, blocks)[..|blocks|] == IndexOf(crc, blocks);
  }

  method WriteIndex(index: seq<IndexEntry>) returns (bytes: Bytes)
    ensures bytes == Joined(IndexParts(index), |index|)
  {
    hide LE;
    bytes := [];
    for i := 0 to |index|
      invariant bytes == Joined(IndexParts(index), i)
    {
      bytes := bytes + (LE(|index[i].key|, 4) + index[i].key + LE(index[i].offset, 8));
    }
  }

  lemma SortedEmpty()
    ensures SortedEntries([])
  {
  }

  lemma SameBounds(a: seq<RawEntry>, b: seq<RawEntry>, min: Option<Bytes>, max: Option<Bytes>)
    requires |a| == |b| && (forall e :: e in a <==> e in b) && IsMin(a, min) && IsMax(a, max)
    ensures IsMin(b, min) && IsMax(b, max)
  {
    if min.Some? {
      var e :| e in a && e.key.key == min.value;
      assert e in b;
    }
    if max.Some? {
      var e :| e in a && e.key.key == max.value;
      assert e in b;
    }
  }

  lemma FileIs(crc: Checksum, im: Image, d: Bytes, i: Bytes, b: Bytes, min: Bytes, max: Bytes, f: Bytes)
    requires d == BlockSection(crc, im) && i == IndexSection(crc, im) && b == Counted(Encoded(im.bloom))
    requires min == Counted(im.minKey) && max == Counted(im.maxKey) && f == FooterBytes(FooterFields(crc, im))
    ensures FileOf(crc, im) == d + i + b + min + max + f
  {
    hide BlockSection, IndexSection, Counted, Encoded, FooterBytes, FooterFields;
    var s := Sections(crc, im);
    assert Joined(s, 0) + s[0] == s[0];
    assert Joined(s, 1) == d;
    assert Joined(s, 2) == d + i;
    assert Joined(s, 3) == d + i + b;
    assert Joined(s, 4) == d + i + b + min;
    assert Joined(s, 5) == d + i + b + min + max;
  }

  lemma NoBounds()
    ensures IsMin([], None) && IsMax([], None)
  {
  }

  lemma BoundsGrow(es: seq<RawEntry>, e: RawEntry, min: Option<Bytes>, max: Option<Bytes>)
    requires IsMin(es, min) && IsMax(es, max)
    ensures IsMin(es + [e], if min.None? || Compare(e.key.key, min.value) < 0 then Some(e.key.key) else min)
    ensures IsMax(es + [e], if max.None? || Compare(e.key.key, max.value) > 0 then Some(e.key.key) else max)
  {
    var k := e.key.key;
    forall u | u in es + [e]
      ensures min.None? || Compare(k, min.value) < 0 ==> Compare(k, u.key.key) <= 0
      ensures max.None? || Compare(k, max.value) > 0 ==> Compare(u.key.key, k) <= 0
      ensures min.Some? && Compare(k, min.value) >= 0 ==> Compare(min.value, u.key.key) <= 0
      ensures max.Some? && Compare(k, max.value) <= 0 ==> Compare(u.key.key, max.value) <= 0
    {
      CompareZero(k, k);
      if min.Some? {
        CompareIsTotalOrder(k, min.value, u.key.key);
      }
      if max.Some? {
        CompareIsTotalOrder(u.key.key, max.value, k);
        CompareIsTotalOrder(max.value, k, k);
      }
    }
    assert (es + [e])[|es|] == e;
    forall u | u in es ensures u in es + [e] {
    }
  }
}
