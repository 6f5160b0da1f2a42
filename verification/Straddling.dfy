/** A written table, complete with its file image, in which a lookup misses the newer version of a
    key because the versions of the key fill two blocks. */
module Straddling {
  import opened Base
  import opened Bloom
  import opened Endian
  import opened Format
  import opened Keys
  import opened Lookup
  import opened Mvcc
  import opened Table
  import opened Versions
  import opened Writer

  const K: Bytes := [7]

  function First(big: Bytes): RawEntry {
    RawEntry(NewMVCCKey(K, 1), Some([1] + big), false)
  }

  function Second(big: Bytes): RawEntry {
    RawEntry(NewMVCCKey(K, 2), Some([2] + big), false)
  }

  /** An overwritten value that fills a block, and its successor. */
  function Entries(big: Bytes): seq<RawEntry> {
    [First(big), Second(big)]
  }

  function Blocks(big: Bytes): seq<Block> {
    [Block(K, BlockData([First(big)])), Block(K, BlockData([Second(big)]))]
  }

  function OneWord(): Filter {
    Filter([0], 64, 1, 0, 0)
  }

  function TableImage(big: Bytes): Image {
    Image(Blocks(big), Added(OneWord(), K), K, K, 2)
  }

  lemma Sizes(big: Bytes)
    requires |big| == BLOCK_SIZE
    ensures BlockData([First(big)]) == EntryBytes(First(big)) && BlockData([Second(big)]) == EntryBytes(Second(big))
    ensures |EntryBytes(First(big))| == |EntryBytes(Second(big))| == 23 + BLOCK_SIZE
  {
    hide EntryBytes;
    BlockDataAppend([], First(big));
    BlockDataAppend([], Second(big));
    NonEmptyBlock([]);
    assert [] + [First(big)] == [First(big)] && [] + [Second(big)] == [Second(big)];
    assert BlockData([]) == [];
    assert |KeyBytes(NewMVCCKey(K, 1))| == |KeyBytes(NewMVCCKey(K, 2))| == 13;
    assert |Stored(First(big))| == |Stored(Second(big))| == BLOCK_SIZE + 2;
    assert |EntryBytes(First(big))| == 8 + 13 + BLOCK_SIZE + 2;
  }

  lemma IsPartition(big: Bytes)
    requires |big| == BLOCK_SIZE
    ensures Partition(Blocks(big), [0, 1, 2], Entries(big), 2) && SortedEntries(Entries(big)) && AllFit(Entries(big))
    ensures Straddles([0, 1, 2], Entries(big), K)
  {
    hide EntryBytes, BlockData;
    var es := Entries(big);
    Sizes(big);
    NodeKeyLessIsStrictTotalOrder(es[0].key, es[1].key, es[1].key);
    assert es[0..1] == [First(big)] && es[1..2] == [Second(big)];
    assert StraddlesAt(es, [0, 1, 2][1], K);
  }

  lemma ChoosesFirst(crc: Checksum, big: Bytes)
    ensures Chosen(IndexOf(crc, Blocks(big)), K) == 0
  {
    hide BlockData, BlockOffset;
    CompareZero(K, K);
    var index := IndexOf(crc, Blocks(big));
    assert Search(index, K, 0, 0) == 0 && Search(index, K, 0, 1) == 0;
  }

  lemma HasBounds(big: Bytes)
    ensures IsMin(Entries(big), Some(K)) && IsMax(Entries(big), Some(K))
    ensures OneWord().Valid() && forall e :: e in Entries(big) ==> Contains(TableImage(big).bloom, e.key.key)
  {
    hide Contains, Added;
    CompareZero(K, K);
    assert First(big) in Entries(big);
    AddedContains(OneWord(), K, K);
  }

  /** The sizes of the sections, none of which comes near the limits. */
  lemma ImageIsSmall(crc: Checksum, big: Bytes)
    requires |big| == BLOCK_SIZE
    ensures ImageFits(crc, TableImage(big))
  {
    hide EntryBytes, BlockData, Added, Encoded, LE, FooterFields, FooterBytes, BlockOffset, OnDisk, Joined;
    var im := TableImage(big);
    Sizes(big);
    EncodedSize(im.bloom);
    TwoParts(BlockParts(crc, im.blocks));
    TwoParts(IndexParts(IndexOf(crc, im.blocks)));
    assert |BlockSection(crc, im)| == 2 * (31 + BLOCK_SIZE) && |IndexSection(crc, im)| == 26;
    FooterSize(FooterFields(crc, im));
    SixParts(Sections(crc, im));
  }

  lemma EncodedSize(f: Filter)
    requires f.Valid() && f.m == 64
    ensures |Encoded(f)| < 100
  {
    hide LE;
    assert |Header(f)| < 60 && |Words(f.bits)| == 8;
  }

  lemma FooterSize(fields: seq<nat>)
    requires |fields| == 10
    ensures |FooterBytes(fields)| == 80
  {
    hide LE;
    JoinedSizes(FieldParts(fields), 10, 8);
  }

  lemma {:induction false} JoinedSizes(parts: seq<Bytes>, n: nat, size: nat)
    requires n <= |parts| && forall i :: 0 <= i < n ==> |parts[i]| == size
    ensures |Joined(parts, n)| == n * size
  {
    if n > 0 {
      JoinedSizes(parts, n - 1, size);
    }
  }

  lemma TwoParts(parts: seq<Bytes>)
    requires |parts| == 2
    ensures |Joined(parts, 2)| == |parts[0]| + |parts[1]|
  {
    assert Joined(parts, 0) == [] && |Joined(parts, 1)| == |parts[0]|;
  }

  lemma SixParts(s: seq<Bytes>)
    requires |s| == 6
    ensures |Joined(s, 6)| == |s[0]| + |s[1]| + |s[2]| + |s[3]| + |s[4]| + |s[5]|
  {
    assert Joined(s, 0) == [] && |Joined(s, 1)| == |s[0]|;
    assert |Joined(s, 2)| == |s[0]| + |s[1]| && |Joined(s, 3)| == |s[0]| + |s[1]| + |s[2]|;
    assert |Joined(s, 4)| == |s[0]| + |s[1]| + |s[2]| + |s[3]|;
    assert |Joined(s, 5)| == |s[0]| + |s[1]| + |s[2]| + |s[3]| + |s[4]|;
  }

  /** A key that starts two blocks is always read from the first of them: the overwritten value
      comes back instead of the newer one. */
  lemma StraddlingHidesNewer(crc: Checksum, big: Bytes)
    requires |big| == BLOCK_SIZE
    ensures var es, im := Entries(big), TableImage(big);
      && Written(crc, im, [0, 1, 2], es, Some(K), Some(K)) && Straddles([0, 1, 2], es, K)
      && Read(VersionsOf(es), K, 2) == Some([2] + big)
      && im.bloom.Valid() && LookupOf(crc, InMemory(crc, im), K, 2) == Some([1] + big)
  {
    hide LookupOf, ScanChosen, Chosen, Contains, ImageFits, Partition, BlockData, Added, SortedEntries, AllFit,
      Straddles,
      Read, VersionsOf, IsMin, IsMax, InMemory, IndexOf;
    var es, im := Entries(big), TableImage(big);
    IsPartition(big);
    HasBounds(big);
    ImageIsSmall(crc, big);
    ChoosesFirst(crc, big);
    assert First(big) in es && HasKey(es, K);
    PresentKey(crc, im, [0, 1, 2], es, Some(K), Some(K), K, 2);
    var lo, hi := LookupReadsOneBlock(crc, im, [0, 1, 2], es, Some(K), Some(K), K, 2);
    ReadsOf(big);
  }

  lemma ReadsOf(big: Bytes)
    ensures var vs := VersionsOf(Entries(big));
      Read(vs, K, 2) == Some([2] + big) && Read(vs[0..1], K, 2) == Some([1] + big)
  {
    var vs := VersionsOf(Entries(big));
    ValueSurvives(NewMVCCKey(K, 1), [1] + big);
    ValueSurvives(NewMVCCKey(K, 2), [2] + big);
    LastVisibleIs(vs, K, 2, 1);
    LastVisibleIs(vs[0..1], K, 2, 0);
  }
}
