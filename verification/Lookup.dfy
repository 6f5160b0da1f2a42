/** Looking a key up in an SSTable, and when that agrees with a search over all its entries. */
module Lookup {
  import opened Base
  import opened Bloom
  import opened Format
  import opened Keys
  import opened Mvcc
  import opened Table
  import opened Versions
  import opened Writer

  // ------------------------------------------------------------------ choosing a block

  /** The binary search for the first index key that is not below key, between lo and hi. */
  function Search(index: seq<IndexEntry>, key: Bytes, lo: nat, hi: nat): (idx: nat)
    requires lo <= hi <= |index|
    ensures lo <= idx <= hi
    decreases hi - lo
  {
    if lo == hi then lo
    else
      var mid := (lo + hi) / 2;
      if Compare(index[mid].key, key) < 0 then Search(index, key, mid + 1, hi) else Search(index, key, lo, mid)
  }

  /** The block Lookup scans: the one that starts with key, else the one before the bound. */
  function Chosen(index: seq<IndexEntry>, key: Bytes): (b: nat)
    requires index != []
    ensures b < |index|
  {
    var idx := Search(index, key, 0, |index|);
    if idx == |index| then |index| - 1
    else if idx > 0 && index[idx].key != key then idx - 1
    else idx
  }

  /** The scan of the chosen block. */
  function ScanChosen(crc: Checksum, t: Opened, key: Bytes, snapshot: U64): Option<Bytes>
    requires t.index != []
  {
    match ReadBlock(crc, t.data, t.index[Chosen(t.index, key)].offset)
    case None => None
    case Some(block) => Answer(Scan(block, 0, key, snapshot, None))
  }

  /** The whole lookup: range filter, Bloom filter, block choice and scan. */
  function LookupOf(crc: Checksum, t: Opened, key: Bytes, snapshot: U64): Option<Bytes>
    requires t.bloom.Valid()
  {
    if |t.minKey| > 0 && Compare(key, t.minKey) < 0 then None
    else if |t.maxKey| > 0 && Compare(key, t.maxKey) > 0 then None
    else if !Contains(t.bloom, key) || t.index == [] then None
    else ScanChosen(crc, t, key, snapshot)
  }

  /** An opened table. The mapped file itself, its reference count included, is modelled apart. */
  class Reader {
    const data: Bytes
    const index: seq<IndexEntry>
    const bloom: BloomFilter
    const minKey: Bytes
    const maxKey: Bytes
    const numKeys: nat
    var closed: bool

    ghost predicate Valid()
      reads this, bloom
    {
      bloom.Valid()
    }

    function Abs(): Opened
      reads this, bloom
    {
      Opened(data, index, bloom.Abs(), minKey, maxKey, numKeys)
    }

    constructor (t: Opened)
      requires t.bloom.Valid()
      ensures Valid() && Abs() == t && !closed && fresh(bloom)
    {
      data, index, minKey, maxKey, numKeys, closed := t.data, t.index, t.minKey, t.maxKey, t.numKeys, false;
      bloom := new BloomFilter.Decode(t.bloom);
    }

    /** sort.Search over the index keys. */
    method SearchIndex(key: Bytes) returns (idx: nat)
      ensures idx == Search(index, key, 0, |index|)
    {
      var lo, hi := 0, |index|;
      while lo < hi
        invariant lo <= hi <= |index| && Search(index, key, 0, |index|) == Search(index, key, lo, hi)
      {
        var mid := (lo + hi) / 2;
        if Compare(index[mid].key, key) < 0 {
          lo := mid + 1;
        } else {
          hi := mid;
        }
      }
      return lo;
    }

    method Lookup(crc: Checksum, key: MVCCKey) returns (r: Option<Bytes>)
      requires Valid()
      ensures r == if closed then None else LookupOf(crc, Abs(), key.key, key.CommitTS())
    {
      hide Compare, Contains, Search, Scan, ReadBlock;
      if closed {
        return None;
      }
      if |minKey| > 0 && Compare(key.key, minKey) < 0 {
        return None;
      }
      if |maxKey| > 0 && Compare(key.key, maxKey) > 0 {
        return None;
      }
      var may := bloom.MayContain(key.key);
      if !may {
        return None;
      }
      var idx := SearchIndex(key.key);
      var blockIdx;
      if idx == |index| {
        blockIdx := |index| - 1;
      } else if idx > 0 && index[idx].key != key.key {
        blockIdx := idx - 1;
      } else {
        blockIdx := idx;
      }
      if blockIdx < 0 || blockIdx >= |index| {
        return None;
      }
      var block := ReadBlock(crc, data, index[blockIdx].offset);
      if block.None? {
        return None;
      }
      var best := ScanBlock(block.value, key.key, key.CommitTS());
      return Answer(best);
    }
  }

  /** The scan loop, which keeps the last qualifying entry. */
  method ScanBlock(block: Bytes, key: Bytes, snapshot: U64) returns (best: Option<Best>)
    ensures best == Scan(block, 0, key, snapshot, None)
  {
    best := None;
    var pos := 0;
    while pos < |block|
      invariant pos <= |block| && Scan(block, 0, key, snapshot, None) == Scan(block, pos, key, snapshot, best)
    {
      hide DecodeMVCCKey;
      match ParseEntry(block, pos) {
        case Truncated =>
          return;
        case BadKey(next) =>
          pos := next;
        case Entry(k, val, next) =>
          var cmp := CompareKeys(k.key, key);
          if cmp == 0 {
            if k.CommitTS() <= snapshot {
              best := Some(BestOf(val));
            }
          } else if cmp > 0 {
            return;
          }
          pos := next;
      }
    }
  }

  // ------------------------------------------------------------------ the block that is chosen

  ghost predicate SortedIndex(index: seq<IndexEntry>) {
    forall i, j :: 0 <= i < j < |index| ==> Compare(index[i].key, index[j].key) <= 0
  }

  /** On a sorted index the binary search finds the lower bound. */
  lemma {:induction false} SearchIsLowerBound(index: seq<IndexEntry>, key: Bytes, lo: nat, hi: nat)
    requires SortedIndex(index) && lo <= hi <= |index|
    requires forall i :: 0 <= i < lo ==> Compare(index[i].key, key) < 0
    requires forall i :: hi <= i < |index| ==> Compare(index[i].key, key) >= 0
    ensures var idx := Search(index, key, lo, hi);
      && (forall i :: 0 <= i < idx ==> Compare(index[i].key, key) < 0)
      && (forall i :: idx <= i < |index| ==> Compare(index[i].key, key) >= 0)
    decreases hi - lo
  {
    if lo < hi {
      var mid := (lo + hi) / 2;
      if Compare(index[mid].key, key) < 0 {
        forall i | 0 <= i < mid ensures Compare(index[i].key, key) < 0 {
          BelowIsBelow(index[i].key, index[mid].key, key);
        }
        SearchIsLowerBound(index, key, mid + 1, hi);
      } else {
        forall i | mid < i < |index| ensures Compare(index[i].key, key) >= 0 {
          BelowIsBelow(index[mid].key, index[i].key, key);
        }
        SearchIsLowerBound(index, key, lo, mid);
      }
    }
  }

  lemma BelowIsBelow(a: Bytes, b: Bytes, c: Bytes)
    requires Compare(a, b) <= 0
    ensures Compare(b, c) < 0 ==> Compare(a, c) < 0
  {
    CompareIsTotalOrder(a, b, c);
    CompareIsTotalOrder(c, a, b);
  }

  lemma {:induction false} CutsGrow(blocks: seq<Block>, cuts: seq<nat>, es: seq<RawEntry>, i: nat, j: nat)
    requires Partition(blocks, cuts, es, |es|) && i <= j < |cuts|
    ensures cuts[i] <= cuts[j] <= |es| && (i < j ==> cuts[i] < cuts[j])
    decreases |cuts| - i
  {
    if i < |blocks| {
      assert BlockIs(blocks[i], es, cuts[i], cuts[i + 1]);
      if i < j {
        CutsGrow(blocks, cuts, es, i + 1, j);
      } else {
        CutsGrow(blocks, cuts, es, i + 1, |blocks|);
      }
    }
  }

  lemma {:induction false} BlockHolding(blocks: seq<Block>, cuts: seq<nat>, es: seq<RawEntry>, p: nat, n: nat)
    returns (b: nat)
    requires Partition(blocks, cuts, es, |es|) && n < |cuts| && p < cuts[n]
    ensures b < n && cuts[b] <= p < cuts[b + 1]
  {
    if cuts[n - 1] <= p {
      b := n - 1;
    } else {
      b := BlockHolding(blocks, cuts, es, p, n - 1);
    }
  }

  /** In sorted entries user keys never decrease. */
  lemma UserKeysSorted(es: seq<RawEntry>, i: nat, j: nat)
    requires SortedEntries(es) && i <= j < |es|
    ensures Compare(es[i].key.key, es[j].key.key) <= 0
  {
    CompareIsTotalOrder(es[i].key.key, es[j].key.key, es[j].key.key);
    if i < j {
      assert !NodeKeyLess(es[j].key, es[i].key);
    }
  }

  lemma SameKeyBetween(es: seq<RawEntry>, i: nat, m: nat, j: nat)
    requires SortedEntries(es) && i <= m <= j < |es| && es[i].key.key == es[j].key.key
    ensures es[m].key.key == es[i].key.key
  {
    UserKeysSorted(es, i, m);
    UserKeysSorted(es, m, j);
    CompareIsTotalOrder(es[i].key.key, es[m].key.key, es[j].key.key);
  }

  /** The versions of key on both sides of the boundary before block i. */
  ghost predicate StraddlesAt(es: seq<RawEntry>, cut: nat, key: Bytes) {
    0 < cut < |es| && es[cut - 1].key.key == key && es[cut].key.key == key
  }

  ghost predicate Straddles(cuts: seq<nat>, es: seq<RawEntry>, key: Bytes) {
    exists i :: 0 <= i < |cuts| && StraddlesAt(es, cuts[i], key)
  }

  lemma IndexIsSorted(crc: Checksum, blocks: seq<Block>, cuts: seq<nat>, es: seq<RawEntry>)
    requires Partition(blocks, cuts, es, |es|) && SortedEntries(es)
    ensures SortedIndex(IndexOf(crc, blocks))
  {
    var index := IndexOf(crc, blocks);
    forall i, j | 0 <= i < j < |index| ensures Compare(index[i].key, index[j].key) <= 0 {
      assert BlockIs(blocks[i], es, cuts[i], cuts[i + 1]) && BlockIs(blocks[j], es, cuts[j], cuts[j + 1]);
      CutsGrow(blocks, cuts, es, i, j);
      UserKeysSorted(es, cuts[i], cuts[j]);
    }
  }

  /** The chosen block starts at or below key unless it is the first, and starts with key or
      is the last one that does not start above it. */
  lemma ChosenIsLast(index: seq<IndexEntry>, key: Bytes, b: nat)
    requires SortedIndex(index) && index != []
    ensures var c := Chosen(index, key);
      && (c == 0 || Compare(index[c].key, key) <= 0)
      && (c < b < |index| ==> index[c].key == key || Compare(index[b].key, key) > 0)
  {
    hide Compare;
    SearchIsLowerBound(index, key, 0, |index|);
    var c, idx := Chosen(index, key), Search(index, key, 0, |index|);
    CompareZero(index[c].key, key);
    if c < b < |index| && index[c].key != key {
      assert idx < |index| && Compare(index[idx].key, key) > 0 by {
        CompareZero(index[idx].key, key);
      }
      assert idx < b ==> Compare(index[idx].key, index[b].key) <= 0;
      CompareIsTotalOrder(index[b].key, key, index[idx].key);
      CompareIsTotalOrder(index[idx].key, index[b].key, key);
    }
  }

  lemma BlockStarts(crc: Checksum, blocks: seq<Block>, cuts: seq<nat>, es: seq<RawEntry>, b: nat)
    requires Partition(blocks, cuts, es, |es|) && b < |blocks|
    ensures cuts[b] < cuts[b + 1] <= |es| && IndexOf(crc, blocks)[b].key == es[cuts[b]].key.key
  {
    assert BlockIs(blocks[b], es, cuts[b], cuts[b + 1]);
  }

  /** A boundary between two entries of one key is straddled by it. */
  lemma StraddledBetween(cuts: seq<nat>, es: seq<RawEntry>, i: nat, m: nat, j: nat)
    requires SortedEntries(es) && m < |cuts| && i < cuts[m] <= j < |es| && es[i].key.key == es[j].key.key
    ensures Straddles(cuts, es, es[i].key.key)
  {
    SameKeyBetween(es, i, cuts[m], j);
    SameKeyBetween(es, i, cuts[m] - 1, j);
    assert StraddlesAt(es, cuts[m], es[i].key.key);
  }

  lemma NotBefore(cuts: seq<nat>, es: seq<RawEntry>, b: nat, c: nat, p: nat)
    requires SortedEntries(es) && c < b < |cuts| && cuts[c] < cuts[b] <= p < |es|
    ensures Compare(es[cuts[b]].key.key, es[p].key.key) <= 0
    ensures es[cuts[c]].key.key == es[p].key.key ==> Straddles(cuts, es, es[p].key.key)
  {
    UserKeysSorted(es, cuts[b], p);
    if es[cuts[c]].key.key == es[p].key.key {
      StraddledBetween(cuts, es, cuts[c], b, p);
    }
  }

  lemma NotAfter(cuts: seq<nat>, es: seq<RawEntry>, b: nat, c: nat, p: nat)
    requires SortedEntries(es) && b < c < |cuts| && p < cuts[b + 1] <= cuts[c] < |es|
    ensures Compare(es[cuts[c]].key.key, es[p].key.key) <= 0 ==> Straddles(cuts, es, es[p].key.key)
  {
    UserKeysSorted(es, p, cuts[c]);
    CompareIsTotalOrder(es[p].key.key, es[cuts[c]].key.key, es[p].key.key);
    if es[cuts[c]].key.key == es[p].key.key {
      StraddledBetween(cuts, es, p, b + 1, cuts[c]);
    }
  }

  /** Every version of a key that straddles no boundary lies in the chosen block. */
  lemma ChosenHolds(crc: Checksum, blocks: seq<Block>, cuts: seq<nat>, es: seq<RawEntry>, p: nat)
    requires Partition(blocks, cuts, es, |es|) && SortedEntries(es) && p < |es|
    requires !Straddles(cuts, es, es[p].key.key)
    ensures blocks != [] && var c := Chosen(IndexOf(crc, blocks), es[p].key.key); cuts[c] <= p < cuts[c + 1]
  {
    hide Compare, Straddles, SortedEntries, BlockIs, Full, Chosen;
    var index, key := IndexOf(crc, blocks), es[p].key.key;
    var b := BlockHolding(blocks, cuts, es, p, |blocks|);
    var c := Chosen(index, key);
    IndexIsSorted(crc, blocks, cuts, es);
    ChosenIsLast(index, key, b);
    BlockStarts(crc, blocks, cuts, es, b);
    BlockStarts(crc, blocks, cuts, es, c);
    if c < b {
      CutsGrow(blocks, cuts, es, c, b);
      NotBefore(cuts, es, b, c, p);
    } else if b < c {
      CutsGrow(blocks, cuts, es, b + 1, c);
      NotAfter(cuts, es, b, c, p);
    }
  }

  lemma VersionsOfSlice(es: seq<RawEntry>, lo: nat, hi: nat)
    requires lo <= hi <= |es|
    ensures VersionsOf(es[lo..hi]) == VersionsOf(es)[lo..hi]
  {
  }

  lemma {:induction false} LastVisibleOfSuffix(vs: seq<Version>, lo: nat, key: Bytes, snapshot: U64)
    requires lo <= |vs| && forall j :: 0 <= j < lo ==> !Visible(vs[j], key, snapshot)
    ensures LastVisible(vs, key, snapshot) == LastVisible(vs[lo..], key, snapshot)
  {
    if lo == |vs| {
      LastVisibleOfPrefix(vs, 0, key, snapshot);
      assert vs[..0] == vs[lo..] == [];
    } else if !Visible(vs[|vs| - 1], key, snapshot) {
      LastVisibleOfSuffix(vs[..|vs| - 1], lo, key, snapshot);
      assert vs[lo..][..|vs| - lo - 1] == vs[..|vs| - 1][lo..];
    }
  }

  /** Nothing outside lo..hi is visible: the search over all entries is the one over them. */
  lemma ReadOfSlice(vs: seq<Version>, lo: nat, hi: nat, key: Bytes, snapshot: U64)
    requires lo <= hi <= |vs|
    requires forall j :: 0 <= j < lo || hi <= j < |vs| ==> !Visible(vs[j], key, snapshot)
    ensures Read(vs, key, snapshot) == Read(vs[lo..hi], key, snapshot)
  {
    LastVisibleOfPrefix(vs, hi, key, snapshot);
    LastVisibleOfSuffix(vs[..hi], lo, key, snapshot);
    assert vs[..hi][lo..] == vs[lo..hi];
  }

  lemma OutsideInvisible(crc: Checksum, blocks: seq<Block>, cuts: seq<nat>, es: seq<RawEntry>, key: Bytes,
                         snapshot: U64, lo: nat, hi: nat)
    requires Partition(blocks, cuts, es, |es|) && SortedEntries(es) && !Straddles(cuts, es, key) && blocks != []
    requires lo == cuts[Chosen(IndexOf(crc, blocks), key)] && hi == cuts[Chosen(IndexOf(crc, blocks), key) + 1]
    requires lo <= hi <= |es|
    ensures Read(VersionsOf(es), key, snapshot) == Read(VersionsOf(es)[lo..hi], key, snapshot)
  {
    hide Straddles, SortedEntries, BlockIs, Full, Read, Partition, IndexOf, Chosen;
    var vs := VersionsOf(es);
    forall j | 0 <= j < lo || hi <= j < |vs| ensures !Visible(vs[j], key, snapshot) {
      if es[j].key.key == key {
        ChosenHolds(crc, blocks, cuts, es, j);
      }
    }
    ReadOfSlice(vs, lo, hi, key, snapshot);
  }

  // ------------------------------------------------------------------ lookup is the linear search

  lemma SortedSlice(es: seq<RawEntry>, lo: nat, hi: nat)
    requires SortedEntries(es) && AllFit(es) && lo <= hi <= |es|
    ensures SortedEntries(es[lo..hi]) && AllFit(es[lo..hi])
  {
  }

  /** A table with the true bounds, opened. */
  function InMemory(crc: Checksum, im: Image): Opened {
    Opened(FileOf(crc, im), IndexOf(crc, im.blocks), im.bloom, im.minKey, im.maxKey, im.numKeys)
  }

  /** What a writer puts into an image: the partition of its sorted entries, exact bounds and
      a filter that knows every key. */
  ghost predicate Written(crc: Checksum, im: Image, cuts: seq<nat>, es: seq<RawEntry>, min: Option<Bytes>,
                          max: Option<Bytes>) {
    && ImageFits(crc, im) && Partition(im.blocks, cuts, es, |es|) && SortedEntries(es) && AllFit(es)
    && IsMin(es, min) && IsMax(es, max) && im.minKey == Bound(min) && im.maxKey == Bound(max)
    && forall e :: e in es ==> Contains(im.bloom, e.key.key)
  }

  /** Whatever straddles, a lookup past the filters reads exactly one block, and reads it right. */
  lemma LookupReadsOneBlock(crc: Checksum, im: Image, cuts: seq<nat>, es: seq<RawEntry>, min: Option<Bytes>,
                            max: Option<Bytes>, key: Bytes, snapshot: U64) returns (lo: nat, hi: nat)
    requires Written(crc, im, cuts, es, min, max) && im.blocks != []
    ensures |cuts| == |im.blocks| + 1
    ensures lo == cuts[Chosen(IndexOf(crc, im.blocks), key)] && hi == cuts[Chosen(IndexOf(crc, im.blocks), key) + 1]
    ensures lo <= hi <= |es|
    ensures ScanChosen(crc, InMemory(crc, im), key, snapshot) == Read(VersionsOf(es)[lo..hi], key, snapshot)
  {
    hide FileOf, ReadBlock, Scan, Answer, LastVisible, Contains, BlockData, Chosen, ImageFits, SortedEntries, AllFit,
      Read;
    var c := Chosen(IndexOf(crc, im.blocks), key);
    lo, hi := cuts[c], cuts[c + 1];
    assert BlockIs(im.blocks[c], es, lo, hi);
    BlockReads(crc, im, c);
    SortedSlice(es, lo, hi);
    ScanIsRead(es[lo..hi], key, snapshot);
    VersionsOfSlice(es, lo, hi);
  }

  /** Filters never reject a key that has an entry. */
  lemma FiltersPass(crc: Checksum, im: Image, cuts: seq<nat>, es: seq<RawEntry>, min: Option<Bytes>, max: Option<Bytes>,
                    p: nat)
    requires Written(crc, im, cuts, es, min, max) && p < |es|
    ensures Compare(es[p].key.key, im.minKey) >= 0 && Compare(es[p].key.key, im.maxKey) <= 0
    ensures Contains(im.bloom, es[p].key.key) && im.blocks != []
  {
    hide Contains, Compare, FileOf;
    CompareIsTotalOrder(es[p].key.key, im.minKey, im.minKey);
    assert es[p] in es;
  }

  ghost predicate HasKey(es: seq<RawEntry>, key: Bytes) {
    exists e :: e in es && e.key.key == key
  }

  lemma AbsentRead(es: seq<RawEntry>, lo: nat, hi: nat, key: Bytes, snapshot: U64)
    requires !HasKey(es, key) && lo <= hi <= |es|
    ensures Read(VersionsOf(es)[lo..hi], key, snapshot) == None
  {
    forall v | v in VersionsOf(es)[lo..hi] ensures !Visible(v, key, snapshot) {
      var j :| lo <= j < hi && VersionsOf(es)[j] == v;
      assert es[j] in es;
    }
  }

  /** No block answers for a key without an entry. */
  lemma AbsentKey(crc: Checksum, im: Image, cuts: seq<nat>, es: seq<RawEntry>, min: Option<Bytes>, max: Option<Bytes>,
                  key: Bytes, snapshot: U64)
    requires Written(crc, im, cuts, es, min, max) && !HasKey(es, key)
    ensures Read(VersionsOf(es), key, snapshot) == None
    ensures im.blocks != [] ==> ScanChosen(crc, InMemory(crc, im), key, snapshot) == None
  {
    hide Written, ScanChosen, Chosen, Read, HasKey;
    AbsentRead(es, 0, |es|, key, snapshot);
    assert VersionsOf(es)[0..|es|] == VersionsOf(es);
    if im.blocks != [] {
      var lo, hi := LookupReadsOneBlock(crc, im, cuts, es, min, max, key, snapshot);
      AbsentRead(es, lo, hi, key, snapshot);
    }
  }

  /** A key with an entry is looked up in the chosen block. */
  lemma PresentKey(crc: Checksum, im: Image, cuts: seq<nat>, es: seq<RawEntry>, min: Option<Bytes>, max: Option<Bytes>,
                   key: Bytes, snapshot: U64)
    requires Written(crc, im, cuts, es, min, max) && HasKey(es, key)
    ensures im.blocks != []
    ensures LookupOf(crc, InMemory(crc, im), key, snapshot) == ScanChosen(crc, InMemory(crc, im), key, snapshot)
  {
    hide Written, ScanChosen, Compare, Contains;
    var e :| e in es && e.key.key == key;
    var p :| 0 <= p < |es| && es[p] == e;
    FiltersPass(crc, im, cuts, es, min, max, p);
    WrittenParts(crc, im, cuts, es, min, max);
  }

  lemma WrittenParts(crc: Checksum, im: Image, cuts: seq<nat>, es: seq<RawEntry>, min: Option<Bytes>,
                     max: Option<Bytes>)
    requires Written(crc, im, cuts, es, min, max)
    ensures im.bloom.Valid() && ImageFits(crc, im)
    ensures Partition(im.blocks, cuts, es, |es|) && SortedEntries(es)
  {
  }

  /** With the true bounds, a lookup of a key that straddles no block boundary answers what a
      search over all entries answers. */
  lemma LookupIsRead(crc: Checksum, im: Image, cuts: seq<nat>, es: seq<RawEntry>, min: Option<Bytes>,
                     max: Option<Bytes>, key: Bytes, snapshot: U64)
    requires Written(crc, im, cuts, es, min, max) && !Straddles(cuts, es, key)
    ensures im.bloom.Valid() && LookupOf(crc, InMemory(crc, im), key, snapshot) == Read(VersionsOf(es), key, snapshot)
  {
    hide Written, LookupOf, ScanChosen, Chosen, Straddles, Read, HasKey, Partition, ImageFits, IndexOf;
    WrittenParts(crc, im, cuts, es, min, max);
    if HasKey(es, key) {
      PresentKey(crc, im, cuts, es, min, max, key, snapshot);
      var lo, hi := LookupReadsOneBlock(crc, im, cuts, es, min, max, key, snapshot);
      OutsideInvisible(crc, im.blocks, cuts, es, key, snapshot, lo, hi);
    } else {
      AbsentKey(crc, im, cuts, es, min, max, key, snapshot);
      AbsentLookup(crc, im, key, snapshot);
    }
  }

  lemma AbsentLookup(crc: Checksum, im: Image, key: Bytes, snapshot: U64)
    requires im.bloom.Valid() && (im.blocks != [] ==> ScanChosen(crc, InMemory(crc, im), key, snapshot) == None)
    ensures LookupOf(crc, InMemory(crc, im), key, snapshot) == None
  {
    hide ScanChosen;
  }

  /** Straddling or not, a lookup finds the newest visible version exactly when it, or a copy of
      it, lies in the block. */
  lemma FindsNewestInBlock(vs: seq<Version>, lo: nat, hi: nat, key: Bytes, snapshot: U64, v: Version)
    requires NonDecreasing(vs) && lo <= hi <= |vs| && LastVisible(vs, key, snapshot) == Some(v)
    ensures var r := LastVisible(vs[lo..hi], key, snapshot);
      r.Some? && r.value.key == v.key <==> exists u :: u in vs[lo..hi] && u.key == v.key
    ensures (forall u :: u in vs && u.key == v.key ==> u == v) ==>
      (LastVisible(vs[lo..hi], key, snapshot) == Some(v) <==> v in vs[lo..hi])
  {
    hide LastVisible;
    var block := vs[lo..hi];
    var r := LastVisible(block, key, snapshot);
    assert forall u :: u in block ==> u in vs;
    if u :| u in block && u.key == v.key {
      LastInOrderIsNewest(block, key, snapshot, u);
      LastInOrderIsNewest(vs, key, snapshot, r.value);
    }
  }

  /** What a search makes of the version it found. */
  function AnswerOf(v: Option<Version>): Option<Bytes> {
    if v.None? || v.value.deleted then None else v.value.value
  }

  /** What the versions from lo to hi have: the newest visible version, or another one that answers
      the same. */
  ghost predicate FoundIn(vs: seq<Version>, lo: nat, hi: nat, key: Bytes, snapshot: U64)
    requires lo <= hi <= |vs|
  {
    var newest := LastVisible(vs, key, snapshot);
    || newest.None?
    || (exists p :: lo <= p < hi && IsLastVisible(vs, p, key, snapshot))
    || AnswerOf(LastVisible(vs[lo..hi], key, snapshot)) == AnswerOf(newest)
  }

  /** No version behind the p-th is visible, but that one is. */
  ghost predicate IsLastVisible(vs: seq<Version>, p: nat, key: Bytes, snapshot: U64) {
    p < |vs| && Visible(vs[p], key, snapshot) && forall i :: p < i < |vs| ==> !Visible(vs[i], key, snapshot)
  }

  lemma SliceReadIff(vs: seq<Version>, lo: nat, hi: nat, key: Bytes, snapshot: U64)
    requires lo <= hi <= |vs|
    ensures Read(vs[lo..hi], key, snapshot) == Read(vs, key, snapshot) <==> FoundIn(vs, lo, hi, key, snapshot)
  {
    hide LastVisible;
    var v := LastVisible(vs, key, snapshot);
    if v.None? {
      InvisibleSlice(vs, lo, hi, key, snapshot);
    } else if p: nat :| lo <= p < hi && IsLastVisible(vs, p, key, snapshot) {
      LastVisibleIs(vs, key, snapshot, p);
      assert vs[lo..hi][p - lo] == vs[p];
      LastVisibleIs(vs[lo..hi], key, snapshot, p - lo);
    }
  }

  lemma InvisibleSlice(vs: seq<Version>, lo: nat, hi: nat, key: Bytes, snapshot: U64)
    requires lo <= hi <= |vs| && LastVisible(vs, key, snapshot).None?
    ensures LastVisible(vs[lo..hi], key, snapshot).None?
  {
    assert forall u :: u in vs[lo..hi] ==> u in vs;
  }

  /** The versions in the block that a lookup of key chooses. */
  ghost predicate FoundInChosen(crc: Checksum, im: Image, cuts: seq<nat>, es: seq<RawEntry>,
                                key: Bytes, snapshot: U64)
  {
    && im.blocks != [] && |cuts| == |im.blocks| + 1
    && var c := Chosen(IndexOf(crc, im.blocks), key);
       cuts[c] <= cuts[c + 1] <= |es| && FoundIn(VersionsOf(es), cuts[c], cuts[c + 1], key, snapshot)
  }

  /** Straddling or not, the lookup of any key in any written table answers what a search over all
      entries answers exactly when the key has no entry or its newest visible version is found in
      the chosen block. */
  lemma LookupIsReadIff(crc: Checksum, im: Image, cuts: seq<nat>, es: seq<RawEntry>, min: Option<Bytes>,
                        max: Option<Bytes>, key: Bytes, snapshot: U64)
    requires Written(crc, im, cuts, es, min, max)
    ensures im.bloom.Valid()
    ensures LookupOf(crc, InMemory(crc, im), key, snapshot) == Read(VersionsOf(es), key, snapshot)
      <==> !HasKey(es, key) || FoundInChosen(crc, im, cuts, es, key, snapshot)
  {
    hide Written, LookupOf, ScanChosen, Chosen, HasKey, Partition, ImageFits, IndexOf, LastVisible, FoundIn, Read;
    WrittenParts(crc, im, cuts, es, min, max);
    if HasKey(es, key) {
      PresentKey(crc, im, cuts, es, min, max, key, snapshot);
      var lo, hi := LookupReadsOneBlock(crc, im, cuts, es, min, max, key, snapshot);
      SliceReadIff(VersionsOf(es), lo, hi, key, snapshot);
    } else {
      AbsentKey(crc, im, cuts, es, min, max, key, snapshot);
      AbsentLookup(crc, im, key, snapshot);
    }
  }

  /** After the file is opened again the max key it shows is wrong, and a lookup differs from
      the right one exactly for a live key above the min key of a table whose two bounds have
      the same length. */
  lemma ReopenedLookup(crc: Checksum, im: Image, cuts: seq<nat>, es: seq<RawEntry>, min: Option<Bytes>,
                       max: Option<Bytes>, key: Bytes, snapshot: U64)
    requires Written(crc, im, cuts, es, min, max)
    ensures OpenOf(FileOf(crc, im)).Some? && OpenOf(FileOf(crc, im)).value.bloom.Valid() && im.bloom.Valid()
    ensures LookupOf(crc, OpenOf(FileOf(crc, im)).value, key, snapshot)
      == LookupOf(crc, InMemory(crc, im), key, snapshot)
      <==> (|im.minKey| != |im.maxKey| || Compare(key, im.minKey) <= 0
            || LookupOf(crc, InMemory(crc, im), key, snapshot) == None)
  {
    hide Written, LookupOf, ScanChosen, HasKey, FileOf, OpenOf, IndexOf, Compare;
    WrittenParts(crc, im, cuts, es, min, max);
    OpenOfFile(crc, im);
    MaxIsHarmless(crc, im, cuts, es, min, max, key, snapshot);
    LookupUnderMax(crc, InMemory(crc, im), ParsedMaxKey(im), key, snapshot);
    CompareZero(key, im.minKey);
    if |im.minKey| == 0 && |im.maxKey| == 0 && key != [] {
      MinIsHarmless(crc, im, cuts, es, min, max, key, snapshot);
    }
  }

  lemma LookupUnderMax(crc: Checksum, t: Opened, max: Bytes, key: Bytes, snapshot: U64)
    requires t.bloom.Valid()
    ensures LookupOf(crc, t.(maxKey := max), key, snapshot)
      == if |max| > 0 && Compare(key, max) > 0 then None else LookupOf(crc, t.(maxKey := []), key, snapshot)
  {
    hide Compare, Contains, ScanChosen;
    assert t.index != [] ==>
      ScanChosen(crc, t.(maxKey := max), key, snapshot) == ScanChosen(crc, t.(maxKey := []), key, snapshot) by {
      SameScan(crc, t, max, key, snapshot);
    }
  }

  lemma SameScan(crc: Checksum, t: Opened, max: Bytes, key: Bytes, snapshot: U64)
    ensures t.index != [] ==>
      ScanChosen(crc, t.(maxKey := max), key, snapshot) == ScanChosen(crc, t.(maxKey := []), key, snapshot)
  {
    hide ReadBlock, Chosen, Scan;
  }

  /** The true max key rejects only what is absent anyway. */
  lemma MaxIsHarmless(crc: Checksum, im: Image, cuts: seq<nat>, es: seq<RawEntry>, min: Option<Bytes>,
                      max: Option<Bytes>, key: Bytes, snapshot: U64)
    requires Written(crc, im, cuts, es, min, max)
    ensures im.bloom.Valid()
    ensures LookupOf(crc, InMemory(crc, im), key, snapshot)
      == LookupOf(crc, InMemory(crc, im).(maxKey := []), key, snapshot)
  {
    hide Written, LookupOf, ScanChosen;
    WrittenParts(crc, im, cuts, es, min, max);
    LookupUnderMax(crc, InMemory(crc, im), im.maxKey, key, snapshot);
    assert InMemory(crc, im).(maxKey := im.maxKey) == InMemory(crc, im);
    if HasKey(es, key) {
      var e :| e in es && e.key.key == key;
      var p :| 0 <= p < |es| && es[p] == e;
      FiltersPass(crc, im, cuts, es, min, max, p);
    } else {
      AbsentKey(crc, im, cuts, es, min, max, key, snapshot);
      AbsentLookup(crc, im, key, snapshot);
      AbsentUnbounded(crc, im, key, snapshot);
    }
  }

  lemma AbsentUnbounded(crc: Checksum, im: Image, key: Bytes, snapshot: U64)
    requires im.bloom.Valid() && (im.blocks != [] ==> ScanChosen(crc, InMemory(crc, im), key, snapshot) == None)
    ensures LookupOf(crc, InMemory(crc, im).(maxKey := []), key, snapshot) == None
  {
    SameScan(crc, InMemory(crc, im), im.maxKey, key, snapshot);
    assert InMemory(crc, im).(maxKey := im.maxKey) == InMemory(crc, im);
    hide ScanChosen;
  }

  /** A table whose bounds are both empty answers for no other key. */
  lemma MinIsHarmless(crc: Checksum, im: Image, cuts: seq<nat>, es: seq<RawEntry>, min: Option<Bytes>,
                      max: Option<Bytes>, key: Bytes, snapshot: U64)
    requires Written(crc, im, cuts, es, min, max) && im.maxKey == [] && key != []
    ensures im.bloom.Valid() && LookupOf(crc, InMemory(crc, im), key, snapshot) == None
  {
    hide Written, LookupOf, ScanChosen;
    WrittenParts(crc, im, cuts, es, min, max);
    if HasKey(es, key) {
      var e :| e in es && e.key.key == key;
      var p :| 0 <= p < |es| && es[p] == e;
      FiltersPass(crc, im, cuts, es, min, max, p);
    } else {
      AbsentKey(crc, im, cuts, es, min, max, key, snapshot);
      AbsentLookup(crc, im, key, snapshot);
    }
  }
}
