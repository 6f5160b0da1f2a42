/** Iterating over an SSTable, and the table that comes out of a writer as a whole. */
module TableIter {
  import opened Base
  import opened Bloom
  import opened Format
  import opened Keys
  import opened Lookup
  import opened Mvcc
  import opened Sorting
  import opened Table
  import opened Versions
  import opened Writer

  datatype Pair = Pair(key: MVCCKey, val: Bytes)

  /** What is still to come: the pairs, and whether an error ends them. */
  datatype Stream = Stream(pairs: seq<Pair>, failed: bool)

  /** Everything from pos on in the current block, and from block next on in the file. */
  function Drain(crc: Checksum, data: Bytes, index: seq<IndexEntry>, next: nat, block: Bytes, pos: nat): Stream
    requires next <= |index| && pos <= |block|
    decreases |index| - next, |block| - pos
  {
    if pos < |block| then
      match ParseEntry(block, pos)
      case Truncated => Stream([], true)
      case BadKey(_) => Stream([], true)
      case Entry(k, v, n) =>
        var rest := Drain(crc, data, index, next, block, n);
        Stream([Pair(k, StripTag(v))] + rest.pairs, rest.failed)
    else if next == |index| then Stream([], false)
    else
      match ReadBlock(crc, data, index[next].offset)
      case None => Stream([], true)
      case Some(b) => Drain(crc, data, index, next + 1, b, 0)
  }

  class SSTableIterator {
    const crc: Checksum
    const data: Bytes
    const index: seq<IndexEntry>
    var blockIdx: int
    var blockData: Bytes
    var pos: nat
    var key: MVCCKey
    var val: Bytes
    var err: bool
    var ended: bool

    ghost predicate Valid()
      reads this
    {
      pos <= |blockData| && -1 <= blockIdx && (!err && !ended ==> blockIdx < |index|)
    }

    /** What the iterator has yet to yield. */
    ghost function Remaining(): Stream
      requires Valid()
      reads this
    {
      if err || ended then Stream([], err) else Drain(crc, data, index, blockIdx + 1, blockData, pos)
    }

    constructor (crc: Checksum, reader: Reader)
      ensures Valid() && Remaining() == Drain(crc, reader.data, reader.index, 0, [], 0)
      ensures this.crc == crc && data == reader.data && index == reader.index
    {
      this.crc, data, index := crc, reader.data, reader.index;
      blockIdx, blockData, pos := -1, [], 0;
      key, val, err, ended := MVCCKey([], 0), [], false, false;
      new;
      ghost var before := Remaining();
      var more := NextBlock();
      assert Remaining() == before;
    }

    /** Moving on to the next block changes nothing about what remains. */
    method NextBlock() returns (more: bool)
      requires Valid() && !err && !ended && pos == |blockData|
      modifies this
      ensures Valid() && Remaining() == old(Remaining()) && key == old(key) && val == old(val)
      ensures more == !(err || ended)
      ensures more ==> pos == 0 && blockIdx == old(blockIdx) + 1
    {
      blockIdx := blockIdx + 1;
      if blockIdx >= |index| {
        ended := true;
        return false;
      }
      var block := ReadBlock(crc, data, index[blockIdx].offset);
      if block.None? {
        err := true;
        return false;
      }
      blockData := block.value;
      pos := 0;
      return true;
    }

    /** Next yields the first of what remains, or reports the end or the error. */
    method Next() returns (more: bool)
      requires Valid()
      modifies this
      ensures Valid() && more == (old(Remaining()).pairs != [])
      ensures more ==> Pair(key, val) == old(Remaining()).pairs[0]
      ensures more ==> Remaining() == Stream(old(Remaining()).pairs[1..], old(Remaining()).failed)
      ensures !more ==> Remaining() == old(Remaining()) && err == old(Remaining()).failed
    {
      hide ReadBlock, ParseEntry, StripTag;
      if ended || err {
        return false;
      }
      while true
        invariant Valid() && !ended && !err && Remaining() == old(Remaining())
        decreases |index| - blockIdx
      {
        if pos < |blockData| {
          match ParseEntry(blockData, pos) {
            case Truncated =>
              err := true;
              return false;
            case BadKey(next) =>
              pos := next;
              err := true;
              return false;
            case Entry(k, v, next) =>
              pos := next;
              key := k;
              val := StripTag(v);
              return true;
          }
        }
        var moved := NextBlock();
        if !moved {
          return false;
        }
      }
    }
  }

  /** From pos on the block is entries to its end. */
  predicate Whole(block: Bytes, pos: nat)
    requires pos <= |block|
    decreases |block| - pos
  {
    pos == |block| || var p := ParseEntry(block, pos); p.Entry? && Whole(block, p.next)
  }

  /** An iteration ends without an error exactly when every block it meets is there with the right
      checksum and is entries to its end. */
  lemma {:induction false} FailsIff(crc: Checksum, data: Bytes, index: seq<IndexEntry>, next: nat, block: Bytes,
                                    pos: nat)
    requires next <= |index| && pos <= |block|
    ensures !Drain(crc, data, index, next, block, pos).failed
      <==> (Whole(block, pos) && forall i :: next <= i < |index| ==>
              var b := ReadBlock(crc, data, index[i].offset); b.Some? && Whole(b.value, 0))
    decreases |index| - next, |block| - pos
  {
    hide ParseEntry, ReadBlock, StripTag;
    if pos < |block| {
      if ParseEntry(block, pos).Entry? {
        FailsIff(crc, data, index, next, block, ParseEntry(block, pos).next);
      }
    } else if next < |index| {
      var b := ReadBlock(crc, data, index[next].offset);
      if b.Some? {
        FailsIff(crc, data, index, next + 1, b.value, 0);
      }
    }
  }

  // ------------------------------------------------------------------ the whole table

  function PairsOf(es: seq<RawEntry>): (ps: seq<Pair>)
    ensures |ps| == |es|
  {
    seq(|es|, i requires 0 <= i < |es| => Pair(es[i].key, StripTag(Stored(es[i]))))
  }

  lemma {:induction false} DrainBlock(crc: Checksum, data: Bytes, index: seq<IndexEntry>, next: nat, es: seq<RawEntry>,
                                      i: nat)
    requires next <= |index| && AllFit(es) && i <= |es|
    ensures Offset(es, i) <= |BlockData(es)|
    ensures Drain(crc, data, index, next, BlockData(es), Offset(es, i))
      == var rest := Drain(crc, data, index, next, BlockData(es),
                           |BlockData(es)|); Stream(PairsOf(es)[i..] + rest.pairs, rest.failed)
    decreases |es| - i
  {
    hide BlockData, Offset, ParseEntry, ReadBlock, Stored, StripTag;
    EndOfBlock(es);
    var rest := Drain(crc, data, index, next, BlockData(es), |BlockData(es)|);
    if i == |es| {
      assert PairsOf(es)[i..] + rest.pairs == rest.pairs;
    } else {
      ParseInBlock(es, i);
      DrainBlock(crc, data, index, next, es, i + 1);
      assert PairsOf(es)[i..] + rest.pairs == [PairsOf(es)[i]] + (PairsOf(es)[i + 1..] + rest.pairs);
    }
  }

  lemma {:induction false} DrainFrom(crc: Checksum, im: Image, cuts: seq<nat>, es: seq<RawEntry>, b: nat, block: Bytes)
    requires ImageFits(crc, im) && Partition(im.blocks, cuts, es, |es|) && AllFit(es) && b <= |im.blocks|
    ensures cuts[b] <= |es|
    ensures Drain(crc, FileOf(crc, im), IndexOf(crc, im.blocks), b, block, |block|)
      == Stream(PairsOf(es)[cuts[b]..], false)
    decreases |im.blocks| - b
  {
    hide FileOf, ReadBlock, BlockData, PairsOf, AllFit, ImageFits;
    if b < |im.blocks| {
      assert BlockIs(im.blocks[b], es, cuts[b], cuts[b + 1]);
      var lo, hi := cuts[b], cuts[b + 1];
      BlockReads(crc, im, b);
      FitSlice(es, lo, hi);
      DrainBlock(crc, FileOf(crc, im), IndexOf(crc, im.blocks), b + 1, es[lo..hi], 0);
      OffsetStart(es[lo..hi]);
      DrainFrom(crc, im, cuts, es, b + 1, im.blocks[b].data);
      PairsOfSlice(es, lo, hi);
    } else {
      assert PairsOf(es)[|es|..] == [];
    }
  }

  lemma OffsetStart(es: seq<RawEntry>)
    ensures Offset(es, 0) == 0 && PairsOf(es)[0..] == PairsOf(es)
  {
  }

  lemma FitSlice(es: seq<RawEntry>, lo: nat, hi: nat)
    requires AllFit(es) && lo <= hi <= |es|
    ensures AllFit(es[lo..hi])
  {
  }

  lemma PairsOfSlice(es: seq<RawEntry>, lo: nat, hi: nat)
    requires lo <= hi <= |es|
    ensures PairsOf(es)[lo..] == PairsOf(es[lo..hi])[0..] + PairsOf(es)[hi..]
  {
  }

  /** Draining an iterator over a finished table yields exactly its entries in sorted order,
      with their tags off and without an error. */
  lemma IteratorYieldsEntries(crc: Checksum, im: Image, cuts: seq<nat>, es: seq<RawEntry>)
    requires ImageFits(crc, im) && Partition(im.blocks, cuts, es, |es|) && AllFit(es)
    ensures Drain(crc, FileOf(crc, im), IndexOf(crc, im.blocks), 0, [], 0) == Stream(PairsOf(es), false)
  {
    hide FileOf, BlockIs, Full, AllFit, ImageFits, IndexOf, Drain;
    DrainFrom(crc, im, cuts, es, 0, []);
    assert PairsOf(es)[0..] == PairsOf(es);
  }

  // ------------------------------------------------------------------ against the appended entries

  /** The newest entry of key committed at or before the snapshot, in any order of entries. */
  function Newest(es: seq<RawEntry>, key: Bytes, snapshot: U64): Option<RawEntry> {
    if es == [] then None
    else
      var e, rest := es[|es| - 1], Newest(es[..|es| - 1], key, snapshot);
      if !(e.key.key == key && e.key.CommitTS() <= snapshot) then rest
      else if rest.None? || rest.value.key.CommitTS() < e.key.CommitTS() then Some(e)
      else rest
  }

  lemma {:induction false} NewestIsNewest(es: seq<RawEntry>, key: Bytes, snapshot: U64, e: RawEntry)
    requires e in es && e.key.key == key && e.key.CommitTS() <= snapshot
    ensures var r := Newest(es, key, snapshot); r.Some? && e.key.CommitTS() <= r.value.key.CommitTS()
  {
    if e in es[..|es| - 1] {
      NewestIsNewest(es[..|es| - 1], key, snapshot, e);
    }
  }

  lemma {:induction false} NewestIsMember(es: seq<RawEntry>, key: Bytes, snapshot: U64)
    ensures var r := Newest(es, key, snapshot);
      r.Some? ==> r.value in es && r.value.key.key == key && r.value.key.CommitTS() <= snapshot
  {
    if es != [] {
      NewestIsMember(es[..|es| - 1], key, snapshot);
    }
  }

  /** The payload of an entry, none for a tombstone. */
  function Payload(e: RawEntry): Option<Bytes> {
    if IsTombstone(Stored(e)) then None else Some(StripTag(Stored(e)))
  }

  function NewestPayload(es: seq<RawEntry>, key: Bytes, snapshot: U64): Option<Bytes> {
    match Newest(es, key, snapshot)
    case None => None
    case Some(e) => Payload(e)
  }

  /** Entries of one key and timestamp, if there are several, have the same payload: they are
      copies of one write. */
  ghost predicate Copies(es: seq<RawEntry>) {
    forall a, b :: a in es && b in es && a.key == b.key ==> Payload(a) == Payload(b)
  }

  /** The search over the sorted entries answers with the newest of the appended ones. */
  lemma ReadIsNewest(sorted: seq<RawEntry>, es: seq<RawEntry>, key: Bytes, snapshot: U64)
    requires SortedEntries(sorted) && multiset(sorted) == multiset(es) && Copies(es)
    ensures Read(VersionsOf(sorted), key, snapshot) == NewestPayload(es, key, snapshot)
  {
    hide Stored, StripTag, IsTombstone, LastVisible, Newest, SortedEntries, Payload, NonDecreasing;
    var vs := VersionsOf(sorted);
    SameElements(sorted, es);
    EntriesInOrder(sorted);
    NewestIsMember(es, key, snapshot);
    var r, n := LastVisible(vs, key, snapshot), Newest(es, key, snapshot);
    if n.Some? {
      var j :| 0 <= j < |sorted| && sorted[j] == n.value;
      assert vs[j] == VersionOf(n.value);
      LastInOrderIsNewest(vs, key, snapshot, vs[j]);
    }
    if r.Some? {
      var i :| 0 <= i < |vs| && vs[i] == r.value;
      NewestIsNewest(es, key, snapshot, sorted[i]);
      SameCommit(sorted[i].key, n.value.key);
      ReadsPayload(sorted[i]);
    }
  }

  lemma EntriesInOrder(sorted: seq<RawEntry>)
    requires SortedEntries(sorted)
    ensures NonDecreasing(VersionsOf(sorted))
  {
  }

  lemma SameCommit(a: MVCCKey, b: MVCCKey)
    requires a.key == b.key && a.CommitTS() == b.CommitTS()
    ensures a == b
  {
  }

  lemma ReadsPayload(e: RawEntry)
    ensures Payload(e) == if VersionOf(e).deleted then None else VersionOf(e).value
  {
  }

  /** The whole chain: entries appended in any order, sorted, written and looked up with the
      true bounds give the newest visible payload of every key that straddles no boundary, and of
      any other key exactly when the chosen block has it. */
  lemma WrittenTableReads(crc: Checksum, im: Image, cuts: seq<nat>, sorted: seq<RawEntry>, min: Option<Bytes>,
                          max: Option<Bytes>, es: seq<RawEntry>, key: Bytes, snapshot: U64)
    requires Written(crc, im, cuts, sorted, min, max) && multiset(sorted) == multiset(es) && Copies(es)
    ensures im.bloom.Valid()
    ensures !Straddles(cuts, sorted, key) ==>
      LookupOf(crc, InMemory(crc, im), key, snapshot) == NewestPayload(es, key, snapshot)
    ensures LookupOf(crc, InMemory(crc, im), key, snapshot) == NewestPayload(es, key, snapshot)
      <==> !HasKey(sorted, key) || FoundInChosen(crc, im, cuts, sorted, key, snapshot)
  {
    hide LookupOf, Read, NewestPayload, Straddles, Copies, Partition, ImageFits, HasKey, FoundInChosen;
    if !Straddles(cuts, sorted, key) {
      LookupIsRead(crc, im, cuts, sorted, min, max, key, snapshot);
    }
    LookupIsReadIff(crc, im, cuts, sorted, min, max, key, snapshot);
    ReadIsNewest(sorted, es, key, snapshot);
  }
}
