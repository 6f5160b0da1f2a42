/** Flushing a memtable to a table, and what reads of the table give afterwards. */
module Flush {
  import opened Base
  import opened Bloom
  import opened Format
  import opened Keys
  import Links
  import L = Lookup
  import opened Mvcc
  import opened SkipList
  import opened Sorting
  import opened Table
  import I = TableIter
  import opened Values
  import opened Versions
  import opened Writer

  /** A live version as it is appended: its value already carries a tag. */
  function FlushEntry(v: Version): RawEntry {
    RawEntry(v.key, ValueOf(v), true)
  }

  function FlushEntries(s: seq<Version>): (es: seq<RawEntry>)
    ensures |es| == |s|
  {
    seq(|s|, i requires 0 <= i < |s| => FlushEntry(s[i]))
  }

  /** The flush loop: every live version of the memtable goes to the writer, and the range for
      the manifest is tracked on the way. */
  method AppendLive(mt: SkipList, writer: TableWriter) returns (count: nat, min: Option<Bytes>, max: Option<Bytes>)
    requires mt.Valid() && writer.Valid() && writer.entries == []
    modifies writer, writer.bloom
    ensures writer.Valid() && mt.Valid() && mt.Versions() == old(mt.Versions())
    ensures writer.entries == FlushEntries(Live(mt.Versions())) && count == |writer.entries|
    ensures IsMin(writer.entries, min) && IsMax(writer.entries, max)
  {
    hide Contains, IsMin, IsMax, Links.Linked, Links.View, Links.Level, LiveFrom, Compare, EntryBytes, LiveCount;
    hide TableWriter.Valid, SkipList.Valid, FlushEntries;
    var iter := new SkipListIterator(mt);
    ghost var live := Live(mt.Versions());
    count, min, max := 0, None, None;
    NoBounds();
    var more := iter.Next();
    while more
      invariant writer.Valid() && iter.Valid() && fresh(iter)
      invariant count + (if more then 1 else 0) <= |live|
      invariant more ==> live[count] == iter.Version() && iter.Remaining() == live[count + 1..]
      invariant !more ==> count == |live|
      invariant mt.Valid() && iter.list == mt && mt.Versions() == old(mt.Versions())
      invariant writer.entries == FlushEntries(live[..count])
      invariant IsMin(writer.entries, min) && IsMax(writer.entries, max) && (min.None? <==> count == 0)
      invariant (max.None? <==> count == 0)
      decreases |live| - count, more
    {
      var v := iter.Version();
      BoundsGrow(writer.entries, FlushEntry(v), min, max);
      if count == 0 {
        min, max := Some(v.key.key), Some(v.key.key);
      } else {
        if Compare(v.key.key, min.value) < 0 {
          min := Some(v.key.key);
        }
        if Compare(v.key.key, max.value) > 0 {
          max := Some(v.key.key);
        }
      }
      writer.AppendTagged(v.key, ValueOf(v));
      FlushEntriesStep(live, count);
      count := count + 1;
      ghost var rest := iter.Remaining();
      more := iter.Next();
      if more {
        RestStep(live, count, rest);
      }
    }
    assert live[..count] == live;
  }

  /** A flush: the loop, and the table that Finish writes from it. */
  method FlushMemTable(mt: SkipList, crc: Checksum, m: U64, k: U64, seed: bv64)
    returns (file: Bytes, min: Option<Bytes>, max: Option<Bytes>, count: nat, ghost im: Image, ghost cuts: seq<nat>,
             ghost sorted: seq<RawEntry>)
    requires mt.Valid() && 0 < m <= MAX_U64 - 63 && k > 0
    ensures SortedEntries(sorted) && multiset(sorted) == multiset(FlushEntries(Live(mt.Versions())))
    ensures Partition(im.blocks, cuts, sorted, |sorted|) && file == FileOf(crc, im) && count == |sorted| == im.numKeys
    ensures IsMin(sorted, min) && IsMax(sorted, max)
    ensures count == |Live(mt.Versions())| && IsMin(FlushEntries(Live(mt.Versions())), min)
    ensures IsMax(FlushEntries(Live(mt.Versions())), max)
    ensures exists i: Image :: file == FileOf(crc, i) && i.numKeys == count
    ensures sorted != [] ==> IsMin(sorted, Some(im.minKey)) && IsMax(sorted, Some(im.maxKey))
    ensures im.bloom.Valid() && forall e :: e in sorted ==> Contains(im.bloom, e.key.key)
  {
    hide Contains, FileOf, Partition, IsMin, IsMax, SortedEntries, LiveFrom;
    var writer := new TableWriter(m, k, seed);
    count, min, max := AppendLive(mt, writer);
    ghost var appended := writer.entries;
    ghost var blocks;
    file, blocks, cuts := writer.Finish(crc);
    sorted := writer.entries;
    SameElements(sorted, appended);
    SameBounds(appended, sorted, min, max);
    im := Image(blocks, writer.bloom.Abs(), Bound(writer.minKey), Bound(writer.maxKey), |sorted|);
    WriterBounds(writer);
  }

  lemma WriterBounds(w: TableWriter)
    requires w.Valid()
    ensures w.entries == [] || (IsMin(w.entries, Some(Bound(w.minKey))) && IsMax(w.entries, Some(Bound(w.maxKey))))
    ensures w.bloom.Abs().Valid() && forall e :: e in w.entries ==> Contains(w.bloom.Abs(), e.key.key)
  {
    hide Contains;
  }

  lemma RestStep<T>(s: seq<T>, n: nat, rest: seq<T>)
    requires n <= |s| && rest == s[n..] && rest != []
    ensures n < |s| && rest[0] == s[n] && rest[1..] == s[n + 1..]
  {
  }

  lemma FlushEntriesStep(live: seq<Version>, n: nat)
    requires n < |live|
    ensures FlushEntries(live[..n + 1]) == FlushEntries(live[..n]) + [FlushEntry(live[n])]
  {
  }

  // ------------------------------------------------------------------ reads after a flush

  /** The payload of a stored value: the tag off, and a tombstone form read as absent. */
  function PayloadOf(value: Option<Bytes>): Option<Bytes> {
    match value
    case None => None
    case Some(stored) => if IsTombstone(stored) then None else Some(StripTag(stored))
  }

  /** What a read of the memtable stands for. */
  function MemRead(s: seq<Version>, key: Bytes, snapshot: U64): Option<Bytes> {
    match SnapshotRead(s, key, snapshot)
    case None => None
    case Some(value) => PayloadOf(value)
  }

  /** What a search over the flushed entries answers. */
  function TableRead(s: seq<Version>, key: Bytes, snapshot: U64): Option<Bytes> {
    Read(VersionsOf(FlushEntries(Live(s))), key, snapshot)
  }

  /** The live version a read of the table finds, from position i of the memtable on. */
  lemma {:induction false} FlushedLast(s: seq<Version>, key: Bytes, snapshot: U64)
    ensures Read(VersionsOf(FlushEntries(s)), key, snapshot)
      == match LastVisible(s, key, snapshot) { case None => None case Some(v) => PayloadOf(ValueOf(v)) }
  {
    if s != [] {
      var n := |s| - 1;
      FlushedLast(s[..n], key, snapshot);
      var vs := VersionsOf(FlushEntries(s));
      assert vs[..n] == VersionsOf(FlushEntries(s[..n]));
      assert vs[n] == VersionOf(FlushEntry(s[n]));
      LastVisibleOfPrefixUnless(vs, n, key, snapshot);
    }
  }

  lemma LastVisibleOfPrefixUnless(vs: seq<Version>, n: nat, key: Bytes, snapshot: U64)
    requires |vs| == n + 1
    ensures LastVisible(vs, key, snapshot)
      == if Visible(vs[n], key, snapshot) then Some(vs[n]) else LastVisible(vs[..n], key, snapshot)
  {
  }

  lemma {:induction false} AllLive(s: seq<Version>, i: nat)
    requires i <= |s| && forall v :: v in s ==> !v.deleted
    ensures LiveFrom(s, i) == s[i..]
    decreases |s| - i
  {
    if i < |s| {
      AllLive(s, i + 1);
      assert s[i..] == [s[i]] + s[i + 1..];
    }
  }

  /** A flush of a memtable without tombstones keeps every read of a non-empty key. */
  lemma FlushKeepsReads(s: seq<Version>, key: Bytes, snapshot: U64)
    requires (forall v :: v in s ==> !v.deleted) && key != []
    ensures TableRead(s, key, snapshot) == MemRead(s, key, snapshot)
  {
    hide Read, LastVisible;
    AllLive(s, 0);
    assert s[0..] == s;
    FlushedLast(s, key, snapshot);
    if LastVisible(s, key, snapshot).Some? {
      assert LastVisible(s, key, snapshot).value in s;
    }
  }

  lemma {:induction false} LiveFromAppend(s: seq<Version>, v: Version, i: nat)
    requires i <= |s|
    ensures LiveFrom(s + [v], i) == LiveFrom(s, i) + (if v.deleted then [] else [v])
    decreases |s| - i
  {
    if i < |s| {
      LiveFromAppend(s, v, i + 1);
    }
  }

  /** The newest live version that is visible. */
  function LastLiveVisible(s: seq<Version>, key: Bytes, snapshot: U64): (r: Option<Version>)
    ensures r.Some? ==> r.value in s && Visible(r.value, key, snapshot) && !r.value.deleted
  {
    if s == [] then None
    else if Visible(s[|s| - 1], key, snapshot) && !s[|s| - 1].deleted then Some(s[|s| - 1])
    else LastLiveVisible(s[..|s| - 1], key, snapshot)
  }

  lemma {:induction false} LastVisibleOfLive(s: seq<Version>, key: Bytes, snapshot: U64)
    ensures LastVisible(Live(s), key, snapshot) == LastLiveVisible(s, key, snapshot)
  {
    if s != [] {
      var n := |s| - 1;
      LastVisibleOfLive(s[..n], key, snapshot);
      assert s == s[..n] + [s[n]];
      LiveFromAppend(s[..n], s[n], 0);
      if !s[n].deleted {
        assert Live(s)[..|Live(s)| - 1] == Live(s[..n]);
      } else {
        assert Live(s) == Live(s[..n]);
      }
    }
  }

  /** With tombstones, a read survives the flush exactly when its newest visible version is no
      tombstone over an older live one: such a value comes back. */
  lemma FlushDropsTombstones(s: seq<Version>, key: Bytes, snapshot: U64)
    requires key != []
    ensures TableRead(s, key, snapshot) == MemRead(s, key, snapshot)
      <==> !(var newest, live := LastVisible(s, key, snapshot), LastLiveVisible(s, key, snapshot);
             newest.Some? && newest.value.deleted && live.Some? && PayloadOf(live.value.value).Some?)
  {
    hide Read, LastVisible, LastLiveVisible;
    FlushedLast(Live(s), key, snapshot);
    LastVisibleOfLive(s, key, snapshot);
    LiveIsNewest(s, key, snapshot);
  }

  lemma {:induction false} LiveIsNewest(s: seq<Version>, key: Bytes, snapshot: U64)
    ensures var newest := LastVisible(s, key, snapshot);
      newest.None? || !newest.value.deleted ==> LastLiveVisible(s, key, snapshot) == newest
  {
    if s != [] {
      LiveIsNewest(s[..|s| - 1], key, snapshot);
    }
  }

  // ------------------------------------------------------------------ the table of a flush

  lemma FlushedOnce(s: seq<Version>)
    requires StrictlySorted(s)
    ensures I.Copies(FlushEntries(Live(s))) && SortedEntries(FlushEntries(Live(s)))
  {
    LiveStrict(s, 0);
    var es := FlushEntries(Live(s));
    forall i, j | 0 <= i < j < |es| ensures es[i].key != es[j].key && !NodeKeyLess(es[j].key, es[i].key) {
      NodeKeyLessIsStrictTotalOrder(es[i].key, es[j].key, es[i].key);
    }
    forall a, b | a in es && b in es && a.key == b.key ensures a == b {
      var i, j :| 0 <= i < |es| && 0 <= j < |es| && es[i] == a && es[j] == b;
    }
  }

  lemma {:induction false} LiveStrict(s: seq<Version>, i: nat)
    requires StrictlySorted(s) && i <= |s|
    ensures StrictlySorted(LiveFrom(s, i))
    decreases |s| - i
  {
    if i < |s| {
      LiveStrict(s, i + 1);
      forall v | v in LiveFrom(s, i + 1) ensures NodeKeyLess(s[i].key, v.key) {
        LiveMembers(s, i + 1, v);
      }
    }
  }

  /** The end of the chain: a lookup in the table that a flush of a tombstone-free memtable
      wrote answers what the memtable answers, for every key that straddles no block. */
  lemma FlushedTableReads(s: seq<Version>, crc: Checksum, im: Image, cuts: seq<nat>, sorted: seq<RawEntry>,
                          min: Option<Bytes>, max: Option<Bytes>, key: Bytes, snapshot: U64)
    requires StrictlySorted(s) && (forall v :: v in s ==> !v.deleted) && key != []
    requires multiset(sorted) == multiset(FlushEntries(Live(s)))
    requires L.Written(crc, im, cuts, sorted, min, max) && !L.Straddles(cuts, sorted, key)
    ensures im.bloom.Valid()
    ensures L.LookupOf(crc, L.InMemory(crc, im), key, snapshot) == MemRead(s, key, snapshot)
  {
    hide L.LookupOf, MemRead, L.Written, L.Straddles, Read, I.NewestPayload;
    var es := FlushEntries(Live(s));
    FlushedOnce(s);
    L.WrittenParts(crc, im, cuts, sorted, min, max);
    L.LookupIsRead(crc, im, cuts, sorted, min, max, key, snapshot);
    I.ReadIsNewest(sorted, es, key, snapshot);
    I.ReadIsNewest(es, es, key, snapshot);
    FlushKeepsReads(s, key, snapshot);
  }

  /** With the answer itself: what a flushed table gives for a stored value is its bytes behind the
      tag, the value of an inline one and the 12 bytes of a pointer alike. */
  lemma FlushedValueReads(s: seq<Version>, crc: Checksum, im: Image, cuts: seq<nat>, sorted: seq<RawEntry>,
                          min: Option<Bytes>, max: Option<Bytes>, key: Bytes, snapshot: U64, tag: Byte, payload: Bytes)
    requires StrictlySorted(s) && (forall v :: v in s ==> !v.deleted) && key != []
    requires multiset(sorted) == multiset(FlushEntries(Live(s)))
    requires L.Written(crc, im, cuts, sorted, min, max) && !L.Straddles(cuts, sorted, key)
    requires tag == TYPE_INLINE || tag == TYPE_VALUE_POINTER
    requires SnapshotRead(s, key, snapshot) == Some(Some([tag] + payload))
    ensures im.bloom.Valid() && L.LookupOf(crc, L.InMemory(crc, im), key, snapshot) == Some(payload)
  {
    hide L.LookupOf, L.Written, L.Straddles, SnapshotRead;
    FlushedTableReads(s, crc, im, cuts, sorted, min, max, key, snapshot);
    assert ([tag] + payload)[1..] == payload;
  }
}
