/** The bytes of an SSTable: entries, blocks, the index, and how a block is scanned. */
module Format {
  import opened Base
  import opened Endian
  import opened Keys
  import opened Mvcc
  import opened Values
  import opened Versions

  const BLOCK_SIZE: nat := 16384

  /** An entry before it is written; a tagged value already carries its type tag. */
  datatype RawEntry = RawEntry(key: MVCCKey, value: Option<Bytes>, tagged: bool)

  /** The value as stored: a tag and the payload, and nil as a lone tombstone tag. */
  function Stored(e: RawEntry): Bytes {
    match e.value
    case None => [TYPE_TOMBSTONE]
    case Some(v) => if e.tagged then v else TagInline(v)
  }

  function KeyBytes(k: MVCCKey): (b: Bytes)
    ensures |b| == |k.key| + 12
  {
    LE(|k.key|, 4) + k.key + LE(k.ts, 8)
  }

  function EntryBytes(e: RawEntry): (b: Bytes)
    ensures |b| == 8 + |KeyBytes(e.key)| + |Stored(e)|
  {
    LE(|KeyBytes(e.key)|, 4) + LE(|Stored(e)|, 4) + KeyBytes(e.key) + Stored(e)
  }

  /** Every length fits its 32-bit field, the length of a block holding just e included. */
  predicate Fits(e: RawEntry) {
    |EntryBytes(e)| < 0x1_0000_0000
  }

  function DecodeMVCCKey(data: Bytes): Option<MVCCKey> {
    if |data| < 4 then None
    else
      var keyLen := LEAt(data, 0, 4);
      if |data| < 4 + keyLen + 8 then None
      else
        Pow256Values();
        Some(MVCCKey(data[4..4 + keyLen], LEAt(data, 4 + keyLen, 8)))
  }

  lemma KeyRoundTrip(k: MVCCKey)
    requires |k.key| + 12 < 0x1_0000_0000
    ensures DecodeMVCCKey(KeyBytes(k)) == Some(k)
  {
    hide LE;
    Pow256Values();
    var b, n := KeyBytes(k), |k.key|;
    assert b[0..4] == LE(n, 4) && b[4..4 + n] == k.key && b[4 + n..4 + n + 8] == LE(k.ts, 8);
    LEReads(b, 0, 4, n);
    LEReads(b, 4 + n, 8, k.ts);
  }

  // ------------------------------------------------------------------ parsing a block

  /** What a scan meets at a position: no whole entry, an entry whose key does not decode,
      or an entry. */
  datatype Parsed = Truncated | BadKey(next: nat) | Entry(key: MVCCKey, val: Bytes, next: nat)

  function ParseEntry(block: Bytes, pos: nat): (p: Parsed)
    requires pos < |block|
    ensures !p.Truncated? ==> pos < p.next <= |block|
  {
    if pos + 8 > |block| then Truncated
    else
      var keyLen, valLen := LEAt(block, pos, 4), LEAt(block, pos + 4, 4);
      if pos + 8 + keyLen + valLen > |block| then Truncated
      else
        var next := pos + 8 + keyLen + valLen;
        match DecodeMVCCKey(block[pos + 8..pos + 8 + keyLen])
        case None => BadKey(next)
        case Some(k) => Entry(k, block[pos + 8 + keyLen..next], next)
  }

  /** An encoded entry is parsed back wherever it stands. */
  lemma ParseEncoded(block: Bytes, pos: nat, e: RawEntry)
    requires Fits(e) && pos + |EntryBytes(e)| <= |block|
    requires block[pos..pos + |EntryBytes(e)|] == EntryBytes(e)
    ensures ParseEntry(block, pos) == Entry(e.key, Stored(e), pos + |EntryBytes(e)|)
  {
    hide LE, Stored, DecodeMVCCKey, KeyBytes, LEAt;
    Pow256Values();
    var b, kl, vl := EntryBytes(e), |KeyBytes(e.key)|, |Stored(e)|;
    assert b[0..4] == LE(kl, 4) && b[4..8] == LE(vl, 4) && b[8..8 + kl] == KeyBytes(e.key)
        && b[8 + kl..8 + kl + vl] == Stored(e);
    SliceOfSlice(block, pos, pos + |b|, 0, 4);
    SliceOfSlice(block, pos, pos + |b|, 4, 8);
    SliceOfSlice(block, pos, pos + |b|, 8, 8 + kl);
    SliceOfSlice(block, pos, pos + |b|, 8 + kl, 8 + kl + vl);
    LEReads(block, pos, 4, kl);
    LEReads(block, pos + 4, 4, vl);
    KeyRoundTrip(e.key);
  }

  function Parts(es: seq<RawEntry>): seq<Bytes> {
    seq(|es|, i requires 0 <= i < |es| => EntryBytes(es[i]))
  }

  /** The position of the i-th entry, and the size of the first i entries. */
  function Offset(es: seq<RawEntry>, i: nat): nat
    requires i <= |es|
  {
    |Joined(Parts(es), i)|
  }

  /** The data of a block: its entries one after another. */
  function BlockData(es: seq<RawEntry>): Bytes {
    Joined(Parts(es), |es|)
  }

  ghost predicate AllFit(es: seq<RawEntry>) {
    forall e :: e in es ==> Fits(e)
  }

  /** Walking a block from entry to entry. */
  lemma ParseInBlock(es: seq<RawEntry>, i: nat)
    requires AllFit(es) && i < |es|
    ensures Offset(es, i) < Offset(es, i + 1) <= |BlockData(es)|
    ensures ParseEntry(BlockData(es), Offset(es, i)) == Entry(es[i].key, Stored(es[i]), Offset(es, i + 1))
  {
    hide EntryBytes;
    JoinedAt(Parts(es), i, |es|);
    ParseEncoded(BlockData(es), Offset(es, i), es[i]);
  }

  lemma BlockDataAppend(es: seq<RawEntry>, e: RawEntry)
    ensures BlockData(es + [e]) == BlockData(es) + EntryBytes(e)
  {
    JoinedSame(Parts(es + [e]), Parts(es), |es|);
  }

  // ------------------------------------------------------------------ what an entry means

  predicate IsValidTag(b: Byte) {
    b == TYPE_INLINE || b == TYPE_VALUE_POINTER || b == TYPE_TOMBSTONE
  }

  predicate IsTombstone(stored: Bytes) {
    |stored| == 0 || (|stored| == 1 && stored[0] == TYPE_TOMBSTONE)
  }

  /** The leading tag off; a first byte that is no tag marks the untagged format. */
  function StripTag(stored: Bytes): Bytes {
    if |stored| > 0 && IsValidTag(stored[0]) then stored[1..] else stored
  }

  function VersionOf(e: RawEntry): Version {
    Version(e.key, Some(StripTag(Stored(e))), IsTombstone(Stored(e)))
  }

  function VersionsOf(es: seq<RawEntry>): (vs: seq<Version>)
    ensures |vs| == |es|
  {
    seq(|es|, i requires 0 <= i < |es| => VersionOf(es[i]))
  }

  /** A value reads back: nil as a tombstone, an untagged or inline-tagged value as itself. */
  lemma ValueSurvives(k: MVCCKey, v: Bytes)
    ensures VersionOf(RawEntry(k, None, false)).deleted && VersionOf(RawEntry(k, None, true)).deleted
    ensures VersionOf(RawEntry(k, Some(v), false)) == Version(k, Some(v), false)
    ensures VersionOf(RawEntry(k, Some(TagInline(v)), true)) == Version(k, Some(v), false)
  {
    assert TagInline(v)[1..] == v;
  }

  /** A value pointer reads back as its bytes alone, with the tag off. */
  lemma PointerSurvives(k: MVCCKey, p: Bytes)
    ensures VersionOf(RawEntry(k, Some([TYPE_VALUE_POINTER] + p), true)) == Version(k, Some(p), false)
  {
    assert ([TYPE_VALUE_POINTER] + p)[1..] == p;
  }

  /** Stored bytes of the untagged format read back as they are exactly when the first byte is not
      one of the three tags. */
  lemma UntaggedSurvivesIff(k: MVCCKey, b: Bytes)
    ensures VersionOf(RawEntry(k, Some(b), true)) == Version(k, Some(b), false) <==> b != [] && b[0] > 2
  {
    if b != [] && b[0] <= 2 {
      assert |StripTag(b)| < |b|;
    }
  }

  /** The linear search: the newest version of key visible at the snapshot, unless deleted. */
  function Read(vs: seq<Version>, key: Bytes, snapshot: U64): Option<Bytes> {
    match LastVisible(vs, key, snapshot)
    case Some(v) => if v.deleted then None else v.value
    case None => None
  }

  // ------------------------------------------------------------------ scanning a block

  datatype Best = Best(val: Bytes, tombstone: bool)

  /** The scan of Lookup over a block from pos on. */
  function Scan(block: Bytes, pos: nat, key: Bytes, snapshot: U64, best: Option<Best>): Option<Best>
    requires pos <= |block|
    decreases |block| - pos
  {
    if pos == |block| then best
    else match ParseEntry(block, pos)
      case Truncated => best
      case BadKey(next) => Scan(block, next, key, snapshot, best)
      case Entry(k, val, next) =>
        if Compare(k.key, key) > 0 then best
        else if k.key != key || k.CommitTS() > snapshot then Scan(block, next, key, snapshot, best)
        else Scan(block, next, key, snapshot, Some(BestOf(val)))
  }

  function BestOf(stored: Bytes): Best {
    var tombstone := IsTombstone(stored);
    Best(if tombstone then stored else StripTag(stored), tombstone)
  }

  function Answer(best: Option<Best>): Option<Bytes> {
    if best.None? || best.value.tombstone then None else Some(best.value.val)
  }

  ghost predicate SortedEntries(es: seq<RawEntry>) {
    forall i, j :: 0 <= i < j < |es| ==> !NodeKeyLess(es[j].key, es[i].key)
  }

  /** Best as the answer it stands for. */
  ghost predicate Agrees(best: Option<Best>, newest: Option<Version>) {
    match newest
    case None => best == None
    case Some(v) => best.Some? && Answer(best) == if v.deleted then None else v.value
  }

  /** In a sorted block the scan finds the last visible version, wherever it stops. */
  lemma {:induction false} ScanFindsNewest(es: seq<RawEntry>, i: nat, key: Bytes, snapshot: U64, best: Option<Best>)
    requires AllFit(es) && SortedEntries(es) && i <= |es|
    requires Agrees(best, LastVisible(VersionsOf(es)[..i], key, snapshot))
    ensures Offset(es, i) <= |BlockData(es)|
    ensures Agrees(Scan(BlockData(es), Offset(es, i), key, snapshot, best), LastVisible(VersionsOf(es), key, snapshot))
    decreases |es| - i
  {
    hide ParseEntry, BlockData, Offset, Stored, Compare, LastVisible;
    var vs := VersionsOf(es);
    if i == |es| {
      assert vs[..i] == vs;
      assert Offset(es, i) == |BlockData(es)| by { EndOfBlock(es); }
    } else {
      ParseInBlock(es, i);
      LastVisibleStep(vs, i, key, snapshot);
      CompareZero(es[i].key.key, key);
      if Compare(es[i].key.key, key) > 0 {
        PastKey(es, i, key);
        LastVisibleOfPrefix(vs, i, key, snapshot);
      } else if es[i].key.key != key || es[i].key.CommitTS() > snapshot {
        ScanFindsNewest(es, i + 1, key, snapshot, best);
      } else {
        ScanFindsNewest(es, i + 1, key, snapshot, Some(BestOf(Stored(es[i]))));
      }
    }
  }

  lemma EndOfBlock(es: seq<RawEntry>)
    ensures Offset(es, |es|) == |BlockData(es)|
  {
  }

  lemma LastVisibleStep(vs: seq<Version>, i: nat, key: Bytes, snapshot: U64)
    requires i < |vs|
    ensures LastVisible(vs[..i + 1], key, snapshot)
      == if Visible(vs[i], key, snapshot) then Some(vs[i]) else LastVisible(vs[..i], key, snapshot)
  {
    assert vs[..i + 1][..i] == vs[..i];
  }

  lemma PastKey(es: seq<RawEntry>, i: nat, key: Bytes)
    requires SortedEntries(es) && i < |es| && Compare(es[i].key.key, key) > 0
    ensures forall j :: i <= j < |es| ==> es[j].key.key != key
  {
    forall j | i <= j < |es| ensures es[j].key.key != key {
      CompareIsTotalOrder(es[i].key.key, key, key);
    }
  }

  lemma {:induction false} LastVisibleOfPrefix(vs: seq<Version>, i: nat, key: Bytes, snapshot: U64)
    requires i <= |vs| && forall j :: i <= j < |vs| ==> !Visible(vs[j], key, snapshot)
    ensures LastVisible(vs, key, snapshot) == LastVisible(vs[..i], key, snapshot)
  {
    if i < |vs| {
      LastVisibleOfPrefix(vs[..|vs| - 1], i, key, snapshot);
      assert vs[..|vs| - 1][..i] == vs[..i];
    } else {
      assert vs[..i] == vs;
    }
  }

  /** The scan of a sorted block answers what the linear search over its entries answers. */
  lemma ScanIsRead(es: seq<RawEntry>, key: Bytes, snapshot: U64)
    requires AllFit(es) && SortedEntries(es)
    ensures Answer(Scan(BlockData(es), 0, key, snapshot, None)) == Read(VersionsOf(es), key, snapshot)
  {
    assert VersionsOf(es)[..0] == [];
    assert Offset(es, 0) == 0;
    ScanFindsNewest(es, 0, key, snapshot, None);
  }
}
