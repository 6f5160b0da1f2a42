/** Replay of a log into a memtable at startup. */
module Recovery {
  import opened Base
  import opened Keys
  import opened Mvcc
  import opened Versions
  import opened Values
  import opened SkipList
  import B = Batch
  import W = Wal
  import G = GroupCommit

  /** What replay does to a memtable, one version at a time. */
  datatype MemOp = Put(key: MVCCKey, value: Option<Bytes>) | Delete(key: MVCCKey)

  function Apply(s: seq<Version>, op: MemOp): seq<Version> {
    match op
    case Put(k, value) => PutInto(s, k, value)
    case Delete(k) => DeleteInto(s, k)
  }

  function ApplyAll(s: seq<Version>, ops: seq<MemOp>): seq<Version> {
    if ops == [] then s else Apply(ApplyAll(s, ops[..|ops| - 1]), ops[|ops| - 1])
  }

  // ------------------------------------------------------------------ one entry

  /** Which shard a key is routed to, as replay is told. */
  type Routing = Bytes -> nat

  /** nil becomes a tombstone tag; any 12 bytes are taken for a pointer. */
  function TagStoredValue(value: Option<Bytes>): Bytes {
    match value
    case None => [TYPE_TOMBSTONE]
    case Some(v) => if |v| == VALUE_POINTER_SIZE then [TYPE_VALUE_POINTER] + v else TagInline(v)
  }

  predicate IsLargeForRecovery(isLarge: bool, value: Bytes) {
    isLarge || |value| == VALUE_POINTER_SIZE
  }

  /** The check for a pointer outside the value log; its sum is one of int64 values. */
  predicate OutOfBounds(vp: ValuePointer, vlogSize: nat) {
    vp.offset < 0 || vp.size <= 0 || WrapInt64(vp.offset + vp.size + 8) > vlogSize
  }

  /** The record behind the pointer lies in the value log. */
  predicate Inside(vp: ValuePointer, vlogSize: nat) {
    vp.offset >= 0 && vp.size > 0 && vp.offset + vp.size + 8 <= vlogSize
  }

  /** The check is right about every pointer except one whose record would end beyond the int64
      range: that one it lets through. */
  lemma BoundsCheckIff(vp: ValuePointer, vlogSize: nat)
    requires vp.InRange() && vlogSize < 0x8000_0000_0000_0000
    ensures Inside(vp, vlogSize) ==> !OutOfBounds(vp, vlogSize)
    ensures OutOfBounds(vp, vlogSize) == !Inside(vp, vlogSize)
      <==> vp.offset < 0 || vp.size <= 0 || vp.offset + vp.size + 8 < 0x8000_0000_0000_0000
  {
    var end := vp.offset + vp.size + 8;
    if vp.offset >= 0 && vp.size > 0 && end >= 0x8000_0000_0000_0000 {
      assert end % 0x1_0000_0000_0000_0000 == end;
    }
  }

  function ReplayBatchOp(op: B.LocalOp, timestamp: U64, vlogSize: nat): MemOp {
    var k := NewMVCCKey(op.key, timestamp);
    if op.isDelete then Delete(k)
    else if IsLargeForRecovery(false, op.value) && OutOfBounds(DecodeValuePointer(op.value).value, vlogSize)
    then Put(k, Some(TagStoredValue(None)))
    else Put(k, Some(TagStoredValue(Some(op.value))))
  }

  function ReplayBatch(ops: seq<B.LocalOp>, timestamp: U64, vlogSize: nat, shard: nat, route: Routing): seq<MemOp> {
    if ops == [] then []
    else
      var init := ReplayBatch(ops[..|ops| - 1], timestamp, vlogSize, shard, route);
      var op := ops[|ops| - 1];
      if route(op.key) != shard then init else init + [ReplayBatchOp(op, timestamp, vlogSize)]
  }

  /** The memtable operations of one log entry. */
  function ReplayEntry(e: W.WalEntry, vlogSize: nat, shard: nat, route: Routing): seq<MemOp> {
    var k := NewMVCCKey(e.key, e.timestamp);
    if e.op == W.OP_PUT then
      if IsLargeForRecovery(e.isLarge, e.value) && DecodeValuePointer(e.value).Some?
         && OutOfBounds(DecodeValuePointer(e.value).value, vlogSize)
      then []
      else [Put(k, Some(TagStoredValue(Some(e.value))))]
    else if e.op == W.OP_DELETE then [Delete(k)]
    else if e.op == W.OP_BATCH then
      match B.LocalDecoding(e.value)
      case None => []
      case Some(ops) => ReplayBatch(ops, e.timestamp, vlogSize, shard, route)
    else []
  }

  function ReplayLog(es: seq<W.WalEntry>, vlogSize: nat, shard: nat, route: Routing): seq<MemOp> {
    if es == [] then []
    else ReplayLog(es[..|es| - 1], vlogSize, shard, route) + ReplayEntry(es[|es| - 1], vlogSize, shard, route)
  }

  /** The highest timestamp of a log, 0 for an empty one. */
  function MaxTimestamp(es: seq<W.WalEntry>): (m: U64)
  {
    if es == [] then 0
    else
      var m := MaxTimestamp(es[..|es| - 1]);
      if es[|es| - 1].timestamp > m then es[|es| - 1].timestamp else m
  }

  lemma {:induction false} MaxTimestampIsMaximum(es: seq<W.WalEntry>)
    ensures forall i :: 0 <= i < |es| ==> es[i].timestamp <= MaxTimestamp(es)
    ensures es != [] ==> exists i :: 0 <= i < |es| && es[i].timestamp == MaxTimestamp(es)
  {
    if es != [] {
      var init := es[..|es| - 1];
      MaxTimestampIsMaximum(init);
      assert forall i :: 0 <= i < |init| ==> init[i] == es[i];
      assert init == [] ==> MaxTimestamp(init) == 0 <= es[|es| - 1].timestamp;
      if init == [] || es[|es| - 1].timestamp > MaxTimestamp(init) {
        assert es[|es| - 1].timestamp == MaxTimestamp(es);
      } else {
        var i :| 0 <= i < |init| && init[i].timestamp == MaxTimestamp(init);
        assert es[i].timestamp == MaxTimestamp(es);
      }
    }
  }

  /** Replay puts and deletes versions at the timestamps of the log. */
  lemma {:induction false} ReplayedTimestamps(es: seq<W.WalEntry>, vlogSize: nat, shard: nat, route: Routing)
    ensures forall op :: op in ReplayLog(es, vlogSize, shard, route) ==> op.key.CommitTS() <= MaxTimestamp(es)
  {
    hide ReplayEntry;
    if es != [] {
      ReplayedTimestamps(es[..|es| - 1], vlogSize, shard, route);
      EntryTimestamp(es[|es| - 1], vlogSize, shard, route);
    }
  }

  lemma EntryTimestamp(e: W.WalEntry, vlogSize: nat, shard: nat, route: Routing)
    ensures forall op :: op in ReplayEntry(e, vlogSize, shard, route) ==> op.key.CommitTS() == e.timestamp
  {
    if e.op == W.OP_BATCH && B.LocalDecoding(e.value).Some? {
      BatchTimestamp(B.LocalDecoding(e.value).value, e.timestamp, vlogSize, shard, route);
    }
  }

  lemma {:induction false} BatchTimestamp(ops: seq<B.LocalOp>, timestamp: U64, vlogSize: nat, shard: nat,
                                          route: Routing)
    ensures forall op :: op in ReplayBatch(ops, timestamp, vlogSize, shard, route) ==> op.key.CommitTS() == timestamp
  {
    if ops != [] {
      BatchTimestamp(ops[..|ops| - 1], timestamp, vlogSize, shard, route);
    }
  }

  // ------------------------------------------------------------------ the replay loop

  lemma {:induction false} ApplyAllAppend(s: seq<Version>, a: seq<MemOp>, b: seq<MemOp>)
    ensures ApplyAll(s, a + b) == ApplyAll(ApplyAll(s, a), b)
    decreases |b|
  {
    if b == [] {
      assert a + b == a;
    } else {
      ApplyAllAppend(s, a, b[..|b| - 1]);
      assert (a + b)[..|a + b| - 1] == a + b[..|b| - 1];
    }
  }

  /** Replays what the log file yields into sl and returns the highest timestamp seen. */
  method RecoverFromWAL(crc: Checksum, file: Bytes, sl: SkipList, vlogSize: nat, shard: nat, route: Routing)
    returns (maxTS: U64)
    requires sl.Valid()
    modifies sl
    ensures sl.Valid()
    ensures sl.Versions() == ApplyAll(old(sl.Versions()), ReplayLog(W.RecoverAll(crc, file), vlogSize, shard, route))
    ensures maxTS == MaxTimestamp(W.RecoverAll(crc, file))
  {
    hide ApplyAll, ReplayEntry, Apply, W.RecoverAll;
    maxTS := 0;
    var entries := W.Recover(crc, file);
    NothingReplayed(sl.Versions(), entries, vlogSize, shard, route);
    ghost var s := sl.Versions();
    for i := 0 to |entries|
      invariant sl.Valid()
      invariant sl.Versions() == ApplyAll(s, ReplayLog(entries[..i], vlogSize, shard, route))
      invariant maxTS == MaxTimestamp(entries[..i])
    {
      var e := entries[i];
      assert entries[..i + 1][..i] == entries[..i];
      ApplyAllAppend(s, ReplayLog(entries[..i], vlogSize, shard, route), ReplayEntry(e, vlogSize, shard, route));
      if e.timestamp > maxTS {
        maxTS := e.timestamp;
      }
      ReplayOne(e, sl, vlogSize, shard, route);
    }
    assert entries[..|entries|] == entries;
  }

  lemma NothingReplayed(s: seq<Version>, es: seq<W.WalEntry>, vlogSize: nat, shard: nat, route: Routing)
    ensures ApplyAll(s, ReplayLog(es[..0], vlogSize, shard, route)) == s
  {
  }

  method ReplayOne(e: W.WalEntry, sl: SkipList, vlogSize: nat, shard: nat, route: Routing)
    requires sl.Valid()
    modifies sl
    ensures sl.Valid()
    ensures sl.Versions() == ApplyAll(old(sl.Versions()), ReplayEntry(e, vlogSize, shard, route))
  {
    ghost var s := sl.Versions();
    var mvccKey := NewMVCCKey(e.key, e.timestamp);
    if e.op == W.OP_PUT {
      var stored := TagStoredValue(Some(e.value));
      if IsLargeForRecovery(e.isLarge, e.value) {
        var vp := DecodeValuePointer(e.value);
        if vp.Some? && OutOfBounds(vp.value, vlogSize) {
          return;
        }
      }
      ApplyOne(s, Put(mvccKey, Some(stored)));
      var _ := sl.Put(mvccKey, Some(stored));
    } else if e.op == W.OP_DELETE {
      ApplyOne(s, Delete(mvccKey));
      var _ := sl.DeleteWithTS(mvccKey);
    } else if e.op == W.OP_BATCH {
      var ops := B.DecodeBatchLocal(e.value);
      if ops.Some? {
        ReplayBatchOps(ops.value, e.timestamp, sl, vlogSize, shard, route);
      }
    }
  }

  lemma ApplyOne(s: seq<Version>, op: MemOp)
    ensures ApplyAll(s, [op]) == Apply(s, op)
  {
    assert [op][..0] == [];
  }

  lemma EmptyReplay(s: seq<Version>, timestamp: U64, vlogSize: nat, shard: nat, route: Routing)
    ensures ApplyAll(s, ReplayBatch([], timestamp, vlogSize, shard, route)) == s
  {
  }

  lemma ReplayBatchStep(s: seq<Version>, ops: seq<B.LocalOp>, i: nat, timestamp: U64, vlogSize: nat, shard: nat,
                        route: Routing)
    requires i < |ops|
    ensures ApplyAll(s, ReplayBatch(ops[..i + 1], timestamp, vlogSize, shard, route))
      == var before := ApplyAll(s, ReplayBatch(ops[..i], timestamp, vlogSize, shard, route));
         if route(ops[i].key) != shard then before else Apply(before, ReplayBatchOp(ops[i], timestamp, vlogSize))
  {
    hide Apply, ReplayBatchOp;
    assert ops[..i + 1][..i] == ops[..i];
    var done := ReplayBatch(ops[..i], timestamp, vlogSize, shard, route);
    var next := ReplayBatchOp(ops[i], timestamp, vlogSize);
    assert (done + [next])[..|done|] == done;
  }

  /** The batch case: only the operations whose keys route to this shard. */
  method ReplayBatchOps(ops: seq<B.LocalOp>, timestamp: U64, sl: SkipList, vlogSize: nat, shard: nat, route: Routing)
    requires sl.Valid()
    modifies sl
    ensures sl.Valid()
    ensures sl.Versions() == ApplyAll(old(sl.Versions()), ReplayBatch(ops, timestamp, vlogSize, shard, route))
  {
    hide ApplyAll, ReplayBatch, PutInto, DeleteInto, TagStoredValue;
    ghost var s := sl.Versions();
    assert ops[..0] == [];
    EmptyReplay(s, timestamp, vlogSize, shard, route);
    for i := 0 to |ops|
      invariant sl.Valid()
      invariant sl.Versions() == ApplyAll(s, ReplayBatch(ops[..i], timestamp, vlogSize, shard, route))
    {
      var op := ops[i];
      ReplayBatchStep(s, ops, i, timestamp, vlogSize, shard, route);
      if route(op.key) != shard {
        continue;
      }
      var mvccKey := NewMVCCKey(op.key, timestamp);
      if op.isDelete {
        var _ := sl.DeleteWithTS(mvccKey);
        continue;
      }
      if IsLargeForRecovery(false, op.value) {
        var vp := DecodeValuePointer(op.value);
        if OutOfBounds(vp.value, vlogSize) {
          var _ := sl.Put(mvccKey, Some(TagStoredValue(None)));
          continue;
        }
      }
      var _ := sl.Put(mvccKey, Some(TagStoredValue(Some(op.value))));
    }
    assert ops[..|ops|] == ops;
  }

  // ------------------------------------------------------------------ replaying again

  lemma ApplyKeys(s: seq<Version>, op: MemOp)
    requires Sorted(s)
    ensures Sorted(Apply(s, op)) && KeysOf(Apply(s, op)) == KeysOf(s) + {op.key}
  {
    var k := op.key;
    OperationsKeepSorted(s, k, if op.Put? then op.value else None);
    HasMeansMember(s, k);
    if op.Put? {
      if !Has(s, k) {
        InsertMembers(s, LowerBound(s, k), Version(k, op.value, false));
        InsertedKeys(s, LowerBound(s, k), Version(k, op.value, false));
      }
    } else if !HasExact(s, k) {
      InsertedKeys(s, LowerBound(s, k), Tombstone(k));
    } else {
      MarkedKeys(s, k);
    }
  }

  lemma InsertedKeys(s: seq<Version>, p: nat, v: Version)
    requires p <= |s|
    ensures KeysOf(InsertAt(s, p, v)) == KeysOf(s) + {v.key}
  {
    InsertMembers(s, p, v);
  }

  lemma MarkedKeys(s: seq<Version>, k: MVCCKey)
    requires Has(s, k)
    ensures KeysOf(MarkDeleted(s, k)) == KeysOf(s)
  {
    var r, p := MarkDeleted(s, k), LowerBound(s, k);
    forall x | x in KeysOf(s) ensures x in KeysOf(r) {
      var i :| 0 <= i < |s| && s[i].key == x;
      assert r[i] in r && r[i].key == x;
    }
    forall x | x in KeysOf(r) ensures x in KeysOf(s) {
      var i :| 0 <= i < |r| && r[i].key == x;
      assert s[i] in s && s[i].key == x;
    }
  }

  function OpKeys(ops: seq<MemOp>): set<MVCCKey> {
    set op <- ops :: op.key
  }

  lemma {:induction false} ApplyAllKeys(s: seq<Version>, ops: seq<MemOp>)
    requires Sorted(s)
    ensures Sorted(ApplyAll(s, ops)) && KeysOf(ApplyAll(s, ops)) == KeysOf(s) + OpKeys(ops)
  {
    if ops != [] {
      var init, last := ops[..|ops| - 1], ops[|ops| - 1];
      ApplyAllKeys(s, init);
      ApplyKeys(ApplyAll(s, init), last);
      assert ops == init + [last];
      assert OpKeys(ops) == OpKeys(init) + {last.key};
    }
  }

  /** An operation whose effect is already there. */
  predicate Settled(s: seq<Version>, op: MemOp) {
    match op
    case Put(k, _) => Has(s, k)
    case Delete(k) => HasExact(s, k) && s[LowerBound(s, k)].deleted
  }

  predicate EmptyKeyDelete(op: MemOp) {
    op.Delete? && op.key.key == []
  }

  lemma SettledDoesNothing(s: seq<Version>, op: MemOp)
    requires Settled(s, op)
    ensures Apply(s, op) == s
  {
  }

  lemma ApplySettles(s: seq<Version>, op: MemOp)
    requires Sorted(s) && !EmptyKeyDelete(op)
    ensures Sorted(Apply(s, op)) && Settled(Apply(s, op), op)
  {
    var r := Apply(s, op);
    OperationsKeepSorted(s, op.key, None);
    match op
    case Put(k, value) =>
      OperationsKeepSorted(s, k, value);
      if !Has(s, k) {
        InsertMembers(s, LowerBound(s, k), Version(k, value, false));
        HasMeansMember(r, k);
      }
    case Delete(k) => AtAfterDelete(s, k, k);
  }

  /** Nothing that is settled comes undone. */
  lemma ApplyKeepsSettled(s: seq<Version>, op: MemOp, other: MemOp)
    requires Sorted(s) && Settled(s, other)
    ensures Settled(Apply(s, op), other)
  {
    var r := Apply(s, op);
    OperationsKeepSorted(s, op.key, if op.Put? then op.value else None);
    match other
    case Put(k, _) =>
      HasMeansMember(s, k);
      HasMeansMember(r, k);
      KeysStay(s, op, k);
    case Delete(k) =>
      if op.Put? {
        AtAfterPut(s, op.key, op.value, k);
      } else {
        AtAfterDelete(s, op.key, k);
      }
  }

  lemma KeysStay(s: seq<Version>, op: MemOp, k: MVCCKey)
    requires k in KeysOf(s)
    ensures k in KeysOf(Apply(s, op))
  {
    var v :| v in s && v.key == k;
    var p := LowerBound(s, op.key);
    if op.Delete? && HasExact(s, op.key) {
      var i :| 0 <= i < |s| && s[i] == v;
      assert Apply(s, op)[i].key == k;
    } else if op.Delete? {
      InsertMembers(s, p, Tombstone(op.key));
    } else if !Has(s, op.key) {
      InsertMembers(s, p, Version(op.key, op.value, false));
    }
  }

  lemma {:induction false} ApplyAllKeeps(s: seq<Version>, ops: seq<MemOp>, other: MemOp)
    requires Sorted(s)
    ensures Sorted(ApplyAll(s, ops))
    ensures Settled(s, other) ==> Settled(ApplyAll(s, ops), other)
  {
    if ops != [] {
      var init, op := ops[..|ops| - 1], ops[|ops| - 1];
      ApplyAllKeeps(s, init, other);
      var r := ApplyAll(s, init);
      match op {
        case Put(k, value) => OperationsKeepSorted(r, k, value);
        case Delete(k) => OperationsKeepSorted(r, k, None);
      }
      if Settled(s, other) {
        ApplyKeepsSettled(r, op, other);
      }
    }
  }

  lemma AllSettled(s: seq<Version>, ops: seq<MemOp>, i: nat)
    requires Sorted(s) && i < |ops| && !EmptyKeyDelete(ops[i])
    ensures Settled(ApplyAll(s, ops), ops[i])
  {
    var before, after := ops[..i], ops[i + 1..];
    assert ops == ops[..i + 1] + after && ops[..i + 1][..i] == before;
    ApplyAllAppend(s, ops[..i + 1], after);
    ApplyAllKeeps(s, before, ops[i]);
    ApplySettles(ApplyAll(s, before), ops[i]);
    ApplyAllKeeps(ApplyAll(s, ops[..i + 1]), after, ops[i]);
  }

  lemma {:induction false} SettledReplay(s: seq<Version>, ops: seq<MemOp>)
    requires forall i :: 0 <= i < |ops| ==> Settled(s, ops[i])
    ensures ApplyAll(s, ops) == s
  {
    if ops != [] {
      SettledReplay(s, ops[..|ops| - 1]);
      SettledDoesNothing(s, ops[|ops| - 1]);
    }
  }

  /** Replaying part of what was replayed changes nothing, as long as no delete has the empty
      user key. */
  lemma ReplayPartAgain(s: seq<Version>, ops: seq<MemOp>, part: seq<MemOp>)
    requires Sorted(s)
    requires forall op :: op in part ==> op in ops && !EmptyKeyDelete(op)
    ensures ApplyAll(ApplyAll(s, ops), part) == ApplyAll(s, ops)
  {
    var r := ApplyAll(s, ops);
    forall j | 0 <= j < |part| ensures Settled(r, part[j]) {
      assert part[j] in part;
      var i :| 0 <= i < |ops| && ops[i] == part[j];
      AllSettled(s, ops, i);
    }
    SettledReplay(r, part);
  }

  function EmptyKeyDeletes(ops: seq<MemOp>): nat {
    if ops == [] then 0
    else EmptyKeyDeletes(ops[..|ops| - 1]) + if EmptyKeyDelete(ops[|ops| - 1]) then 1 else 0
  }

  lemma {:induction false} ReplayGrows(s: seq<Version>, ops: seq<MemOp>)
    ensures |ApplyAll(s, ops)| >= |s| + EmptyKeyDeletes(ops)
  {
    if ops != [] {
      ReplayGrows(s, ops[..|ops| - 1]);
    }
  }

  lemma {:induction false} SomeEmptyKeyDelete(ops: seq<MemOp>)
    ensures EmptyKeyDeletes(ops) > 0 <==> exists i :: 0 <= i < |ops| && EmptyKeyDelete(ops[i])
  {
    if ops != [] {
      var init := ops[..|ops| - 1];
      SomeEmptyKeyDelete(init);
      assert forall i :: 0 <= i < |init| ==> init[i] == ops[i];
    }
  }

  /** Replaying the same operations twice is the same as once exactly when none of them
      deletes the empty user key: each such delete inserts another tombstone. */
  lemma ReplayTwice(s: seq<Version>, ops: seq<MemOp>)
    requires Sorted(s)
    ensures ApplyAll(ApplyAll(s, ops), ops) == ApplyAll(s, ops)
      <==> forall i :: 0 <= i < |ops| ==> !EmptyKeyDelete(ops[i])
  {
    SomeEmptyKeyDelete(ops);
    ReplayGrows(ApplyAll(s, ops), ops);
    if forall i :: 0 <= i < |ops| ==> !EmptyKeyDelete(ops[i]) {
      ReplayPartAgain(s, ops, ops);
    }
  }
}
