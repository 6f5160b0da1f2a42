/** What a restart reads back: replay of any log finds for each snapshot the newest operation, so a
    committed batch and a plain write survive. */
module Restart {
  import opened Base
  import opened Isolation
  import opened Mvcc
  import opened Recovery
  import opened Shard
  import opened Txn
  import opened Values
  import opened Versions
  import B = Batch
  import G = GroupCommit
  import W = Wal

  // ------------------------------------------------------------------ the newest operation is read

  /** The snapshot sees none of these operations on the key that is as new as c. */
  ghost predicate NoneSince(ops: seq<MemOp>, key: Bytes, c: U64, snapshot: U64) {
    forall op :: op in ops && op.key.key == key ==> op.key.CommitTS() < c || op.key.CommitTS() > snapshot
  }

  lemma FreshAndNewest(a: seq<MemOp>, k: MVCCKey, snapshot: U64)
    requires NoneSince(a, k.key, k.CommitTS(), snapshot) && k.CommitTS() <= snapshot
    ensures Sorted(ApplyAll([], a)) && !Has(ApplyAll([], a), k) && TakesOver(ApplyAll([], a), k, k.key, snapshot)
  {
    hide ApplyAll;
    var s := ApplyAll([], a);
    ApplyAllKeys([], a);
    HasMeansMember(s, k);
    var r := LastVisible(s, k.key, snapshot);
    if r.Some? {
      assert r.value.key in KeysOf(s);
    }
  }

  /** After an operation newer than what the snapshot sees, that is what it reads. */
  lemma NewestOpIsRead(a: seq<MemOp>, op: MemOp, snapshot: U64)
    requires op.key.key != [] && op.key.CommitTS() <= snapshot
    requires NoneSince(a, op.key.key, op.key.CommitTS(), snapshot)
    ensures var s := Apply(ApplyAll([], a), op);
      && Sorted(s) && SnapshotRead(s, op.key.key, snapshot) == ReadBack(op)
      && LastVisible(s, op.key.key, snapshot).Some?
      && LastVisible(s, op.key.key, snapshot).value.key.CommitTS() == op.key.CommitTS()
  {
    hide Apply, ApplyAll, Has, TakesOver, SnapshotRead, Sorted, ReadBack;
    var key, s := op.key.key, ApplyAll([], a);
    FreshAndNewest(a, op.key, snapshot);
    VisibleStep(s, op, key, snapshot);
    ApplyAllKeys([], a);
    ApplyKeys(s, op);
    var after := Apply(s, op);
    var v :| v in after && v.key == op.key;
    LastVisibleIsNewest(after, key, snapshot, v);
    var r := LastVisible(after, key, snapshot);
    assert r.value.key in KeysOf(after);
  }

  /** Operations that are older, or beyond the snapshot, leave what it reads. */
  lemma {:induction false} OlderOpsHide(s: seq<Version>, b: seq<MemOp>, key: Bytes, c: U64, snapshot: U64)
    requires Sorted(s) && key != [] && NoneSince(b, key, c, snapshot)
    requires var r := LastVisible(s, key, snapshot); r.Some? && r.value.key.CommitTS() == c
    ensures LastVisible(ApplyAll(s, b), key, snapshot) == LastVisible(s, key, snapshot)
  {
    hide LastVisible, Sorted, Apply;
    if b != [] {
      var init, op := b[..|b| - 1], b[|b| - 1];
      OlderOpsHide(s, init, key, c, snapshot);
      ApplyAllKeys(s, init);
      ApplyKeepsVisible(ApplyAll(s, init), op, key, snapshot);
    }
  }

  /** Of any sequence of operations on an empty memtable a snapshot reads, for a key, the one that
      it sees and that no other one it sees is as new as, wherever in the sequence that stands. */
  lemma OpIsRead(a: seq<MemOp>, op: MemOp, b: seq<MemOp>, snapshot: U64)
    requires op.key.key != [] && op.key.CommitTS() <= snapshot
    requires NoneSince(a, op.key.key, op.key.CommitTS(), snapshot)
    requires NoneSince(b, op.key.key, op.key.CommitTS(), snapshot)
    ensures SnapshotRead(ApplyAll([], a + [op] + b), op.key.key, snapshot) == ReadBack(op)
  {
    hide Apply, NoneSince, LastVisible, ReadBack, Sorted;
    NewestOpIsRead(a, op, snapshot);
    ApplyAllAppend([], a, [op]);
    ApplyOne(ApplyAll([], a), op);
    ApplyAllAppend([], a + [op], b);
    OlderOpsHide(Apply(ApplyAll([], a), op), b, op.key.key, op.key.CommitTS(), snapshot);
  }

  // ------------------------------------------------------------------ the record of a commit

  /** The batch that a commit fills, in the order in which its buffer yields the keys. */
  function BatchOf(writes: map<Bytes, PendingOp>, order: seq<Bytes>): (ops: seq<B.BatchOp>)
    requires forall k :: k in order ==> k in writes
    ensures |ops| == |order|
  {
    seq(|order|, i requires 0 <= i < |order| => match writes[order[i]]
      case PutOp(value) => B.Put(order[i], value)
      case DeleteOp => B.Delete(order[i]))
  }

  /** The record that goes to the log of every shard that a key of the batch routes to. */
  function BatchEntry(writes: map<Bytes, PendingOp>, order: seq<Bytes>, c: U64): W.WalEntry
    requires forall k :: k in order ==> k in writes
  {
    W.WalEntry(W.OP_BATCH, false, c, [], B.Encoded(BatchOf(writes, order)))
  }

  /** The keys that route to the shard. */
  function Routed(order: seq<Bytes>, shard: nat, route: Routing): (r: seq<Bytes>)
    ensures forall k :: k in r <==> k in order && route(k) == shard
  {
    if order == [] then []
    else
      var init, k := order[..|order| - 1], order[|order| - 1];
      Routed(init, shard, route) + if route(k) == shard then [k] else []
  }

  /** Twelve bytes that replay takes for a pointer out of bounds: it stores a tombstone tag. */
  predicate OutsideLog(op: PendingOp, vlogSize: nat) {
    op.PutOp? && |op.value| == VALUE_POINTER_SIZE && OutOfBounds(DecodeValuePointer(op.value).value, vlogSize)
  }

  /** What replay does for one write of the batch. */
  function ReplayedOp(key: Bytes, op: PendingOp, c: U64, vlogSize: nat): MemOp {
    if OutsideLog(op, vlogSize) then Put(NewMVCCKey(key, c), Some([TYPE_TOMBSTONE])) else OpOf(key, op, c)
  }

  function ReplayedOps(writes: map<Bytes, PendingOp>, keys: seq<Bytes>, c: U64, vlogSize: nat): (ops: seq<MemOp>)
    requires forall k :: k in keys ==> k in writes
    ensures |ops| == |keys|
  {
    seq(|keys|, i requires 0 <= i < |keys| => ReplayedOp(keys[i], writes[keys[i]], c, vlogSize))
  }

  lemma OneReplayed(key: Bytes, op: PendingOp, local: B.LocalOp, c: U64, vlogSize: nat)
    requires local.key == key && (op.DeleteOp? <==> local.isDelete) && (op.PutOp? ==> op.value == local.value)
    ensures ReplayBatchOp(local, c, vlogSize) == ReplayedOp(key, op, c, vlogSize)
  {
    hide DecodeValuePointer, OutOfBounds;
  }

  lemma {:induction false} ReplayOfOps(writes: map<Bytes, PendingOp>, order: seq<Bytes>, local: seq<B.LocalOp>, c: U64,
                                       vlogSize: nat, shard: nat, route: Routing)
    requires forall k :: k in order ==> k in writes
    requires B.Agree(BatchOf(writes, order), local)
    ensures ReplayBatch(local, c, vlogSize, shard, route)
      == ReplayedOps(writes, Routed(order, shard, route), c, vlogSize)
  {
    hide ReplayBatchOp, ReplayedOp;
    if order != [] {
      var n := |order| - 1;
      var init, key := order[..n], order[n];
      var batch := BatchOf(writes, order);
      assert BatchOf(writes, init) == batch[..n];
      ReplayOfOps(writes, init, local[..n], c, vlogSize, shard, route);
      assert batch[n].key == local[n].key == key;
      OneReplayed(key, writes[key], local[n], c, vlogSize);
    }
  }

  /** Replay of the record of a commit does to the memtable of a shard exactly what the commit did
      there, unless a routed value is 12 bytes that, read as a pointer, lie outside the value log. */
  lemma ReplayOfCommit(writes: map<Bytes, PendingOp>, order: seq<Bytes>, c: U64, vlogSize: nat, shard: nat,
                       route: Routing)
    requires Orders(order, writes) && B.Fits(BatchOf(writes, order))
    ensures var keys := Routed(order, shard, route);
      var ops := ReplayEntry(BatchEntry(writes, order, c), vlogSize, shard, route);
      && ops == ReplayedOps(writes, keys, c, vlogSize)
      && (ops == OpsOf(writes, keys, c) <==> forall k :: k in keys ==> !OutsideLog(writes[k], vlogSize))
  {
    hide B.Encoded, B.BatchDecoding, B.LocalDecoding, OutsideLog, B.Agree;
    var batch, keys := BatchOf(writes, order), Routed(order, shard, route);
    B.BatchRoundTrip(batch);
    B.LocalAcceptsWhatBatchDoes(B.Encoded(batch));
    ReplayOfOps(writes, order, B.LocalDecoding(B.Encoded(batch)).value, c, vlogSize, shard, route);
    var ops, live := ReplayedOps(writes, keys, c, vlogSize), OpsOf(writes, keys, c);
    if k :| k in keys && OutsideLog(writes[k], vlogSize) {
      var i :| 0 <= i < |keys| && keys[i] == k;
      TombstoneIsNoPointer(k, writes[k], c, vlogSize);
      assert ops[i] != live[i];
    } else {
      assert ops == live;
    }
  }

  lemma TombstoneIsNoPointer(key: Bytes, op: PendingOp, c: U64, vlogSize: nat)
    requires OutsideLog(op, vlogSize)
    ensures ReplayedOp(key, op, c, vlogSize) != OpOf(key, op, c)
  {
    assert TagStoredValue(Some(op.value))[0] == TYPE_VALUE_POINTER;
  }

  lemma {:induction false} RoutedOnce(order: seq<Bytes>, shard: nat, route: Routing, i: nat, j: nat)
    requires (forall p, q :: 0 <= p < q < |order| ==> order[p] != order[q]) && i < j < |Routed(order, shard, route)|
    ensures Routed(order, shard, route)[i] != Routed(order, shard, route)[j]
  {
    var n := |order| - 1;
    var before := Routed(order[..n], shard, route);
    if j < |before| {
      RoutedOnce(order[..n], shard, route, i, j);
    } else {
      assert before[i] in order[..n];
    }
  }

  /** The one operation that the replayed record has on a key. */
  lemma CommitOnKey(writes: map<Bytes, PendingOp>, order: seq<Bytes>, c: U64, vlogSize: nat, shard: nat, route: Routing,
                    key: Bytes) returns (i: nat)
    requires Orders(order, writes) && key in writes && route(key) == shard
    ensures var ops := ReplayedOps(writes, Routed(order, shard, route), c, vlogSize);
      && i < |ops| && ops[i] == ReplayedOp(key, writes[key], c, vlogSize)
      && forall j :: 0 <= j < |ops| && j != i ==> ops[j].key.key != key
  {
    var keys := Routed(order, shard, route);
    i :| 0 <= i < |keys| && keys[i] == key;
    forall j | 0 <= j < |keys| && j != i ensures keys[j] != key {
      if i < j {
        RoutedOnce(order, shard, route, i, j);
      } else {
        RoutedOnce(order, shard, route, j, i);
      }
    }
  }

  // ------------------------------------------------------------------ what is read after a restart

  lemma LogAround(es: seq<W.WalEntry>, j: nat, vlogSize: nat, shard: nat, route: Routing)
    requires j < |es|
    ensures ReplayLog(es, vlogSize, shard, route)
      == ReplayLog(es[..j], vlogSize, shard, route) + ReplayEntry(es[j], vlogSize, shard, route)
         + ReplayLog(es[j + 1..], vlogSize, shard, route)
  {
    hide ReplayEntry;
    assert es == es[..j + 1] + es[j + 1..] && es[..j + 1][..j] == es[..j];
    ReplayLogAppend(es[..j + 1], es[j + 1..], vlogSize, shard, route);
  }

  /** Nothing else in the log is on the key and as new as c for the snapshot. */
  ghost predicate NewestInLog(es: seq<W.WalEntry>, j: nat, key: Bytes, c: U64, snapshot: U64, vlogSize: nat, shard: nat,
                              route: Routing)
    requires j < |es|
  {
    && NoneSince(ReplayLog(es[..j], vlogSize, shard, route), key, c, snapshot)
    && NoneSince(ReplayLog(es[j + 1..], vlogSize, shard, route), key, c, snapshot)
  }

  /** The entry at j has one operation on the key: a snapshot that sees nothing newer reads it. */
  lemma EntryIsRead(es: seq<W.WalEntry>, j: nat, i: nat, snapshot: U64, vlogSize: nat, shard: nat, route: Routing)
    requires j < |es|
    requires var ops := ReplayEntry(es[j], vlogSize, shard, route);
      && i < |ops| && ops[i].key.key != [] && ops[i].key.CommitTS() <= snapshot
      && (forall n :: 0 <= n < |ops| && n != i ==> ops[n].key.key != ops[i].key.key)
      && NewestInLog(es, j, ops[i].key.key, ops[i].key.CommitTS(), snapshot, vlogSize, shard, route)
    ensures var op := ReplayEntry(es[j], vlogSize, shard, route)[i];
      SnapshotRead(Rebuilt(es, vlogSize, shard, route), op.key.key, snapshot) == ReadBack(op)
  {
    hide ReplayEntry, ReplayLog, SnapshotRead, ApplyAll, ReadBack;
    var ops := ReplayEntry(es[j], vlogSize, shard, route);
    var a, b := ReplayLog(es[..j], vlogSize, shard, route), ReplayLog(es[j + 1..], vlogSize, shard, route);
    LogAround(es, j, vlogSize, shard, route);
    Around(a, ops, b, i);
    OpIsRead(a + ops[..i], ops[i], ops[i + 1..] + b, snapshot);
  }

  lemma Around(a: seq<MemOp>, ops: seq<MemOp>, b: seq<MemOp>, i: nat)
    requires i < |ops|
    ensures a + ops + b == (a + ops[..i]) + [ops[i]] + (ops[i + 1..] + b)
  {
  }

  /** A committed transaction after a restart, from any log that holds its record: every key that it
      deleted reads as absent, and a key that it put reads back exactly when the value is not 12
      bytes long, or lies as a pointer in bounds and is what the value logs hold there. Twelve bytes
      that make no pointer in bounds are absent, also those that read back before the restart. */
  lemma CommitSurvivesRestart(es: seq<W.WalEntry>, j: nat, writes: map<Bytes, PendingOp>, order: seq<Bytes>, c: U64,
                              vlogSize: nat, shard: nat, route: Routing, key: Bytes, snapshot: U64,
                              resolve: Bytes -> Option<Bytes>)
    requires Orders(order, writes) && B.Fits(BatchOf(writes, order))
    requires j < |es| && es[j] == BatchEntry(writes, order, c)
    requires key != [] && key in writes && route(key) == shard
    requires c <= snapshot && NewestInLog(es, j, key, c, snapshot, vlogSize, shard, route)
    ensures var got := EngineGet(Rebuilt(es, vlogSize, shard, route), key, snapshot, resolve);
      match writes[key]
      case DeleteOp => got == None
      case PutOp(value) =>
        && (OutsideLog(writes[key], vlogSize) ==> got == None)
        && (got == Some(value)
            <==> (|value| != VALUE_POINTER_SIZE
                  || (!OutOfBounds(DecodeValuePointer(value).value, vlogSize) && resolve(value) == Some(value))))
  {
    hide SnapshotRead, Rebuilt, ReplayEntry, Orders, B.Fits, BatchEntry, NewestInLog, DecodeValuePointer, OutOfBounds;
    ReplayOfCommit(writes, order, c, vlogSize, shard, route);
    var i := CommitOnKey(writes, order, c, vlogSize, shard, route, key);
    EntryIsRead(es, j, i, snapshot, vlogSize, shard, route);
    StoredReads(writes[key], key, c, vlogSize, resolve);
  }

  /** What the engine makes of the operation that replay performed for one write. */
  lemma StoredReads(op: PendingOp, key: Bytes, c: U64, vlogSize: nat, resolve: Bytes -> Option<Bytes>)
    ensures match op
      case DeleteOp => ReadBack(ReplayedOp(key, op, c, vlogSize)) == None
      case PutOp(value) =>
        var r := ReadBack(ReplayedOp(key, op, c, vlogSize));
        && r.Some? && (OutsideLog(op, vlogSize) ==> DecodeStored(r.value, resolve) == None)
        && (DecodeStored(r.value, resolve) == Some(value)
            <==> (|value| != VALUE_POINTER_SIZE
                  || (!OutOfBounds(DecodeValuePointer(value).value, vlogSize) && resolve(value) == Some(value))))
  {
    hide DecodeValuePointer;
    if op.PutOp? && !OutsideLog(op, vlogSize) {
      assert TagStoredValue(Some(op.value))[1..] == op.value;
    }
  }

  /** The same for the record of a plain write that replay does not leave out. */
  lemma WriteSurvivesRestart(es: seq<W.WalEntry>, j: nat, w: Write, vlogSize: nat, shard: nat, route: Routing,
                             snapshot: U64, resolve: Bytes -> Option<Bytes>)
    requires j < |es| && es[j] == LogEntry(w) && !LeftOut(es[j], vlogSize) && w.key != [] && w.ts <= snapshot
    requires NewestInLog(es, j, w.key, w.ts, snapshot, vlogSize, shard, route)
    ensures var got := EngineGet(Rebuilt(es, vlogSize, shard, route), w.key, snapshot, resolve);
      match w
      case DeleteAt(_, _) => got == None
      case PutAt(_, value, _) => got == Some(value) <==> |value| != VALUE_POINTER_SIZE || resolve(value) == Some(value)
  {
    hide SnapshotRead, Rebuilt, NewestInLog, DecodeValuePointer;
    assert |ReplayEntry(es[j], vlogSize, shard, route)| == 1;
    EntryIsRead(es, j, 0, snapshot, vlogSize, shard, route);
    if w.PutAt? {
      assert TagStoredValue(Some(w.value))[1..] == w.value;
    }
  }

  /** End to end for an acknowledged commit: a run of the log accepted its record, a crash cut the
      file at any byte behind it, and the rebuilt memtable of every shard that logs it reads it back. */
  lemma CommitSurvivesCrash(crc: Checksum, grouped: bool, records: seq<W.WalEntry>, ops: seq<G.Op>, cut: nat, j: nat,
                            writes: map<Bytes, PendingOp>, order: seq<Bytes>, c: U64, vlogSize: nat, shard: nat,
                            route: Routing, key: Bytes, snapshot: U64, resolve: Bytes -> Option<Bytes>)
    requires W.AllFit(records)
    requires forall i :: 0 <= i < |ops| && ops[i].Append? ==> G.FitsGroup(grouped, ops[i].entry)
    requires cut <= |G.RunOf(crc, grouped, G.Opened(crc, records), ops).log.file|
    requires Orders(order, writes) && B.Fits(BatchOf(writes, order))
    requires key != [] && key in writes && route(key) == shard && c <= snapshot
    requires var accepted := G.RunOf(crc, grouped, G.Opened(crc, records), ops).accepted;
      && j < W.WholeRecords(accepted, cut) && accepted[j] == BatchEntry(writes, order, c)
      && NewestInLog(accepted[..W.WholeRecords(accepted, cut)], j, key, c, snapshot, vlogSize, shard, route)
    ensures var file := G.RunOf(crc, grouped, G.Opened(crc, records), ops).log.file[..cut];
      var got := EngineGet(Rebuilt(W.RecoverAll(crc, file), vlogSize, shard, route), key, snapshot, resolve);
      match writes[key]
      case DeleteOp => got == None
      case PutOp(value) =>
        && (OutsideLog(writes[key], vlogSize) ==> got == None)
        && (got == Some(value)
            <==> (|value| != VALUE_POINTER_SIZE
                  || (!OutOfBounds(DecodeValuePointer(value).value, vlogSize) && resolve(value) == Some(value))))
  {
    hide G.RunOf, W.WholeRecords, W.RecoverAll, Orders, B.Fits, BatchEntry, EngineGet, NewestInLog, Rebuilt, W.AllFit;
    G.CrashLeavesPrefix(crc, grouped, records, ops, cut);
    var accepted := G.RunOf(crc, grouped, G.Opened(crc, records), ops).accepted;
    var es := accepted[..W.WholeRecords(accepted, cut)];
    CommitSurvivesRestart(es, j, writes, order, c, vlogSize, shard, route, key, snapshot, resolve);
  }

  // ------------------------------------------------------------------ before a restart

  /** A write of the shard reads back from its memtable as it is, whatever the length of the value,
      for every snapshot that it takes over. */
  lemma LiveWriteReads(s: seq<Version>, w: Write, snapshot: U64, resolve: Bytes -> Option<Bytes>)
    requires Sorted(s) && w.key != [] && !Has(s, NewMVCCKey(w.key, w.ts))
    requires TakesOver(s, NewMVCCKey(w.key, w.ts), w.key, snapshot)
    ensures EngineGet(Apply(s, LiveOp(w)), w.key, snapshot, resolve) == if w.PutAt? then Some(w.value) else None
  {
    hide SnapshotRead, Has, Apply, Sorted;
    VisibleStep(s, LiveOp(w), w.key, snapshot);
    if w.PutAt? {
      assert TagInline(w.value)[1..] == w.value;
    }
  }
}
