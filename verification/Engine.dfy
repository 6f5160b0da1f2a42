/** Transactions as objects over an engine whose versions are in one memtable: timestamps,
    conflict checks through the cache, commits and the snapshot registry. */
module Engine {
  import opened Base
  import opened Cache
  import opened Conflict
  import opened Mvcc
  import opened Recovery
  import opened SkipList
  import opened Snapshots
  import opened Txn
  import opened Values
  import opened Versions

  class Engine {
    var lastTS: U64
    const memTable: SkipList
    const cache: LastCommitCache
    const registry: SnapshotRegistry
    /** What the value logs hold for a stored pointer. */
    const resolve: Bytes -> Option<Bytes>

    ghost predicate Valid()
      reads this, memTable, cache, registry
    {
      memTable.Valid() && cache.Valid() && registry.Abs().Valid()
    }

    ghost function Abs(): Eng
      requires Valid()
      reads this, memTable, cache, registry
    {
      Eng(lastTS, memTable.Versions(), registry.Abs(), cache.Abs())
    }

    /** Opens over a recovered memtable: persisted is the timestamp on file, inLogs the highest one
        in the logs. */
    constructor (persisted: U64, inLogs: U64, recovered: SkipList, resolve: Bytes -> Option<Bytes>)
      requires recovered.Valid()
      ensures Valid() && Abs() == Restarted(MAX_ENTRIES, ResumedTS(persisted, inLogs), recovered.Versions()).eng
      ensures memTable == recovered && fresh(cache) && fresh(registry)
    {
      var last := persisted;
      if last < 1 {
        last := 1;
      }
      if inLogs > last {
        last := inLogs;
      }
      lastTS := last;
      this.resolve := resolve;
      memTable := recovered;
      cache := new LastCommitCache();
      registry := new SnapshotRegistry();
    }

    method NextTimestamp() returns (ts: U64)
      requires lastTS < MAX_U64
      modifies this`lastTS
      ensures ts == lastTS == old(lastTS) + 1
    {
      lastTS := lastTS + 1;
      return lastTS;
    }

    method GetWithTS(key: Bytes, snapshotTS: U64) returns (value: Option<Bytes>)
      requires Valid()
      ensures value == EngineGet(memTable.Versions(), key, snapshotTS, resolve)
    {
      hide SnapshotRead;
      var stored, found := memTable.Get(NewMVCCKey(key, snapshotTS));
      if found {
        return DecodeStored(stored, resolve);
      }
      return None;
    }

    /** The cache first, and on a miss what the memtable reports as the latest version. */
    method CheckConflict(key: Bytes, startTS: U64) returns (conflict: bool)
      requires Valid()
      modifies cache
      ensures Valid()
      ensures var check := old(cache.Abs()).Checked(key, startTS, LatestOf(memTable.Versions(), key).ts);
        conflict == check.0 && Abs() == old(Abs()).(cache := check.1)
    {
      hide LatestOf;
      var _, latest, _ := memTable.GetLatest(key);
      conflict := cache.CheckConflict(key, startTS, latest);
    }

    /** A plain write at its timestamp: a put of a value small enough to lie inline, tagged. */
    method PutWithTS(key: Bytes, value: Bytes, commitTS: U64)
      requires Valid() && |value| <= MAX_INLINE_SIZE
      modifies memTable, cache
      ensures Valid() && Abs() == PlainWritten(old(Abs()), commitTS, key, Some(TagInline(value)))
    {
      hide PutInto;
      var _ := memTable.Put(NewMVCCKey(key, commitTS), Some(TagInline(value)));
      cache.Update(key, commitTS);
    }

    /** A plain delete at its timestamp. */
    method DeleteWithTS(key: Bytes, commitTS: U64)
      requires Valid()
      modifies memTable, cache
      ensures Valid() && Abs() == PlainWritten(old(Abs()), commitTS, key, None)
    {
      hide DeleteInto;
      var _ := memTable.DeleteWithTS(NewMVCCKey(key, commitTS));
      cache.Update(key, commitTS);
    }

    /** Applies the writes of a batch in their order, all at one timestamp. */
    method WriteAtomicBatch(order: seq<Bytes>, writes: map<Bytes, PendingOp>, commitTS: U64)
      requires Valid() && forall k :: k in order ==> k in writes
      modifies memTable, cache
      ensures Valid() && memTable.Versions() == ApplyAll(old(memTable.Versions()), OpsOf(writes, order, commitTS))
      ensures cache.Abs() == CacheAfter(old(cache.Abs()), order, commitTS)
    {
      hide PutInto, DeleteInto, Lru.Updated, ApplyAll, CacheAfter, Recent;
      ghost var s, ops, c := memTable.Versions(), OpsOf(writes, order, commitTS), cache.Abs();
      NothingWritten(s, ops, c, order, commitTS);
      for i := 0 to |order|
        invariant Valid() && memTable.Versions() == ApplyAll(s, ops[..i])
        invariant cache.Abs() == CacheAfter(c, order[..i], commitTS)
      {
        OneWritten(s, ops, c, order, commitTS, i);
        var key := order[i];
        match writes[key] {
          case PutOp(value) =>
            var _ := memTable.Put(NewMVCCKey(key, commitTS), Some(TagStoredValue(Some(value))));
          case DeleteOp =>
            var _ := memTable.DeleteWithTS(NewMVCCKey(key, commitTS));
        }
        cache.Update(key, commitTS);
      }
      assert ops[..|order|] == ops && order[..|order|] == order;
    }
  }

  class Transaction {
    const db: Engine
    const startTS: U64
    var writes: map<Bytes, PendingOp>
    var closed: bool
    ghost var committed: Option<U64>

    ghost predicate Valid()
      reads this, db, db.memTable, db.cache, db.registry
    {
      db.Valid()
    }

    ghost function Abs(): Tx
      reads this
    {
      Tx(startTS, writes, closed, committed)
    }

    /** The snapshot is registered before anything is read. */
    constructor (engine: Engine, ts: U64)
      requires engine.Valid()
      modifies engine.registry
      ensures Valid() && db == engine && Abs() == Tx(ts, map[], false, None)
      ensures engine.Abs() == old(engine.Abs()).(registry := Registered(old(engine.Abs().registry), ts))
    {
      db, startTS, writes, closed, committed := engine, ts, map[], false, None;
      new;
      engine.registry.RegisterSnapshot(ts);
    }

    method Get(key: Bytes) returns (value: Option<Bytes>, ok: bool)
      requires Valid()
      ensures ok == !closed
      ensures ok ==> value == TxGet(db.memTable.Versions(), Abs(), key, db.resolve)
    {
      if closed {
        return None, false;
      }
      if key in writes {
        match writes[key] {
          case DeleteOp => return None, true;
          case PutOp(v) => return Some(v), true;
        }
      }
      value := db.GetWithTS(key, startTS);
      ok := true;
    }

    method Put(key: Bytes, value: Bytes) returns (ok: bool)
      modifies this`writes
      ensures ok == !closed
      ensures Abs() == if closed then old(Abs()) else old(Abs()).(writes := old(writes)[key := PutOp(value)])
    {
      if closed {
        return false;
      }
      writes := writes[key := PutOp(value)];
      return true;
    }

    method Delete(key: Bytes) returns (ok: bool)
      modifies this`writes
      ensures ok == !closed
      ensures Abs() == if closed then old(Abs()) else old(Abs()).(writes := old(writes)[key := DeleteOp])
    {
      if closed {
        return false;
      }
      writes := writes[key := DeleteOp];
      return true;
    }

    /** Checks the keys of the buffer one by one, in the order in which the map yields them, up
        to the first conflict; checked is that order, with what was left after the conflict. */
    method FindConflict() returns (conflict: bool, ghost checked: seq<Bytes>)
      requires Valid()
      modifies db.cache
      ensures Valid() && Orders(checked, writes)
      ensures var check := CheckAll(old(db.cache.Abs()), db.memTable.Versions(), checked, startTS);
        conflict == check.0 && db.Abs() == old(db.Abs()).(cache := check.1)
    {
      hide LatestOf, Lru.Checked, Lru.Valid, Recent;
      var rest := writes.Keys;
      ghost var c, s := db.cache.Abs(), db.memTable.Versions();
      checked := [];
      conflict := false;
      while rest != {} && !conflict
        invariant Valid() && rest <= writes.Keys && Distinct(checked, writes, rest)
        invariant CheckAll(c, s, checked, startTS) == (conflict, db.cache.Abs())
        invariant db.Abs() == old(db.Abs()).(cache := db.cache.Abs())
        decreases |rest|
      {
        var key :| key in rest;
        conflict := db.CheckConflict(key, startTS);
        Extend(checked, writes, rest, key);
        assert (checked + [key])[..|checked|] == checked;
        checked := checked + [key];
        rest := rest - {key};
      }
      if conflict {
        checked := AllOf(c, s, checked, startTS, writes, rest);
      }
    }

    /** The keys of the buffer in some order. */
    method BatchOrder() returns (order: seq<Bytes>)
      ensures Orders(order, writes)
    {
      order := [];
      var rest := writes.Keys;
      while rest != {}
        invariant rest <= writes.Keys && Distinct(order, writes, rest)
        decreases |rest|
      {
        var key :| key in rest;
        Extend(order, writes, rest, key);
        order := order + [key];
        rest := rest - {key};
      }
    }

    /** The timestamp of the commit, and the whole buffer written at it. */
    method WriteAll() returns (commitTS: U64, ghost order: seq<Bytes>)
      requires Valid() && db.lastTS < MAX_U64 && startTS < MAX_U64
      modifies db`lastTS, db.memTable, db.cache
      ensures Valid() && Orders(order, writes) && commitTS == CommitTSOf(old(db.lastTS), startTS)
      ensures db.Abs() == Written(old(db.Abs()), Abs(), order, commitTS, old(db.cache.Abs()))
    {
      hide ApplyAll, CacheAfter;
      commitTS := db.NextTimestamp();
      if commitTS <= startTS {
        commitTS := startTS + 1;
      }
      var ops := BatchOrder();
      order := ops;
      db.WriteAtomicBatch(ops, writes, commitTS);
    }

    /** The commit does what the step of the state machine does. */
    method Commit() returns (outcome: Outcome, ghost checked: seq<Bytes>, ghost order: seq<Bytes>)
      requires Valid() && db.lastTS < MAX_U64 && startTS < MAX_U64
      modifies this, db`lastTS, db.memTable, db.cache, db.registry
      ensures Valid() && Orders(checked, old(writes)) && Orders(order, old(writes))
      ensures (db.Abs(), Abs(), outcome) == CommitOf(old(db.Abs()), old(Abs()), checked, order)
    {
      hide ApplyAll, Registered, Unregistered, CheckAll, CommitTSOf, CacheAfter, Orders, Lru.Valid;
      order := BatchOrder();
      checked := order;
      if closed {
        return Closed, checked, order;
      }
      if writes == map[] {
        closed := true;
        db.registry.UnregisterSnapshot(startTS);
        return Committed, checked, order;
      }
      var conflict;
      conflict, checked := FindConflict();
      if conflict {
        closed := true;
        db.registry.UnregisterSnapshot(startTS);
        return Outcome.Conflict, checked, order;
      }
      var commitTS;
      commitTS, order := WriteAll();
      closed := true;
      committed := Some(commitTS);
      db.registry.UnregisterSnapshot(startTS);
      return Committed, checked, order;
    }

    method Rollback() returns (ok: bool)
      requires Valid()
      modifies this, db.registry
      ensures Valid() && ok == !old(closed)
      ensures !ok ==> Abs() == old(Abs()) && db.Abs() == old(db.Abs())
      ensures ok ==> Abs() == old(Abs()).(closed := true, writes := map[])
      ensures ok ==> db.Abs() == old(db.Abs()).(registry := Unregistered(old(db.Abs().registry), startTS))
    {
      if closed {
        return false;
      }
      closed := true;
      writes := map[];
      db.registry.UnregisterSnapshot(startTS);
      return true;
    }
  }

  lemma NothingWritten(s: seq<Version>, ops: seq<MemOp>, c: Lru, order: seq<Bytes>, ts: U64)
    ensures ApplyAll(s, ops[..0]) == s && CacheAfter(c, order[..0], ts) == c
  {
  }

  lemma OneWritten(s: seq<Version>, ops: seq<MemOp>, c: Lru, order: seq<Bytes>, ts: U64, i: nat)
    requires i < |order| == |ops|
    ensures ApplyAll(s, ops[..i + 1]) == Apply(ApplyAll(s, ops[..i]), ops[i])
    ensures CacheAfter(c, order[..i + 1], ts) == CacheAfter(c, order[..i], ts).Updated(order[i], ts)
  {
    hide Apply, Lru.Updated;
    assert ops[..i + 1][..i] == ops[..i] && order[..i + 1][..i] == order[..i];
  }

  /** The distinct keys of the buffer that are not left. */
  ghost predicate Distinct(order: seq<Bytes>, writes: map<Bytes, PendingOp>, rest: set<Bytes>) {
    NoDuplicates(order) && forall k :: k in order <==> k in writes && k !in rest
  }

  lemma Extend(order: seq<Bytes>, writes: map<Bytes, PendingOp>, rest: set<Bytes>, key: Bytes)
    requires Distinct(order, writes, rest) && key in rest && key in writes
    ensures Distinct(order + [key], writes, rest - {key})
  {
  }

  /** After a conflict no further key is checked. */
  lemma {:induction false} AllOf(c: Lru, s: seq<Version>, order: seq<Bytes>, startTS: U64,
                                 writes: map<Bytes, PendingOp>, rest: set<Bytes>) returns (all: seq<Bytes>)
    requires Distinct(order, writes, rest) && rest <= writes.Keys && CheckAll(c, s, order, startTS).0
    ensures Orders(all, writes) && CheckAll(c, s, all, startTS) == CheckAll(c, s, order, startTS)
    decreases |rest|
  {
    hide LatestOf;
    if rest == {} {
      all := order;
    } else {
      var key :| key in rest;
      Extend(order, writes, rest, key);
      assert (order + [key])[..|order|] == order;
      all := AllOf(c, s, order + [key], startTS, writes, rest - {key});
    }
  }
}
