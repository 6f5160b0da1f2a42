/** Snapshot isolation over whole runs: which runs keep committed writers of one key apart, which
    keep the reads of a transaction stable, and runs that do not. */
module Isolation {
  import opened Base
  import opened Cache
  import opened Conflict
  import opened Mvcc
  import opened Recovery
  import opened Snapshots
  import opened Txn
  import opened Values
  import opened Versions

  // ------------------------------------------------------------------ committed writers

  /** Two committed transactions that wrote the same key did not overlap. */
  ghost predicate Apart(a: Tx, b: Tx) {
    a.committed.Some? && b.committed.Some? && !(a.writes.Keys !! b.writes.Keys) ==>
      a.committed.value <= b.startTS || b.committed.value <= a.startTS
  }

  ghost predicate AllApart(txs: seq<Tx>) {
    forall i, j :: 0 <= i < |txs| && 0 <= j < |txs| && i != j ==> Apart(txs[i], txs[j])
  }

  /** The step is a commit whose check lets it write. */
  ghost predicate Admits(w: World, e: Event) {
    && e.Commit? && CanCommit(w, e.i, e.checked, e.order)
    && !CheckAll(w.eng.cache, w.eng.store, e.checked, w.txs[e.i].startTS).0
  }

  /** No key of an admitted commit was stale when it was checked. */
  ghost predicate SeesAll(w: World, e: Event) {
    Admits(w, e) ==> !Missed(w.eng.cache, w.eng.store, e.checked, w.txs[e.i].startTS)
  }

  ghost predicate SeesAllRun(w: World, es: seq<Event>)
    requires SoundRun(w, es)
    decreases |es|
  {
    es == [] || (SeesAll(w, es[0]) && SeesAllRun(Step(w, es[0]), es[1..]))
  }

  /** No key of an admitted commit has a commit newer than the start of the transaction. */
  ghost predicate FirstCommitterWins(w: World, e: Event) {
    Admits(w, e) ==> !Conflicts(w.eng.store, w.txs[e.i])
  }

  ghost predicate FirstCommitterWinsRun(w: World, es: seq<Event>)
    requires SoundRun(w, es)
    decreases |es|
  {
    es == [] || (FirstCommitterWins(w, es[0]) && FirstCommitterWinsRun(Step(w, es[0]), es[1..]))
  }

  lemma ConflictsInOrder(s: seq<Version>, tx: Tx, order: seq<Bytes>)
    requires Orders(order, tx.writes)
    ensures Conflicts(s, tx) <==> Conflicting(s, order, tx.startTS)
  {
    if Conflicts(s, tx) {
      var k :| k in tx.writes.Keys && LastCommit(s, k) > tx.startTS;
      assert k in order;
    }
  }

  /** A commit is refused only over a real conflict, and it is admitted over one exactly when a
      key was stale at its check. */
  lemma CommitChecksIff(w: World, i: nat, checked: seq<Bytes>, order: seq<Bytes>)
    requires Inv(w) && CanCommit(w, i, checked, order)
    ensures var tx, e := w.txs[i], Commit(i, checked, order);
      && (!Admits(w, e) ==> Conflicts(w.eng.store, tx))
      && (SeesAll(w, e) <==> FirstCommitterWins(w, e))
  {
    hide Missed, Conflicts, Conflicting, NotAhead, CheckAll;
    StoreIsSorted(w.eng);
    CheckAllIff(w.eng.cache, w.eng.store, checked, w.txs[i].startTS);
    ConflictsInOrder(w.eng.store, w.txs[i], checked);
  }

  /** First committer wins in exactly the runs in which no check is stale. */
  lemma {:induction false} FirstCommitterWinsIff(w: World, es: seq<Event>)
    requires Inv(w) && SoundRun(w, es)
    ensures SeesAllRun(w, es) <==> FirstCommitterWinsRun(w, es)
    decreases |es|
  {
    hide Inv, SeesAll, FirstCommitterWins, Step;
    if es != [] {
      StepKeepsInv(w, es[0]);
      FirstCommitterWinsIff(Step(w, es[0]), es[1..]);
      OneCheck(w, es[0]);
    }
  }

  lemma OneCheck(w: World, e: Event)
    requires Inv(w)
    ensures SeesAll(w, e) <==> FirstCommitterWins(w, e)
  {
    hide Missed, Conflicts, Inv, CanCommit, CheckAll;
    if e.Commit? && CanCommit(w, e.i, e.checked, e.order) {
      CommitChecksIff(w, e.i, e.checked, e.order);
    }
  }

  /** A transaction that commits is apart from all that committed before: their writes are in
      the store, and the conflict check saw none after its start. */
  lemma AdmittedIsApart(e: Eng, tx: Tx, other: Tx, c: U64)
    requires StoreInv(e) && CommitInv(e, other) && !Conflicts(e.store, tx)
    ensures var done := tx.(closed := true, committed := Some(c)); Apart(done, other) && Apart(other, done)
  {
    if other.committed.Some? && !(tx.writes.Keys !! other.writes.Keys) {
      var k :| k in tx.writes && k in other.writes;
      LastCommitCovers(e.store, k, other.committed.value);
    }
  }

  lemma UncommittedApart(a: Tx, b: Tx)
    requires a.committed.None?
    ensures Apart(a, b) && Apart(b, a)
  {
  }

  lemma ApartStep(w: World, e: Event)
    requires Inv(w) && AllApart(w.txs) && Sound(w, e) && SeesAll(w, e)
    ensures AllApart(Step(w, e).txs)
  {
    hide Apart, StoreInv, RegistryInv, DrawnInv, NotAhead, Conflicts, SeesAll, CheckAll;
    var after := Step(w, e);
    match e {
      case Begin => NewIsApart(w.txs, after.txs[|w.txs|]);
      case BeginAt(_) => NewIsApart(w.txs, after.txs[|w.txs|]);
      case Buffer(i, _, _) =>
        if i < |w.txs| && !w.txs[i].closed {
          assert CommitInv(w.eng, w.txs[i]);
          ReplacedIsApart(w.txs, i, after.txs[i]);
        }
      case Rollback(i) =>
        if i < |w.txs| && !w.txs[i].closed {
          assert CommitInv(w.eng, w.txs[i]);
          ReplacedIsApart(w.txs, i, after.txs[i]);
        }
      case Commit(i, checked, order) =>
        if CanCommit(w, i, checked, order) {
          assert CommitInv(w.eng, w.txs[i]);
          CommitIsApart(w, i, checked, order);
        }
      case _ =>
    }
  }

  lemma NewIsApart(txs: seq<Tx>, tx: Tx)
    requires AllApart(txs) && tx.committed.None?
    ensures AllApart(txs + [tx])
  {
    forall i | 0 <= i < |txs| ensures Apart(tx, txs[i]) && Apart(txs[i], tx) {
      UncommittedApart(tx, txs[i]);
    }
  }

  lemma ReplacedIsApart(txs: seq<Tx>, i: nat, tx: Tx)
    requires AllApart(txs) && i < |txs| && tx.committed.None?
    ensures AllApart(txs[i := tx])
  {
    forall j | 0 <= j < |txs| ensures Apart(tx, txs[j]) && Apart(txs[j], tx) {
      UncommittedApart(tx, txs[j]);
    }
  }

  lemma CommitIsApart(w: World, i: nat, checked: seq<Bytes>, order: seq<Bytes>)
    requires Inv(w) && AllApart(w.txs) && w.eng.lastTS < MAX_U64 && CanCommit(w, i, checked, order)
    requires SeesAll(w, Commit(i, checked, order)) && CommitInv(w.eng, w.txs[i])
    ensures AllApart(Step(w, Commit(i, checked, order)).txs)
  {
    hide Apart, RegistryInv, DrawnInv, NotAhead, StoreInv, Conflicts, SeesAll, CheckAll, CommitTSOf, Written;
    var tx, r := w.txs[i], CommitOf(w.eng, w.txs[i], checked, order);
    CommitChecksIff(w, i, checked, order);
    if r.1.committed.Some? {
      forall j | 0 <= j < |w.txs| && j != i ensures Apart(r.1, w.txs[j]) && Apart(w.txs[j], r.1) {
        assert CommitInv(w.eng, w.txs[j]);
        AdmittedIsApart(w.eng, tx, w.txs[j], r.1.committed.value);
      }
    } else {
      ReplacedIsApart(w.txs, i, r.1);
    }
  }

  lemma {:induction false} ApartRun(w: World, es: seq<Event>)
    requires Inv(w) && AllApart(w.txs) && SoundRun(w, es) && SeesAllRun(w, es)
    ensures AllApart(Run(w, es).txs)
    decreases |es|
  {
    hide Inv, AllApart, Step, SeesAll;
    if es != [] {
      StepKeepsInv(w, es[0]);
      ApartStep(w, es[0]);
      ApartRun(Step(w, es[0]), es[1..]);
    }
  }

  /** In every run without a stale check, no two committed transactions that overlap in time
      wrote the same key. */
  lemma CommittedNeverOverlap(cap: nat, lastTS: U64, store: seq<Version>, es: seq<Event>, i: nat, j: nat, key: Bytes)
    requires cap > 0 && Resumable(lastTS, store)
    requires SoundRun(Restarted(cap, lastTS, store), es) && SeesAllRun(Restarted(cap, lastTS, store), es)
    requires var txs := Run(Restarted(cap, lastTS, store), es).txs; i < |txs| && j < |txs| && i != j
    ensures var txs := Run(Restarted(cap, lastTS, store), es).txs; var a, b := txs[i], txs[j];
      a.committed.Some? && b.committed.Some? && key in a.writes && key in b.writes ==>
        a.committed.value <= b.startTS || b.committed.value <= a.startTS
  {
    var start := Restarted(cap, lastTS, store);
    RestartInv(cap, lastTS, store);
    ApartRun(start, es);
    var a, b := Run(start, es).txs[i], Run(start, es).txs[j];
    assert Apart(a, b);
    if key in a.writes && key in b.writes {
      assert key in a.writes.Keys && key in b.writes.Keys;
    }
  }

  // ------------------------------------------------------------------ runs whose checks are right

  /** A plain write lands after every earlier write to its key. */
  ghost predicate InOrder(w: World, e: Event) {
    e.Write? && e.ts in w.drawn ==> e.ts > LastCommit(w.eng.store, e.key)
  }

  ghost predicate InOrderRun(w: World, es: seq<Event>)
    requires SoundRun(w, es)
    decreases |es|
  {
    es == [] || (InOrder(w, es[0]) && InOrderRun(Step(w, es[0]), es[1..]))
  }

  predicate NoDelete(e: Event) {
    (e.Buffer? ==> e.op.PutOp?) && (e.Write? ==> e.stored.Some?)
  }

  predicate Among(e: Event, keys: set<Bytes>) {
    (e.Buffer? ==> e.key in keys) && (e.Write? ==> e.key in keys)
  }

  /** What makes checks right: nothing is deleted, or every stored key is cached. */
  ghost predicate NothingDeleted(w: World) {
    (forall v :: v in w.eng.store ==> !v.deleted) && forall tx :: tx in w.txs ==> AllPuts(tx.writes)
  }

  predicate AllPuts(writes: map<Bytes, PendingOp>) {
    forall k :: k in writes ==> writes[k].PutOp?
  }

  ghost predicate EveryKeyCached(w: World, keys: set<Bytes>) {
    && |keys| <= w.eng.cache.cap && w.eng.cache.entries.Keys <= keys && CachesAll(w.eng.cache, w.eng.store)
    && forall tx :: tx in w.txs ==> tx.writes.Keys <= keys
  }

  ghost predicate CachesAll(c: Lru, s: seq<Version>) {
    forall k :: k in KeysOf(s) ==> k.key in c.entries
  }

  ghost predicate LatestIsRight(s: seq<Version>) {
    forall k :: LatestOf(s, k).ts == LastCommit(s, k)
  }

  lemma {:induction false} LastLiveIsLast(s: seq<Version>, key: Bytes)
    requires forall v :: v in s ==> !v.deleted
    ensures LastLive(s, key) == LastVisible(s, key, MAX_U64)
  {
    if s != [] {
      LastLiveIsLast(s[..|s| - 1], key);
    }
  }

  lemma NothingDeletedIsRight(s: seq<Version>)
    requires forall v :: v in s ==> !v.deleted
    ensures LatestIsRight(s)
  {
    forall k ensures LatestOf(s, k).ts == LastCommit(s, k) {
      LastLiveIsLast(s, k);
    }
  }

  lemma NotStored(c: Lru, s: seq<Version>, key: Bytes)
    requires CachesAll(c, s) && key !in c.entries
    ensures LastCommit(s, key) == 0 && LatestOf(s, key).ts == 0
  {
    forall v | v in s ensures v.key.key != key {
      assert v.key in KeysOf(s);
    }
  }

  lemma AgreesIsNotAhead(c: Lru, s: seq<Version>)
    requires Agrees(c, s)
    ensures NotAhead(c, s)
  {
  }

  lemma OneCheckRight(c: Lru, s: seq<Version>, key: Bytes, startTS: U64)
    requires Sorted(s) && Agrees(c, s) && (LatestIsRight(s) || CachesAll(c, s))
    ensures !Stale(c, s, key, startTS)
    ensures var r := c.Checked(key, startTS, LatestOf(s, key).ts).1;
      Agrees(r, s) && r.cap == c.cap && (CachesAll(c, s) ==> r.entries == c.entries)
  {
    hide LatestOf, LastCommit, Sorted, CachesAll;
    AgreesIsNotAhead(c, s);
    CheckIsWrongIff(c, s, key, startTS);
    CheckedReports(c, s, key, startTS);
    TouchedMembers(c, key);
    if CachesAll(c, s) && key !in c.entries {
      NotStored(c, s, key);
    }
  }

  lemma {:induction false} ChecksRight(c: Lru, s: seq<Version>, keys: seq<Bytes>, startTS: U64)
    requires Sorted(s) && Agrees(c, s) && (LatestIsRight(s) || CachesAll(c, s))
    ensures !Missed(c, s, keys, startTS)
    ensures var r := CheckAll(c, s, keys, startTS).1;
      Agrees(r, s) && r.cap == c.cap && (CachesAll(c, s) ==> r.entries == c.entries)
  {
    hide LatestOf, Agrees, LatestIsRight, Stale, Sorted;
    if keys != [] {
      var init, key := keys[..|keys| - 1], keys[|keys| - 1];
      ChecksRight(c, s, init, startTS);
      MissedLast(c, s, keys, startTS);
      OneCheckRight(CheckAll(c, s, init, startTS).1, s, key, startTS);
    }
  }

  /** After a batch newer than the store the cache again holds the last commits. */
  lemma BatchAgrees(e: Eng, tx: Tx, order: seq<Bytes>, c: U64, cache: Lru)
    requires StoreInv(e) && e.lastTS < c && Orders(order, tx.writes) && Agrees(cache, e.store)
    ensures Agrees(CacheAfter(cache, order, c), ApplyAll(e.store, OpsOf(tx.writes, order, c)))
  {
    hide LastCommit, ApplyAll, StoreInv;
    var after, s := CacheAfter(cache, order, c), ApplyAll(e.store, OpsOf(tx.writes, order, c));
    CacheAfterMembers(cache, order, c);
    forall k | k in after.entries ensures after.entries[k] == LastCommit(s, k) {
      LastCommitAfter(e, tx.writes, order, c, k);
    }
  }

  lemma WriteAgrees(e: Eng, ts: U64, key: Bytes, stored: Option<Bytes>)
    requires Sorted(e.store) && Agrees(e.cache, e.store) && ts > LastCommit(e.store, key)
    ensures var after := PlainWritten(e, ts, key, stored); Agrees(after.cache, after.store)
  {
    hide LastCommit, Apply, Sorted;
    var after, op := PlainWritten(e, ts, key, stored), PlainOp(key, stored, ts);
    UpdatedMembers(e.cache, key, ts);
    forall k | k in after.cache.entries ensures after.cache.entries[k] == LastCommit(after.store, k) {
      LastCommitAfterOne(e.store, op, k);
    }
  }

  /** One step of a run with a right cache and right reports. */
  lemma StepAgrees(w: World, e: Event)
    requires Inv(w) && Sound(w, e) && InOrder(w, e) && Agrees(w.eng.cache, w.eng.store)
    requires LatestIsRight(w.eng.store) || CachesAll(w.eng.cache, w.eng.store)
    ensures SeesAll(w, e) && Agrees(Step(w, e).eng.cache, Step(w, e).eng.store)
  {
    hide Inv, Agrees, LatestIsRight, CachesAll, Missed, CheckAll, Apply, CacheAfter;
    InvStore(w);
    match e {
      case Commit(i, checked, order) =>
        if CanCommit(w, i, checked, order) {
          var tx := w.txs[i];
          ChecksRight(w.eng.cache, w.eng.store, checked, tx.startTS);
          var check := CheckAll(w.eng.cache, w.eng.store, checked, tx.startTS);
          if !check.0 {
            BatchAgrees(w.eng, tx, order, CommitTSOf(w.eng.lastTS, tx.startTS), check.1);
          }
        }
      case Write(ts, key, stored) =>
        if ts in w.drawn {
          WriteAgrees(w.eng, ts, key, stored);
        }
      case _ =>
    }
  }

  lemma InvStore(w: World)
    requires Inv(w)
    ensures StoreInv(w.eng) && Sorted(w.eng.store) && w.eng.cache.Valid() && w.eng.cache.cap > 0
    ensures forall i :: 0 <= i < |w.txs| ==> 0 < w.txs[i].startTS <= w.eng.lastTS
  {
    forall i | 0 <= i < |w.txs| ensures 0 < w.txs[i].startTS <= w.eng.lastTS {
      assert CommitInv(w.eng, w.txs[i]);
    }
  }

  lemma {:induction false} PutsStayLive(s: seq<Version>, ops: seq<MemOp>)
    requires (forall v :: v in s ==> !v.deleted) && forall op :: op in ops ==> op.Put?
    ensures forall v :: v in ApplyAll(s, ops) ==> !v.deleted
  {
    if ops != [] {
      var init, op := ops[..|ops| - 1], ops[|ops| - 1];
      PutsStayLive(s, init);
      PutStaysLive(ApplyAll(s, init), op);
    }
  }

  lemma PutStaysLive(s: seq<Version>, op: MemOp)
    requires (forall v :: v in s ==> !v.deleted) && op.Put?
    ensures forall v :: v in Apply(s, op) ==> !v.deleted
  {
    if !Has(s, op.key) {
      InsertMembers(s, LowerBound(s, op.key), Version(op.key, op.value, false));
    }
  }

  lemma NothingDeletedStep(w: World, e: Event)
    requires NothingDeleted(w) && w.eng.lastTS < MAX_U64 && NoDelete(e)
    ensures NothingDeleted(Step(w, e))
  {
    hide Apply, ApplyAll, CheckAll, CommitTSOf, Registered, Unregistered;
    match e {
      case Commit(i, checked, order) =>
        if CanCommit(w, i, checked, order) {
          var tx := w.txs[i];
          assert AllPuts(tx.writes);
          PutsStayLive(w.eng.store, OpsOf(tx.writes, order, CommitTSOf(w.eng.lastTS, tx.startTS)));
        }
      case Write(ts, key, stored) =>
        PutStaysLive(w.eng.store, PlainOp(key, stored, ts));
      case _ =>
    }
  }

  lemma {:induction false} DistinctWithin(order: seq<Bytes>, keys: set<Bytes>)
    requires NoDuplicates(order) && forall k :: k in order ==> k in keys
    ensures |order| <= |keys|
  {
    if order != [] {
      DistinctWithin(order[1..], keys - {order[0]});
    }
  }

  /** A key that is not cached finds room when the cache is large enough for all keys. */
  lemma Room(c: Lru, keys: set<Bytes>, key: Bytes)
    requires c.Valid() && c.entries.Keys <= keys && |keys| <= c.cap && key in keys && key !in c.entries
    ensures |c.order| < c.cap
  {
    forall k | k in c.order ensures k in keys - {key} {
      assert k in c.entries;
    }
    DistinctWithin(c.order, keys - {key});
  }

  lemma UpdateWithin(c: Lru, keys: set<Bytes>, key: Bytes, ts: U64)
    requires c.Valid() && c.entries.Keys <= keys && |keys| <= c.cap && key in keys
    ensures var r := c.Updated(key, ts); r.Valid() && r.cap == c.cap && r.entries.Keys == c.entries.Keys + {key}
  {
    assert keys != {};
    if key !in c.entries {
      Room(c, keys, key);
    }
    UpdatedMembers(c, key, ts);
  }

  lemma {:induction false} BatchWithin(c: Lru, keys: set<Bytes>, batch: seq<Bytes>, ts: U64)
    requires c.Valid() && c.entries.Keys <= keys && |keys| <= c.cap && forall k :: k in batch ==> k in keys
    ensures var r := CacheAfter(c, batch, ts);
      r.Valid() && r.cap == c.cap && r.entries.Keys == c.entries.Keys + set k <- batch
  {
    hide Lru.Updated, Lru.Valid;
    if batch != [] {
      var init, key := batch[..|batch| - 1], batch[|batch| - 1];
      MembersSplit(batch, init, key);
      BatchWithin(c, keys, init, ts);
      UpdateWithin(CacheAfter(c, init, ts), keys, key, ts);
    }
  }

  lemma MembersSplit(batch: seq<Bytes>, init: seq<Bytes>, key: Bytes)
    requires batch == init + [key]
    ensures (set k <- batch) == (set k <- init) + {key} && forall k :: k in init ==> k in batch
  {
  }

  lemma CommitWithin(e: Eng, tx: Tx, checked: seq<Bytes>, order: seq<Bytes>, c: U64, keys: set<Bytes>)
    requires StoreInv(e) && Agrees(e.cache, e.store) && CachesAll(e.cache, e.store) && Orders(order, tx.writes)
    requires |keys| <= e.cache.cap && e.cache.entries.Keys <= keys && tx.writes.Keys <= keys
    ensures var check := CheckAll(e.cache, e.store, checked, tx.startTS);
      && check.1.cap == e.cache.cap && check.1.entries == e.cache.entries
      && CacheAfter(check.1, order, c).cap == e.cache.cap
      && CachesAll(CacheAfter(check.1, order, c), ApplyAll(e.store, OpsOf(tx.writes, order, c)))
      && CacheAfter(check.1, order, c).entries.Keys <= keys
  {
    hide ApplyAll, CheckAll, CacheAfter, Agrees, LastCommit;
    var check, ops := CheckAll(e.cache, e.store, checked, tx.startTS), OpsOf(tx.writes, order, c);
    ChecksRight(e.cache, e.store, checked, tx.startTS);
    AgreesIsNotAhead(check.1, e.store);
    NotAheadIsValid(check.1, e.store);
    BatchWithin(check.1, keys, order, c);
    OpsOfKeys(tx.writes, order, c);
    ApplyAllKeys(e.store, ops);
  }

  lemma EveryKeyCachedStep(w: World, e: Event, keys: set<Bytes>)
    requires Inv(w) && Agrees(w.eng.cache, w.eng.store) && EveryKeyCached(w, keys) && w.eng.lastTS < MAX_U64
    requires Among(e, keys)
    ensures EveryKeyCached(Step(w, e), keys)
  {
    hide Apply, ApplyAll, CheckAll, CommitTSOf, Registered, Unregistered, CacheAfter, Agrees, Sorted, Inv, LastCommit,
      OpsOf;
    InvStore(w);
    match e {
      case Commit(i, checked, order) =>
        if CanCommit(w, i, checked, order) {
          assert w.txs[i] in w.txs;
          hide CachesAll;
          CommitWithin(w.eng, w.txs[i], checked, order, CommitTSOf(w.eng.lastTS, w.txs[i].startTS), keys);
        }
      case Write(ts, key, stored) =>
        UpdateWithin(w.eng.cache, keys, key, ts);
        ApplyKeys(w.eng.store, PlainOp(key, stored, ts));
      case _ =>
    }
  }

  lemma {:induction false} NoDeleteRun(w: World, es: seq<Event>)
    requires Inv(w) && SoundRun(w, es) && InOrderRun(w, es) && Agrees(w.eng.cache, w.eng.store)
    requires NothingDeleted(w) && forall e :: e in es ==> NoDelete(e)
    ensures SeesAllRun(w, es)
    decreases |es|
  {
    hide Inv, Agrees, SeesAll, InOrder, Step;
    if es != [] {
      NothingDeletedIsRight(w.eng.store);
      StepAgrees(w, es[0]);
      StepKeepsInv(w, es[0]);
      NothingDeletedStep(w, es[0]);
      NoDeleteRun(Step(w, es[0]), es[1..]);
    }
  }

  lemma {:induction false} FewKeysRun(w: World, es: seq<Event>, keys: set<Bytes>)
    requires Inv(w) && SoundRun(w, es) && InOrderRun(w, es) && Agrees(w.eng.cache, w.eng.store)
    requires EveryKeyCached(w, keys) && forall e :: e in es ==> Among(e, keys)
    ensures SeesAllRun(w, es)
    decreases |es|
  {
    hide Inv, Agrees, SeesAll, InOrder, Step, CachesAll;
    if es != [] {
      StepAgrees(w, es[0]);
      StepKeepsInv(w, es[0]);
      EveryKeyCachedStep(w, es[0], keys);
      FewKeysRun(Step(w, es[0]), es[1..], keys);
    }
  }

  /** Checks are never stale in a run whose plain writes to a key land in the order of their
      timestamps, as long as nothing was or is deleted, or nothing was recovered and the cache has
      room for every key. */
  lemma ChecksNeverStale(cap: nat, lastTS: U64, store: seq<Version>, es: seq<Event>, keys: set<Bytes>)
    requires cap > 0 && Resumable(lastTS, store)
    requires SoundRun(Restarted(cap, lastTS, store), es) && InOrderRun(Restarted(cap, lastTS, store), es)
    requires
      || ((forall v :: v in store ==> !v.deleted) && forall e :: e in es ==> NoDelete(e))
      || (store == [] && |keys| <= cap && forall e :: e in es ==> Among(e, keys))
    ensures SeesAllRun(Restarted(cap, lastTS, store), es)
  {
    hide Inv, Step;
    RestartInv(cap, lastTS, store);
    if (forall v :: v in store ==> !v.deleted) && forall e :: e in es ==> NoDelete(e) {
      NoDeleteRun(Restarted(cap, lastTS, store), es);
    } else {
      FewKeysRun(Restarted(cap, lastTS, store), es, keys);
    }
  }

  // ------------------------------------------------------------------ stable reads

  /** A write that a snapshot does not see leaves what it finds. */
  lemma ApplyKeepsVisible(s: seq<Version>, op: MemOp, key: Bytes, snapshot: U64)
    requires Sorted(s) && key != [] && !TakesOver(s, op.key, key, snapshot)
    ensures LastVisible(Apply(s, op), key, snapshot) == LastVisible(s, key, snapshot)
  {
    hide LastVisible, Sorted, TakesOver;
    var k := op.key;
    if HasExact(s, k) {
      if op.Delete? {
        LastVisibleAfterMark(s, k, key, snapshot);
      }
    } else if op.Delete? {
      LastVisibleAfterInsert(s, Tombstone(k), key, snapshot);
    } else if !Has(s, k) {
      LastVisibleAfterInsert(s, Version(k, op.value, false), key, snapshot);
    }
  }

  lemma {:induction false} ApplyAllKeepsVisible(s: seq<Version>, ops: seq<MemOp>, key: Bytes, snapshot: U64)
    requires Sorted(s) && key != [] && forall op :: op in ops ==> op.key.CommitTS() > snapshot
    ensures LastVisible(ApplyAll(s, ops), key, snapshot) == LastVisible(s, key, snapshot)
  {
    hide LastVisible, Sorted, Apply;
    if ops != [] {
      var init := ops[..|ops| - 1];
      ApplyAllKeepsVisible(s, init, key, snapshot);
      ApplyAllKeys(s, init);
      ApplyKeepsVisible(ApplyAll(s, init), ops[|ops| - 1], key, snapshot);
    }
  }

  /** No plain write is on its way that the snapshot would see in place of what it finds now. */
  ghost predicate Settled(w: World, key: Bytes, snapshot: U64) {
    key == [] || forall t :: t in w.drawn ==> !TakesOver(w.eng.store, NewMVCCKey(key, t), key, snapshot)
  }

  lemma SettledStays(w: World, after: World, key: Bytes, snapshot: U64)
    requires Settled(w, key, snapshot) && forall t :: t in after.drawn ==> t in w.drawn || t > snapshot
    requires LastVisible(after.eng.store, key, snapshot) == LastVisible(w.eng.store, key, snapshot)
    ensures Settled(after, key, snapshot)
  {
    forall t | t in after.drawn && key != [] ensures !TakesOver(after.eng.store, NewMVCCKey(key, t), key, snapshot) {
      assert t in w.drawn ==> !TakesOver(w.eng.store, NewMVCCKey(key, t), key, snapshot);
    }
  }

  lemma StepKeepsReads(w: World, e: Event, key: Bytes, snapshot: U64)
    requires Inv(w) && Sound(w, e) && snapshot <= w.eng.lastTS && Settled(w, key, snapshot) && key != []
    ensures LastVisible(Step(w, e).eng.store, key, snapshot) == LastVisible(w.eng.store, key, snapshot)
    ensures snapshot <= Step(w, e).eng.lastTS && Settled(Step(w, e), key, snapshot)
  {
    hide LastVisible, Inv, TakesOver, Apply, ApplyAll, CheckAll, Settled;
    InvStore(w);
    match e {
      case Commit(i, checked, order) =>
        if CanCommit(w, i, checked, order) {
          var tx := w.txs[i];
          var c := CommitTSOf(w.eng.lastTS, tx.startTS);
          OpsOfKeys(tx.writes, order, c);
          ApplyAllKeepsVisible(w.eng.store, OpsOf(tx.writes, order, c), key, snapshot);
        }
      case Write(ts, k, stored) =>
        if ts in w.drawn {
          NotTaken(w, ts, k, key, snapshot);
          ApplyKeepsVisible(w.eng.store, PlainOp(k, stored, ts), key, snapshot);
        }
      case _ =>
    }
    SettledStays(w, Step(w, e), key, snapshot);
  }

  lemma NotTaken(w: World, ts: U64, k: Bytes, key: Bytes, snapshot: U64)
    requires Settled(w, key, snapshot) && key != [] && ts in w.drawn
    ensures !TakesOver(w.eng.store, NewMVCCKey(k, ts), key, snapshot)
  {
  }

  /** Stable reads: whatever runs after a settled snapshot was taken, it reads the same. */
  lemma {:induction false} ReadsNeverChange(w: World, es: seq<Event>, key: Bytes, snapshot: U64)
    requires Inv(w) && SoundRun(w, es) && snapshot <= w.eng.lastTS && Settled(w, key, snapshot)
    ensures SnapshotRead(Run(w, es).eng.store, key, snapshot) == SnapshotRead(w.eng.store, key, snapshot)
    decreases |es|
  {
    hide Inv, Settled, Step, LastVisible;
    if es != [] && key != [] {
      StepKeepsInv(w, es[0]);
      StepKeepsReads(w, es[0], key, snapshot);
      ReadsNeverChange(Step(w, es[0]), es[1..], key, snapshot);
    }
  }

  /** A plain write at a timestamp drawn before is read by every snapshot it takes over. */
  lemma LateWriteIsRead(w: World, ts: U64, key: Bytes, stored: Bytes, snapshot: U64)
    requires Inv(w) && w.eng.lastTS < MAX_U64 && ts in w.drawn && key != []
    requires TakesOver(w.eng.store, NewMVCCKey(key, ts), key, snapshot)
    ensures SnapshotRead(Step(w, Write(ts, key, Some(stored))).eng.store, key, snapshot) == Some(Some(stored))
  {
    hide SnapshotRead, TakesOver, Has, KeysOf, RegistryInv, Sorted, NotAhead;
    var s, k := w.eng.store, NewMVCCKey(key, ts);
    StoreIsSorted(w.eng);
    HasMeansMember(s, k);
    ReadAfterPut(s, k, Some(stored), key, snapshot);
  }

  ghost predicate Stable(w: World, key: Bytes, snapshot: U64) {
    forall es :: SoundRun(w, es) ==>
      SnapshotRead(Run(w, es).eng.store, key, snapshot) == SnapshotRead(w.eng.store, key, snapshot)
  }

  /** The exact condition for a snapshot that was handed out: it reads the same for ever exactly
      when no plain write drew its timestamp before it, lands after it and finds nothing newer. */
  lemma StableIffSettled(w: World, key: Bytes, snapshot: U64)
    requires Inv(w) && snapshot <= w.eng.lastTS < MAX_U64
    ensures Stable(w, key, snapshot) <==> Settled(w, key, snapshot)
  {
    hide SnapshotRead, Inv, TakesOver, Step;
    if Settled(w, key, snapshot) {
      forall es | SoundRun(w, es)
        ensures SnapshotRead(Run(w, es).eng.store, key, snapshot) == SnapshotRead(w.eng.store, key, snapshot)
      {
        ReadsNeverChange(w, es, key, snapshot);
      }
    } else {
      var t :| t in w.drawn && TakesOver(w.eng.store, NewMVCCKey(key, t), key, snapshot);
      var stored: Bytes := if SnapshotRead(w.eng.store, key, snapshot) == Some(Some([0])) then [1] else [0];
      LateWriteIsRead(w, t, key, stored, snapshot);
      OneEvent(w, Write(t, key, Some(stored)));
    }
  }

  lemma OneEvent(w: World, e: Event)
    requires Sound(w, e)
    ensures SoundRun(w, [e]) && Run(w, [e]) == Step(w, e)
  {
    assert [e][1..] == [];
    assert SoundRun(Step(w, e), [e][1..]);
  }

  /** A snapshot past the last timestamp is changed by the next plain put. */
  lemma FutureSnapshotMoves(w: World, key: Bytes, stored: Bytes, snapshot: U64)
    requires Inv(w) && w.eng.lastTS + 1 < MAX_U64 && w.eng.lastTS < snapshot && key != []
    ensures var ts := w.eng.lastTS + 1;
      SnapshotRead(Step(Step(w, Draw), Write(ts, key, Some(stored))).eng.store, key, snapshot) == Some(Some(stored))
  {
    hide SnapshotRead, TakesOver, Has, KeysOf, RegistryInv, CommitInv, Sorted, NotAhead;
    StepKeepsInv(w, Draw);
    StoreIsSorted(w.eng);
    NewKeyIsFresh(w.eng, NewMVCCKey(key, w.eng.lastTS + 1), key, snapshot);
    LateWriteIsRead(Step(w, Draw), w.eng.lastTS + 1, key, stored, snapshot);
  }

  lemma {:induction false} RunKeepsStart(w: World, es: seq<Event>, i: nat)
    requires SoundRun(w, es) && i < |w.txs|
    ensures i < |Run(w, es).txs| && Run(w, es).txs[i].startTS == w.txs[i].startTS
    decreases |es|
  {
    if es != [] {
      assert i < |Step(w, es[0]).txs| && Step(w, es[0]).txs[i].startTS == w.txs[i].startTS by {
        StepKeepsStart(w, es[0], i);
      }
      RunKeepsStart(Step(w, es[0]), es[1..], i);
    }
  }

  lemma StepKeepsStart(w: World, e: Event, i: nat)
    requires w.eng.lastTS < MAX_U64 && i < |w.txs|
    ensures i < |Step(w, e).txs| && Step(w, e).txs[i].startTS == w.txs[i].startTS
  {
    hide Unregistered, CheckAll, ApplyAll, Apply, CommitTSOf, CacheAfter;
  }

  /** Snapshot isolation for reads: at any two moments of a run at which a transaction has not
      written a key, it reads the same value for it, whatever others committed in between, if no
      plain write from before its start was still on its way. */
  lemma TransactionReadsAreStable(w: World, es: seq<Event>, i: nat, key: Bytes, resolve: Bytes -> Option<Bytes>)
    requires Inv(w) && SoundRun(w, es) && i < |w.txs| && Settled(w, key, w.txs[i].startTS)
    ensures i < |Run(w, es).txs|
    ensures key !in w.txs[i].writes && key !in Run(w, es).txs[i].writes ==>
      TxGet(Run(w, es).eng.store, Run(w, es).txs[i], key, resolve) == TxGet(w.eng.store, w.txs[i], key, resolve)
  {
    RunKeepsStart(w, es, i);
    assert CommitInv(w.eng, w.txs[i]);
    ReadsNeverChange(w, es, key, w.txs[i].startTS);
  }

  /** Begin falls between the two halves of a plain put: the new transaction first finds nothing
      and then, without any other step, the value. */
  lemma BeginBetween()
    ensures var key, stored: Bytes := [7], [0, 1]; var es := [Draw, Begin];
      && SoundRun(Start(1), es) && Run(Start(1), es).txs == [Tx(3, map[], false, None)]
      && SnapshotRead(Run(Start(1), es).eng.store, key, 3) == None
      && Sound(Run(Start(1), es), Write(2, key, Some(stored)))
      && SnapshotRead(Step(Run(Start(1), es), Write(2, key, Some(stored))).eng.store, key, 3) == Some(Some(stored))
  {
    hide Inv, Registered;
    var es := [Draw, Begin];
    var w1 := Step(Start(1), Draw);
    var w2 := Step(w1, Begin);
    assert es[1..] == [Begin] && es[0] == Draw;
    OneEvent(w1, Begin);
    assert SoundRun(Start(1), es) && Run(Start(1), es) == w2;
    StartInv(1);
    StepKeepsInv(Start(1), Draw);
    StepKeepsInv(w1, Begin);
    LateWriteIsRead(w2, 2, [7], [0, 1], 3);
  }
}
