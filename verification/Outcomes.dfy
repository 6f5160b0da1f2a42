/** What a transaction observes: the outcome of its commit, its own writes, and the commits before
    it. And where everything in the store comes from. */
module Outcomes {
  import opened Base
  import opened Cache
  import opened Conflict
  import opened Isolation
  import opened Mvcc
  import opened Recovery
  import opened Snapshots
  import opened Txn
  import opened Values
  import opened Versions

  // ------------------------------------------------------------------ the outcome of a commit

  /** A put value that a later read returns as it is. */
  predicate Readable(value: Bytes, resolve: Bytes -> Option<Bytes>) {
    |value| != VALUE_POINTER_SIZE || NoPointer(value) || resolve(value) == Some(value)
  }

  /** At c every buffered write reads back: a put that is readable with its value, and a delete as
      absent. */
  ghost predicate AllRead(s: seq<Version>, writes: map<Bytes, PendingOp>, c: U64, resolve: Bytes -> Option<Bytes>) {
    forall k :: k in writes && k != [] ==>
      match writes[k]
      case PutOp(value) => EngineGet(s, k, c, resolve) == Some(value) <==> Readable(value, resolve)
      case DeleteOp => EngineGet(s, k, c, resolve) == None
  }

  /** Every other key reads at c as it did before. */
  ghost predicate OthersRead(s: seq<Version>, after: seq<Version>, writes: map<Bytes, PendingOp>, c: U64) {
    forall k :: k !in writes ==> SnapshotRead(after, k, c) == SnapshotRead(s, k, c)
  }

  lemma BatchReads(e: Eng, writes: map<Bytes, PendingOp>, order: seq<Bytes>, c: U64, resolve: Bytes -> Option<Bytes>)
    requires StoreInv(e) && e.lastTS < c && Orders(order, writes)
    ensures var after := ApplyAll(e.store, OpsOf(writes, order, c));
      AllRead(after, writes, c, resolve) && OthersRead(e.store, after, writes, c)
  {
    hide StoreInv, EngineGet, SnapshotRead, ApplyAll, Readable, NoPointer;
    var after := ApplyAll(e.store, OpsOf(writes, order, c));
    forall k | k in writes && k != []
      ensures match writes[k]
        case PutOp(value) => EngineGet(after, k, c, resolve) == Some(value) <==> Readable(value, resolve)
        case DeleteOp => EngineGet(after, k, c, resolve) == None
    {
      if writes[k].PutOp? {
        CommittedPutReads(e, writes, order, c, k, c, resolve);
        ReadableMeans(writes[k].value, resolve);
      } else {
        CommittedDeleteReads(e, writes, order, c, k, c, resolve);
      }
    }
    forall k | k !in writes ensures SnapshotRead(after, k, c) == SnapshotRead(e.store, k, c) {
      OtherReads(e, writes, order, c, k);
    }
  }

  lemma ReadableMeans(value: Bytes, resolve: Bytes -> Option<Bytes>)
    ensures Readable(value, resolve)
      <==> |value| != VALUE_POINTER_SIZE || NoPointer(value) || resolve(value) == Some(value)
  {
  }

  lemma OtherReads(e: Eng, writes: map<Bytes, PendingOp>, order: seq<Bytes>, c: U64, k: Bytes)
    requires StoreInv(e) && e.lastTS < c && Orders(order, writes) && k !in writes
    ensures SnapshotRead(ApplyAll(e.store, OpsOf(writes, order, c)), k, c) == SnapshotRead(e.store, k, c)
  {
    hide StoreInv, ApplyAll;
    if k != [] {
      hide SnapshotRead;
      var ops := OpsOf(writes, order, c);
      assert ops[..|order|] == ops && order[..|order|] == order;
      CommitIsVisible(e, writes, order, |order|, c, k, c);
    }
  }

  /** What a caller of commit is told, and what then holds.
      It is told that the transaction was closed exactly when it was; nothing happens.
      It is told of a conflict exactly when a buffered key was reported above the start; then that
      is a real conflict, and nothing was written.
      It is told of success exactly when the buffer is empty, or the transaction has got a commit
      timestamp, newer than its start and than everything stored, at which every one of its writes
      reads back and every other key reads as before. */
  lemma CommitOutcome(e: Eng, tx: Tx, checked: seq<Bytes>, order: seq<Bytes>, resolve: Bytes -> Option<Bytes>)
    requires StoreInv(e) && NotAhead(e.cache, e.store) && e.lastTS < MAX_U64 && tx.startTS < MAX_U64
    requires Orders(checked, tx.writes) && Orders(order, tx.writes) && (tx.committed.Some? ==> tx.closed)
    ensures var (after, done, outcome) := CommitOf(e, tx, checked, order);
      && (outcome == Closed <==> tx.closed)
      && (outcome == Closed ==> after == e && done == tx)
      && (outcome == Outcome.Conflict <==> !tx.closed && SomeReportedAbove(e.cache, e.store, checked, tx.startTS))
      && (outcome == Outcome.Conflict ==>
            && Conflicts(e.store, tx) && after.store == e.store && after.lastTS == e.lastTS
            && done == tx.(closed := true))
      && (outcome == Committed <==>
          !tx.closed && (tx.writes == map[] || (done.committed.Some? && WroteAll(e, tx, after, done, resolve))))
      && (outcome == Committed && tx.writes == map[] ==>
            after.store == e.store && after.lastTS == e.lastTS && done == tx.(closed := true))
  {
    hide StoreInv, NotAhead, CheckAll, Conflicts, Conflicting, SomeReportedAbove, ApplyAll, CacheAfter, Unregistered,
      Missed;
    NotAheadIsValid(e.cache, e.store);
    CheckAllReports(e.cache, e.store, checked, tx.startTS);
    StoreIsSorted(e);
    CheckAllIff(e.cache, e.store, checked, tx.startTS);
    ConflictsInOrder(e.store, tx, checked);
    if tx.writes == map[] {
      ReportedIsBuffered(e.cache, e.store, checked, tx.startTS);
    } else if !tx.closed {
      var c := CommitTSOf(e.lastTS, tx.startTS);
      BatchReads(e, tx.writes, order, c, resolve);
    }
  }

  /** The transaction wrote its buffer at its commit timestamp. */
  ghost predicate WroteAll(e: Eng, tx: Tx, after: Eng, done: Tx, resolve: Bytes -> Option<Bytes>)
    requires done.committed.Some?
  {
    var c := done.committed.value;
    && tx.startTS < c && e.lastTS < c && done == tx.(closed := true, committed := Some(c))
    && AllRead(after.store, tx.writes, c, resolve) && OthersRead(e.store, after.store, tx.writes, c)
  }

  lemma ReportedIsBuffered(c: Lru, s: seq<Version>, keys: seq<Bytes>, startTS: U64)
    ensures SomeReportedAbove(c, s, keys, startTS) ==> exists k :: k in keys
  {
    if n :| 0 <= n < |keys| && ReportedAboveAt(c, s, keys, startTS, n) {
      assert keys[n] in keys;
    }
  }

  // ------------------------------------------------------------------ own writes

  /** The event leaves transaction i open and its write to the key as it is. */
  predicate Leaves(e: Event, i: nat, key: Bytes) {
    match e
    case Buffer(j, k, _) => j != i || k != key
    case Commit(j, _, _) => j != i
    case Rollback(j) => j != i
    case _ => true
  }

  lemma StepLeaves(w: World, e: Event, i: nat, key: Bytes)
    requires w.eng.lastTS < MAX_U64 && i < |w.txs| && !w.txs[i].closed && key in w.txs[i].writes && Leaves(e, i, key)
    ensures var after := Step(w, e);
      && i < |after.txs| && !after.txs[i].closed && after.txs[i].startTS == w.txs[i].startTS
      && key in after.txs[i].writes && after.txs[i].writes[key] == w.txs[i].writes[key]
  {
    hide CommitOf, Orders, Registered, Unregistered;
  }

  lemma {:induction false} RunLeaves(w: World, es: seq<Event>, i: nat, key: Bytes)
    requires SoundRun(w, es) && (forall e :: e in es ==> Leaves(e, i, key))
    requires i < |w.txs| && !w.txs[i].closed && key in w.txs[i].writes
    ensures var after := Run(w, es);
      && i < |after.txs| && !after.txs[i].closed
      && key in after.txs[i].writes && after.txs[i].writes[key] == w.txs[i].writes[key]
    decreases |es|
  {
    hide Step, Leaves;
    if es != [] {
      StepLeaves(w, es[0], i, key);
      RunLeaves(Step(w, es[0]), es[1..], i, key);
    }
  }

  /** A transaction reads its own writes: what it last put under a key, and a key that it deleted as
      absent, whatever other transactions and plain writes do in between. */
  lemma ReadsOwnWrite(w: World, i: nat, key: Bytes, op: PendingOp, es: seq<Event>, resolve: Bytes -> Option<Bytes>)
    requires Sound(w, Buffer(i, key, op)) && i < |w.txs| && !w.txs[i].closed
    requires SoundRun(Step(w, Buffer(i, key, op)), es) && forall e :: e in es ==> Leaves(e, i, key)
    ensures var after := Run(Step(w, Buffer(i, key, op)), es);
      && i < |after.txs| && !after.txs[i].closed
      && TxGet(after.eng.store, after.txs[i], key, resolve) == if op.PutOp? then Some(op.value) else None
  {
    RunLeaves(Step(w, Buffer(i, key, op)), es, i, key);
  }

  /** A transaction that begins after a commit reads what it wrote: a readable put with its value,
      and a delete as absent. */
  lemma ReadsEarlierCommit(w: World, i: nat, checked: seq<Bytes>, order: seq<Bytes>, key: Bytes,
                           resolve: Bytes -> Option<Bytes>)
    requires Inv(w) && w.eng.lastTS < MAX_U64 - 1 && CanCommit(w, i, checked, order)
    requires key != [] && key in w.txs[i].writes
    requires CommitOf(w.eng, w.txs[i], checked, order).2 == Committed
    ensures var next := Step(Step(w, Commit(i, checked, order)), Begin);
      var got := TxGet(next.eng.store, next.txs[|w.txs|], key, resolve);
      match w.txs[i].writes[key]
      case PutOp(value) => got == Some(value) <==> Readable(value, resolve)
      case DeleteOp => got == None
  {
    hide StoreInv, NotAhead, CheckAll, ApplyAll, CacheAfter, Registered, Unregistered, RegistryInv, DrawnInv, EngineGet,
      Orders, NoPointer;
    var tx := w.txs[i];
    assert CommitInv(w.eng, tx);
    var c := CommitTSOf(w.eng.lastTS, tx.startTS);
    if tx.writes[key].PutOp? {
      CommittedPutReads(w.eng, tx.writes, order, c, key, c + 1, resolve);
    } else {
      CommittedDeleteReads(w.eng, tx.writes, order, c, key, c + 1, resolve);
    }
  }

  /** A plain write reads back for every snapshot that it takes over: a value as it is, whatever its
      length, and a delete as absent. */
  lemma PlainWriteReads(w: World, ts: U64, key: Bytes, value: Option<Bytes>, snapshot: U64,
                        resolve: Bytes -> Option<Bytes>)
    requires Inv(w) && w.eng.lastTS < MAX_U64 && ts in w.drawn && key != []
    requires TakesOver(w.eng.store, NewMVCCKey(key, ts), key, snapshot)
    ensures var stored := if value.Some? then Some(TagInline(value.value)) else None;
      EngineGet(Step(w, Write(ts, key, stored)).eng.store, key, snapshot, resolve) == value
  {
    hide SnapshotRead, LastVisible, Has, KeysOf, RegistryInv, Sorted, NotAhead, Apply;
    var stored := if value.Some? then Some(TagInline(value.value)) else None;
    StoreIsSorted(w.eng);
    HasMeansMember(w.eng.store, NewMVCCKey(key, ts));
    VisibleStep(w.eng.store, PlainOp(key, stored, ts), key, snapshot);
    if value.Some? {
      assert TagInline(value.value)[1..] == value.value;
    }
  }

  // ------------------------------------------------------------------ where the store comes from

  /** A version that a transaction committed: of a buffered key, at its commit timestamp, and as its
      write says. */
  ghost predicate FromTx(v: Version, txs: seq<Tx>) {
    exists i :: 0 <= i < |txs| && FromOne(v, txs[i])
  }

  predicate FromOne(v: Version, tx: Tx) {
    && tx.committed.Some? && v.key.key in tx.writes && v.key.CommitTS() == tx.committed.value
    && match tx.writes[v.key.key]
       case PutOp(value) => !v.deleted && v.value == Some(TagStoredValue(Some(value)))
       case DeleteOp => v.deleted
  }

  /** A version that one of the events wrote plainly, at the timestamp it gives. */
  ghost predicate FromPlain(v: Version, es: seq<Event>) {
    exists e :: e in es && e.Write? && e.key == v.key.key && e.ts == v.key.CommitTS()
      && if e.stored.Some? then !v.deleted && v.value == e.stored else v.deleted
  }

  /** Every write of every committed transaction is stored, at its commit timestamp and as it says. */
  ghost predicate AllStored(txs: seq<Tx>, s: seq<Version>) {
    forall i, k :: 0 <= i < |txs| && txs[i].committed.Some? && k in txs[i].writes ==> IsStored(k, txs[i], s)
  }

  ghost predicate IsStored(k: Bytes, tx: Tx, s: seq<Version>) {
    exists v :: v in s && v.key.key == k && FromOne(v, tx)
  }

  function NewOf(op: MemOp): Version {
    match op
    case Put(k, value) => Version(k, value, false)
    case Delete(k) => Tombstone(k)
  }

  /** An operation at a key that is not stored adds one version and changes none. */
  lemma FreshOp(s: seq<Version>, op: MemOp)
    requires Sorted(s) && op.key !in KeysOf(s)
    ensures forall v :: v in Apply(s, op) <==> v in s || v == NewOf(op)
  {
    HasMeansMember(s, op.key);
    InsertMembers(s, LowerBound(s, op.key), NewOf(op));
  }

  lemma {:induction false} FreshOps(s: seq<Version>, ops: seq<MemOp>)
    requires Sorted(s) && forall i :: 0 <= i < |ops| ==> ops[i].key !in KeysOf(s)
    requires forall i, j :: 0 <= i < j < |ops| ==> ops[i].key != ops[j].key
    ensures forall v :: v in ApplyAll(s, ops) <==> v in s || exists i :: 0 <= i < |ops| && v == NewOf(ops[i])
  {
    hide Apply, NewOf, Sorted, KeysOf;
    if ops != [] {
      var n := |ops| - 1;
      FreshOps(s, ops[..n]);
      ApplyAllKeys(s, ops[..n]);
      assert ops[n].key !in OpKeys(ops[..n]);
      FreshOp(ApplyAll(s, ops[..n]), ops[n]);
    }
  }

  lemma BatchVersions(e: Eng, tx: Tx, order: seq<Bytes>, c: U64)
    requires StoreInv(e) && e.lastTS < c && Orders(order, tx.writes) && tx.committed == Some(c)
    ensures var after := ApplyAll(e.store, OpsOf(tx.writes, order, c));
      && (forall v :: v in e.store ==> v in after)
      && (forall v :: v in after ==> v in e.store || FromOne(v, tx))
      && (forall k :: k in tx.writes ==> IsStored(k, tx, after))
  {
    hide ApplyAll, FromOne;
    var ops := OpsOf(tx.writes, order, c);
    FreshOps(e.store, ops);
    forall i | 0 <= i < |ops| ensures FromOne(NewOf(ops[i]), tx) {
      NewFromOne(order[i], tx, c);
    }
    forall k | k in tx.writes ensures IsStored(k, tx, ApplyAll(e.store, ops)) {
      var i :| 0 <= i < |order| && order[i] == k;
      assert NewOf(ops[i]).key.key == k;
    }
  }

  lemma NewFromOne(key: Bytes, tx: Tx, c: U64)
    requires key in tx.writes && tx.committed == Some(c)
    ensures FromOne(NewOf(OpOf(key, tx.writes[key], c)), tx)
  {
    hide TagStoredValue;
  }

  /** A closed transaction is left alone, and only a commit makes a committed one. */
  lemma ClosedStay(w: World, e: Event)
    requires w.eng.lastTS < MAX_U64
    ensures |w.txs| <= |Step(w, e).txs|
    ensures forall i :: 0 <= i < |w.txs| && w.txs[i].closed ==> Step(w, e).txs[i] == w.txs[i]
    ensures forall i :: 0 <= i < |Step(w, e).txs| && Step(w, e).txs[i].committed.Some? ==>
      || (i < |w.txs| && w.txs[i].committed.Some?)
      || (e.Commit? && CanCommit(w, e.i, e.checked, e.order) && i == e.i)
  {
    hide CommitOf, Orders, Registered, Unregistered;
  }

  lemma StaysFrom(v: Version, txs: seq<Tx>, after: seq<Tx>)
    requires forall i :: 0 <= i < |txs| && txs[i].committed.Some? ==> i < |after| && after[i] == txs[i]
    ensures FromTx(v, txs) ==> FromTx(v, after)
  {
    hide FromOne;
    if i :| 0 <= i < |txs| && FromOne(v, txs[i]) {
      FromCommitted(v, txs[i]);
      assert FromOne(v, after[i]);
    }
  }

  lemma FromCommitted(v: Version, tx: Tx)
    requires FromOne(v, tx)
    ensures tx.committed.Some?
  {
  }

  lemma StillStored(k: Bytes, tx: Tx, s: seq<Version>, after: seq<Version>)
    requires IsStored(k, tx, s) && forall v :: v in s ==> v in after
    ensures IsStored(k, tx, after)
  {
    hide FromOne;
  }

  /** What one step adds to the store, and that it changes nothing there. */
  ghost predicate Adds(w: World, e: Event, after: World) {
    && (forall v :: v in w.eng.store ==> v in after.eng.store)
    && (forall v :: v in after.eng.store ==> v in w.eng.store || FromPlain(v, [e]) || FromTx(v, after.txs))
  }

  lemma StepAdds(w: World, e: Event)
    requires Inv(w) && Sound(w, e)
    ensures Adds(w, e, Step(w, e))
    ensures AllStored(w.txs, w.eng.store) ==> AllStored(Step(w, e).txs, Step(w, e).eng.store)
  {
    hide StoreInv, RegistryInv, NotAhead, Apply, ApplyAll, CheckAll, FromOne, IsStored, KeysOf, NewOf, Registered,
      Unregistered, CacheAfter, CommitTSOf;
    var after := Step(w, e);
    InvStore(w);
    ClosedStay(w, e);
    match e {
      case Commit(i, checked, order) =>
        if CanCommit(w, i, checked, order) {
          CommitAdds(w, i, checked, order);
        }
      case Write(ts, key, stored) =>
        if ts in w.drawn {
          PlainAdds(w, ts, key, stored);
        }
      case _ =>
    }
    forall i, k | 0 <= i < |after.txs| && after.txs[i].committed.Some? && k in after.txs[i].writes
        && AllStored(w.txs, w.eng.store)
      ensures IsStored(k, after.txs[i], after.eng.store)
    {
      if i < |w.txs| && w.txs[i].committed.Some? {
        assert CommitInv(w.eng, w.txs[i]);
        StillStored(k, w.txs[i], w.eng.store, after.eng.store);
      }
    }
  }

  lemma CommitAdds(w: World, i: nat, checked: seq<Bytes>, order: seq<Bytes>)
    requires Inv(w) && w.eng.lastTS < MAX_U64 && CanCommit(w, i, checked, order)
    ensures var after := Step(w, Commit(i, checked, order));
      && Adds(w, Commit(i, checked, order), after)
      && (!w.txs[i].committed.Some? && after.txs[i].committed.Some? ==>
            forall k :: k in after.txs[i].writes ==> IsStored(k, after.txs[i], after.eng.store))
  {
    hide StoreInv, RegistryInv, NotAhead, Apply, ApplyAll, CheckAll, FromOne, IsStored, Orders, Unregistered,
      CacheAfter;
    var r := CommitOf(w.eng, w.txs[i], checked, order);
    if r.1.committed.Some? && !w.txs[i].committed.Some? {
      BatchVersions(w.eng, r.1, order, r.1.committed.value);
      assert Step(w, Commit(i, checked, order)).txs[i] == r.1;
    } else {
      assert CommitInv(w.eng, w.txs[i]);
    }
  }

  lemma PlainAdds(w: World, ts: U64, key: Bytes, stored: Option<Bytes>)
    requires Inv(w) && w.eng.lastTS < MAX_U64 && ts in w.drawn
    ensures Adds(w, Write(ts, key, stored), Step(w, Write(ts, key, stored)))
  {
    hide StoreInv, RegistryInv, NotAhead, Apply;
    var e := Write(ts, key, stored);
    InvStore(w);
    FreshOp(w.eng.store, PlainOp(key, stored, ts));
    assert e in [e];
  }

  lemma MoreEvents(v: Version, e: Event, es: seq<Event>)
    requires es != [] && es[0] == e
    ensures FromPlain(v, [e]) || FromPlain(v, es[1..]) ==> FromPlain(v, es)
  {
  }

  /** Where the store comes from, in every run: no stored version is ever changed or dropped, every
      new one is what a plain write gave or what a committed transaction had in its buffer, and all
      writes of all committed transactions are there. So what was rolled back, refused or is still
      buffered is nowhere. */
  lemma {:induction false} StoreIsExplained(w: World, es: seq<Event>)
    requires Inv(w) && SoundRun(w, es)
    ensures var after := Run(w, es);
      && (forall v :: v in w.eng.store ==> v in after.eng.store)
      && (forall v :: v in after.eng.store ==> v in w.eng.store || FromPlain(v, es) || FromTx(v, after.txs))
      && (forall v :: FromTx(v, w.txs) ==> FromTx(v, after.txs))
      && (AllStored(w.txs, w.eng.store) ==> AllStored(after.txs, after.eng.store))
    decreases |es|
  {
    hide Inv, Step, FromPlain, FromTx, AllStored;
    if es != [] {
      var next := Step(w, es[0]);
      StepKeepsInv(w, es[0]);
      StepAdds(w, es[0]);
      StoreIsExplained(next, es[1..]);
      forall v ensures FromTx(v, w.txs) ==> FromTx(v, next.txs) {
        StepStaysFrom(w, es[0], v);
      }
      forall v ensures FromPlain(v, [es[0]]) || FromPlain(v, es[1..]) ==> FromPlain(v, es) {
        MoreEvents(v, es[0], es);
      }
    }
  }

  lemma StepStaysFrom(w: World, e: Event, v: Version)
    requires Inv(w) && Sound(w, e)
    ensures FromTx(v, w.txs) ==> FromTx(v, Step(w, e).txs)
  {
    hide Step, FromTx;
    ClosedStay(w, e);
    forall i | 0 <= i < |w.txs| && w.txs[i].committed.Some? ensures w.txs[i].closed {
      assert CommitInv(w.eng, w.txs[i]);
    }
    StaysFrom(v, w.txs, Step(w, e).txs);
  }
}
