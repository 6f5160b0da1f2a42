/** Transactions as steps over one memtable: what a run of them keeps. A commit is one step; a
    plain write draws its timestamp in one step and writes in another. */
module Txn {
  import opened Base
  import opened Cache
  import opened Conflict
  import opened Mvcc
  import opened Recovery
  import opened Snapshots
  import opened Values
  import opened Versions
  import W = Wal

  datatype PendingOp = PutOp(value: Bytes) | DeleteOp

  /** A transaction; committed holds its commit timestamp once it has written. */
  datatype Tx = Tx(startTS: U64, writes: map<Bytes, PendingOp>, closed: bool, committed: Option<U64>)

  /** The engine: the last timestamp handed out, the versions stored, the open snapshots, and
      the cache of last commits. */
  datatype Eng = Eng(lastTS: U64, store: seq<Version>, registry: Registry, cache: Lru)

  datatype Outcome = Committed | Conflict | Closed

  /** The keys of the buffer in the order in which the map happens to yield them. */
  ghost predicate Orders(order: seq<Bytes>, writes: map<Bytes, PendingOp>) {
    (forall i, j :: 0 <= i < j < |order| ==> order[i] != order[j]) && forall k :: k in order <==> k in writes
  }

  /** What one buffered write does to the memtable at a commit timestamp. */
  function OpOf(key: Bytes, op: PendingOp, commitTS: U64): MemOp {
    match op
    case PutOp(value) => Put(NewMVCCKey(key, commitTS), Some(TagStoredValue(Some(value))))
    case DeleteOp => Delete(NewMVCCKey(key, commitTS))
  }

  function OpsOf(writes: map<Bytes, PendingOp>, order: seq<Bytes>, commitTS: U64): (ops: seq<MemOp>)
    requires forall k :: k in order ==> k in writes
    ensures |ops| == |order|
  {
    seq(|order|, i requires 0 <= i < |order| => OpOf(order[i], writes[order[i]], commitTS))
  }

  /** Some buffered key was committed after the transaction began. */
  predicate Conflicts(s: seq<Version>, tx: Tx) {
    exists k <- tx.writes.Keys :: LastCommit(s, k) > tx.startTS
  }

  /** The next timestamp, pushed past the start of the transaction. */
  function CommitTSOf(lastTS: U64, startTS: U64): U64
    requires lastTS < MAX_U64 && startTS < MAX_U64
  {
    if lastTS + 1 <= startTS then startTS + 1 else lastTS + 1
  }

  /** The commit of a transaction: checked is the order in which its loop over the buffer checks
      the keys, order the one in which a second loop over it fills the batch. */
  ghost function CommitOf(e: Eng, tx: Tx, checked: seq<Bytes>, order: seq<Bytes>): (r: (Eng, Tx, Outcome))
    requires e.lastTS < MAX_U64 && tx.startTS < MAX_U64 && Orders(order, tx.writes)
  {
    if tx.closed then (e, tx, Closed)
    else
      var done := e.(registry := Unregistered(e.registry, tx.startTS));
      if tx.writes == map[] then (done, tx.(closed := true), Committed)
      else
        var check := CheckAll(e.cache, e.store, checked, tx.startTS);
        if check.0 then (done.(cache := check.1), tx.(closed := true), Outcome.Conflict)
        else
          var c := CommitTSOf(e.lastTS, tx.startTS);
          (Written(done, tx, order, c, check.1), tx.(closed := true, committed := Some(c)), Committed)
  }

  /** The engine after the batch. */
  function Written(e: Eng, tx: Tx, order: seq<Bytes>, c: U64, cache: Lru): Eng
    requires e.lastTS < MAX_U64 && forall k :: k in order ==> k in tx.writes
  {
    e.(lastTS := e.lastTS + 1,
       store := ApplyAll(e.store, OpsOf(tx.writes, order, c)),
       cache := CacheAfter(cache, order, c))
  }

  // ------------------------------------------------------------------ the state machine

  /** drawn: the timestamps of plain writes on their way. */
  datatype World = World(eng: Eng, txs: seq<Tx>, drawn: set<U64>)

  /** Begin takes the next timestamp, BeginAt a given one. A plain write draws its timestamp and
      writes at it later: a put of a stored value or, with none, a delete. */
  datatype Event =
    | Begin
    | BeginAt(startTS: U64)
    | Buffer(i: nat, key: Bytes, op: PendingOp)
    | Commit(i: nat, checked: seq<Bytes>, order: seq<Bytes>)
    | Rollback(i: nat)
    | Draw
    | Write(ts: U64, key: Bytes, stored: Option<Bytes>)

  function PlainOp(key: Bytes, stored: Option<Bytes>, ts: U64): MemOp {
    if stored.Some? then Put(NewMVCCKey(key, ts), stored) else Delete(NewMVCCKey(key, ts))
  }

  /** A plain write puts its version into the memtable and its timestamp into the cache. */
  function PlainWritten(e: Eng, ts: U64, key: Bytes, stored: Option<Bytes>): Eng {
    e.(store := Apply(e.store, PlainOp(key, stored, ts)), cache := e.cache.Updated(key, ts))
  }

  function Opened(w: World, ts: U64): World {
    w.(eng := w.eng.(registry := Registered(w.eng.registry, ts)), txs := w.txs + [Tx(ts, map[], false, None)])
  }

  /** The transaction can be asked to commit in these orders. */
  ghost predicate CanCommit(w: World, i: nat, checked: seq<Bytes>, order: seq<Bytes>) {
    && i < |w.txs| && !w.txs[i].closed && w.txs[i].startTS < MAX_U64
    && Orders(checked, w.txs[i].writes) && Orders(order, w.txs[i].writes)
  }

  /** One step; an operation on a closed or unknown transaction, or a write at a timestamp that
      was not drawn, changes nothing. */
  ghost function Step(w: World, e: Event): World
    requires w.eng.lastTS < MAX_U64
  {
    match e
    case Begin => Opened(w.(eng := w.eng.(lastTS := w.eng.lastTS + 1)), w.eng.lastTS + 1)
    case BeginAt(ts) => Opened(w, ts)
    case Buffer(i, key, op) =>
      if i >= |w.txs| || w.txs[i].closed then w
      else w.(txs := w.txs[i := w.txs[i].(writes := w.txs[i].writes[key := op])])
    case Commit(i, checked, order) =>
      if !CanCommit(w, i, checked, order) then w
      else
        var r := CommitOf(w.eng, w.txs[i], checked, order);
        w.(eng := r.0, txs := w.txs[i := r.1])
    case Rollback(i) =>
      if i >= |w.txs| || w.txs[i].closed then w
      else
        w.(eng := w.eng.(registry := Unregistered(w.eng.registry, w.txs[i].startTS)),
           txs := w.txs[i := w.txs[i].(closed := true, writes := map[])])
    case Draw => w.(eng := w.eng.(lastTS := w.eng.lastTS + 1), drawn := w.drawn + {w.eng.lastTS + 1})
    case Write(ts, key, stored) =>
      if ts !in w.drawn then w
      else w.(eng := PlainWritten(w.eng, ts, key, stored), drawn := w.drawn - {ts})
  }

  /** Timestamps do not run out, and a given start is one that was handed out before. */
  ghost predicate Sound(w: World, e: Event) {
    w.eng.lastTS < MAX_U64 && (e.BeginAt? ==> 0 < e.startTS <= w.eng.lastTS)
  }

  ghost predicate SoundRun(w: World, es: seq<Event>)
    decreases |es|
  {
    es == [] || (Sound(w, es[0]) && SoundRun(Step(w, es[0]), es[1..]))
  }

  ghost function Run(w: World, es: seq<Event>): World
    requires SoundRun(w, es)
    decreases |es|
  {
    if es == [] then w else Run(Step(w, es[0]), es[1..])
  }

  /** After a restart: the last timestamp goes on from what was recovered, and the cache is empty. */
  function Restarted(cap: nat, lastTS: U64, store: seq<Version>): World {
    World(Eng(lastTS, store, NO_SNAPSHOTS, EmptyCache(cap)), [], {})
  }

  /** Every recovered version lies at or below the last timestamp. */
  ghost predicate Resumable(lastTS: U64, store: seq<Version>) {
    0 < lastTS && Sorted(store) && forall k :: k in KeysOf(store) ==> k.CommitTS() <= lastTS
  }

  /** The last timestamp after a restart: at least 1, the one on file, and any in a log. */
  function ResumedTS(persisted: U64, inLogs: U64): (ts: U64)
    ensures ts >= 1 && ts >= persisted && ts >= inLogs && (ts == 1 || ts == persisted || ts == inLogs)
  {
    var onFile := if persisted < 1 then 1 else persisted;
    if inLogs > onFile then inLogs else onFile
  }

  /** A new engine. */
  function Start(cap: nat): World {
    Restarted(cap, ResumedTS(0, 0), [])
  }

  // ------------------------------------------------------------------ the invariant

  ghost predicate StoreInv(e: Eng) {
    Sorted(e.store) && forall k :: k in KeysOf(e.store) ==> k.CommitTS() <= e.lastTS
  }

  /** A drawn timestamp was handed out, and nothing is stored at it. */
  ghost predicate DrawnInv(e: Eng, drawn: set<U64>) {
    forall t :: t in drawn ==> 0 < t <= e.lastTS && forall k :: k in KeysOf(e.store) ==> k.CommitTS() != t
  }

  /** Every write of a committed transaction is in the store at its commit timestamp. */
  ghost predicate CommitInv(e: Eng, tx: Tx) {
    && 0 < tx.startTS <= e.lastTS
    && (tx.committed.Some? ==>
          && tx.closed && tx.startTS < tx.committed.value <= e.lastTS
          && forall k :: k in tx.writes ==> NewMVCCKey(k, tx.committed.value) in KeysOf(e.store))
  }

  function OpenAt(txs: seq<Tx>, t: U64): nat {
    if txs == [] then 0
    else OpenAt(txs[..|txs| - 1], t) + if !txs[|txs| - 1].closed && txs[|txs| - 1].startTS == t then 1 else 0
  }

  /** The registry counts exactly the open transactions. */
  ghost predicate RegistryInv(r: Registry, txs: seq<Tx>) {
    r.Valid() && r.Exact() && forall t :: CountIn(r, t) == OpenAt(txs, t)
  }

  ghost predicate Inv(w: World) {
    && StoreInv(w.eng)
    && DrawnInv(w.eng, w.drawn)
    && NotAhead(w.eng.cache, w.eng.store)
    && (forall i :: 0 <= i < |w.txs| ==> CommitInv(w.eng, w.txs[i]))
    && RegistryInv(w.eng.registry, w.txs)
  }

  // ------------------------------------------------------------------ the store

  lemma OpsOfKeys(writes: map<Bytes, PendingOp>, order: seq<Bytes>, c: U64)
    requires Orders(order, writes)
    ensures forall op :: op in OpsOf(writes, order, c) ==> op.key.CommitTS() == c && op.key.key in writes
    ensures forall k :: k in writes ==> NewMVCCKey(k, c) in OpKeys(OpsOf(writes, order, c))
  {
    var ops := OpsOf(writes, order, c);
    forall k | k in writes ensures NewMVCCKey(k, c) in OpKeys(ops) {
      var i :| 0 <= i < |order| && order[i] == k;
      assert ops[i] in ops && ops[i].key == NewMVCCKey(k, c);
    }
  }

  /** A later store has no earlier last commit. */
  lemma LastCommitGrows(s: seq<Version>, after: seq<Version>, key: Bytes)
    requires Sorted(after) && KeysOf(s) <= KeysOf(after)
    ensures LastCommit(s, key) <= LastCommit(after, key)
  {
    var r := LastVisible(s, key, MAX_U64);
    if r.Some? {
      assert r.value.key in KeysOf(s) && r.value.key == NewMVCCKey(key, r.value.key.CommitTS());
      LastCommitCovers(after, key, r.value.key.CommitTS());
    }
  }

  lemma LastCommitCovers(s: seq<Version>, key: Bytes, c: U64)
    requires Sorted(s) && NewMVCCKey(key, c) in KeysOf(s)
    ensures LastCommit(s, key) >= c
  {
    var v :| v in s && v.key == NewMVCCKey(key, c);
    LastVisibleIsNewest(s, key, MAX_U64, v);
  }

  // ------------------------------------------------------------------ every step keeps the invariant

  lemma StoreStep(e: Eng, ops: seq<MemOp>, c: U64, lastTS: U64)
    requires StoreInv(e) && (forall op :: op in ops ==> op.key.CommitTS() == c) && e.lastTS <= lastTS && c <= lastTS
    ensures var after := e.(store := ApplyAll(e.store, ops), lastTS := lastTS);
      StoreInv(after) && KeysOf(e.store) <= KeysOf(after.store)
    ensures forall k :: k in KeysOf(ApplyAll(e.store, ops)) ==> k in KeysOf(e.store) || k.CommitTS() == c
  {
    ApplyAllKeys(e.store, ops);
  }

  lemma CommitInvStays(e: Eng, after: Eng, tx: Tx)
    requires CommitInv(e, tx) && e.lastTS <= after.lastTS && KeysOf(e.store) <= KeysOf(after.store)
    ensures CommitInv(after, tx)
  {
  }

  lemma {:induction false} OpenAtUpdate(txs: seq<Tx>, i: nat, tx: Tx, t: U64)
    requires i < |txs| && tx.startTS == txs[i].startTS
    ensures OpenAt(txs[i := tx], t) == OpenAt(txs, t)
      + (if tx.startTS == t then (if tx.closed then 0 else 1) - (if txs[i].closed then 0 else 1) else 0)
  {
    var n := |txs| - 1;
    if i < n {
      OpenAtUpdate(txs[..n], i, tx, t);
      assert txs[i := tx][..n] == txs[..n][i := tx];
    } else {
      assert txs[i := tx][..n] == txs[..n];
    }
  }

  lemma RegistryBegin(r: Registry, txs: seq<Tx>, ts: U64)
    requires RegistryInv(r, txs) && ts > 0 && forall i :: 0 <= i < |txs| ==> txs[i].startTS > 0
    ensures RegistryInv(Registered(r, ts), txs + [Tx(ts, map[], false, None)])
  {
    NoneOpenAt(txs, 0);
    RegisterKeepsExact(r, ts);
    assert CountIn(r, 0) == 0;
    assert (txs + [Tx(ts, map[], false, None)])[..|txs|] == txs;
  }

  lemma {:induction false} NoneOpenAt(txs: seq<Tx>, t: U64)
    requires forall i :: 0 <= i < |txs| ==> txs[i].startTS != t
    ensures OpenAt(txs, t) == 0
  {
    if txs != [] {
      NoneOpenAt(txs[..|txs| - 1], t);
    }
  }

  lemma {:induction false} OpenCounts(txs: seq<Tx>, i: nat)
    requires i < |txs| && !txs[i].closed
    ensures OpenAt(txs, txs[i].startTS) > 0
  {
    if i < |txs| - 1 {
      OpenCounts(txs[..|txs| - 1], i);
    }
  }

  lemma RegistryClose(r: Registry, txs: seq<Tx>, i: nat, tx: Tx)
    requires RegistryInv(r, txs) && i < |txs| && !txs[i].closed && tx.closed && tx.startTS == txs[i].startTS
    ensures RegistryInv(Unregistered(r, tx.startTS), txs[i := tx])
  {
    OpenCounts(txs, i);
    assert CountIn(r, tx.startTS) > 0;
    forall t ensures CountIn(Unregistered(r, tx.startTS), t) == OpenAt(txs[i := tx], t) {
      UnregisterCounts(r, tx.startTS, t);
      OpenAtUpdate(txs, i, tx, t);
    }
    UnregisterCounts(r, tx.startTS, 0);
  }

  lemma RegistryKeep(r: Registry, txs: seq<Tx>, i: nat, tx: Tx)
    requires RegistryInv(r, txs) && i < |txs| && !txs[i].closed && !tx.closed && tx.startTS == txs[i].startTS
    ensures RegistryInv(r, txs[i := tx])
  {
    forall t ensures CountIn(r, t) == OpenAt(txs[i := tx], t) {
      OpenAtUpdate(txs, i, tx, t);
    }
  }

  lemma BatchNotAhead(c: Lru, s: seq<Version>, after: seq<Version>, keys: seq<Bytes>, ts: U64)
    requires NotAhead(c, s) && Sorted(after) && KeysOf(s) <= KeysOf(after)
    requires forall k :: k in keys ==> NewMVCCKey(k, ts) in KeysOf(after)
    ensures NotAhead(CacheAfter(c, keys, ts), after)
  {
    hide LastCommit, Sorted, KeysOf;
    CacheAfterMembers(c, keys, ts);
    forall k | k in CacheAfter(c, keys, ts).entries ensures CacheAfter(c, keys, ts).entries[k] <= LastCommit(after, k) {
      if k in keys {
        LastCommitCovers(after, k, ts);
      } else {
        LastCommitGrows(s, after, k);
      }
    }
  }

  /** Replacing one transaction and growing the store keeps the invariant of the whole. */
  lemma InvFromParts(w: World, i: nat, e: Eng, tx: Tx)
    requires Inv(w) && i < |w.txs| && StoreInv(e) && w.eng.lastTS <= e.lastTS && KeysOf(w.eng.store) <= KeysOf(e.store)
    requires CommitInv(e, tx) && RegistryInv(e.registry, w.txs[i := tx]) && DrawnInv(e, w.drawn)
    requires NotAhead(e.cache, e.store)
    ensures Inv(w.(eng := e, txs := w.txs[i := tx]))
  {
    hide StoreInv, RegistryInv, CommitInv, KeysOf, DrawnInv, NotAhead;
    forall j | 0 <= j < |w.txs| && j != i ensures CommitInv(e, w.txs[j]) {
      CommitInvStays(w.eng, e, w.txs[j]);
    }
  }

  lemma CommitStep(w: World, i: nat, checked: seq<Bytes>, order: seq<Bytes>)
    requires Inv(w) && w.eng.lastTS < MAX_U64 && CanCommit(w, i, checked, order)
    ensures Inv(Step(w, Commit(i, checked, order)))
  {
    hide StoreInv, RegistryInv, CommitTSOf, ApplyAll, KeysOf, Unregistered, DrawnInv, NotAhead, CheckAll, Written;
    var tx, r := w.txs[i], CommitOf(w.eng, w.txs[i], checked, order);
    assert CommitInv(w.eng, tx);
    RegistryClose(w.eng.registry, w.txs, i, r.1);
    StoreIsSorted(w.eng);
    CheckAllNotAhead(w.eng.cache, w.eng.store, checked, tx.startTS);
    if r.1.committed.Some? {
      var done := w.eng.(registry := Unregistered(w.eng.registry, tx.startTS));
      OnlyStoreMatters(w.eng, done, w.drawn);
      BatchStep(done, tx, order, CheckAll(w.eng.cache, w.eng.store, checked, tx.startTS).1, w.drawn);
    } else {
      OnlyStoreMatters(w.eng, r.0, w.drawn);
    }
    InvFromParts(w, i, r.0, r.1);
  }

  /** A batch at the commit timestamp keeps what holds of the engine, and its writes are there. */
  lemma BatchStep(e: Eng, tx: Tx, order: seq<Bytes>, cache: Lru, drawn: set<U64>)
    requires StoreInv(e) && DrawnInv(e, drawn) && NotAhead(cache, e.store) && CommitInv(e, tx)
    requires e.lastTS < MAX_U64 && tx.startTS < MAX_U64 && Orders(order, tx.writes)
    ensures var c := CommitTSOf(e.lastTS, tx.startTS); var after := Written(e, tx, order, c, cache);
      && c == after.lastTS == e.lastTS + 1 && StoreInv(after) && DrawnInv(after, drawn)
      && NotAhead(after.cache, after.store)
      && KeysOf(e.store) <= KeysOf(after.store) && after.registry == e.registry
      && CommitInv(after, tx.(closed := true, committed := Some(c)))
  {
    hide ApplyAll, KeysOf, NotAhead, CacheAfter;
    var c, ops := e.lastTS + 1, OpsOf(tx.writes, order, e.lastTS + 1);
    OpsOfKeys(tx.writes, order, c);
    StoreStep(e, ops, c, c);
    ApplyAllKeys(e.store, ops);
    BatchNotAhead(cache, e.store, ApplyAll(e.store, ops), order, c);
  }

  /** The registry and the cache take no part in what holds of the store. */
  lemma OnlyStoreMatters(e: Eng, after: Eng, drawn: set<U64>)
    requires after.store == e.store && after.lastTS == e.lastTS
    ensures StoreInv(after) == StoreInv(e) && DrawnInv(after, drawn) == DrawnInv(e, drawn)
    ensures forall tx :: CommitInv(e, tx) == CommitInv(after, tx)
  {
  }

  lemma StoreIsSorted(e: Eng)
    ensures StoreInv(e) ==> Sorted(e.store)
  {
  }

  lemma StepKeepsInv(w: World, e: Event)
    requires Inv(w) && Sound(w, e)
    ensures Inv(Step(w, e))
  {
    hide RegistryInv, StoreInv, CommitOf, ApplyAll, Apply, DrawnInv, NotAhead, CanCommit;
    match e {
      case Begin =>
        NextTimestampStep(w.eng, w.drawn);
        BeginStep(w.(eng := w.eng.(lastTS := w.eng.lastTS + 1)), w, w.eng.lastTS + 1);
      case BeginAt(ts) =>
        BeginStep(w, w, ts);
      case Buffer(i, key, op) =>
        if i < |w.txs| && !w.txs[i].closed {
          UpdateStep(w, i, w.txs[i].(writes := w.txs[i].writes[key := op]));
        }
      case Commit(i, checked, order) =>
        if CanCommit(w, i, checked, order) {
          CommitStep(w, i, checked, order);
        }
      case Rollback(i) =>
        if i < |w.txs| && !w.txs[i].closed {
          RollbackStep(w, i);
        }
      case Draw =>
        DrawStep(w);
      case Write(ts, key, stored) =>
        if ts in w.drawn {
          WriteStep(w, ts, key, stored);
        }
    }
  }

  lemma NextTimestampStep(e: Eng, drawn: set<U64>)
    requires StoreInv(e) && DrawnInv(e, drawn) && e.lastTS < MAX_U64
    ensures var after := e.(lastTS := e.lastTS + 1);
      StoreInv(after) && DrawnInv(after, drawn) && DrawnInv(after, drawn + {e.lastTS + 1})
  {
  }

  lemma BeginStep(mid: World, w: World, ts: U64)
    requires Inv(w) && mid == w.(eng := w.eng.(lastTS := mid.eng.lastTS)) && w.eng.lastTS <= mid.eng.lastTS
    requires StoreInv(mid.eng) && DrawnInv(mid.eng, mid.drawn) && 0 < ts <= mid.eng.lastTS
    ensures Inv(Opened(mid, ts))
  {
    hide RegistryInv, StoreInv, DrawnInv, NotAhead, KeysOf;
    var after := Opened(mid, ts);
    RegistryBegin(w.eng.registry, w.txs, ts);
    OnlyStoreMatters(mid.eng, after.eng, mid.drawn);
    forall j | 0 <= j < |w.txs| ensures CommitInv(after.eng, w.txs[j]) {
      CommitInvStays(w.eng, after.eng, w.txs[j]);
    }
  }

  lemma UpdateStep(w: World, i: nat, tx: Tx)
    requires Inv(w) && i < |w.txs| && !w.txs[i].closed && !tx.closed && tx.startTS == w.txs[i].startTS
    requires tx.committed.None?
    ensures Inv(w.(txs := w.txs[i := tx]))
  {
    hide RegistryInv, StoreInv, KeysOf, DrawnInv, NotAhead;
    RegistryKeep(w.eng.registry, w.txs, i, tx);
    assert CommitInv(w.eng, w.txs[i]);
    InvFromParts(w, i, w.eng, tx);
  }

  lemma RollbackStep(w: World, i: nat)
    requires Inv(w) && w.eng.lastTS < MAX_U64 && i < |w.txs| && !w.txs[i].closed
    ensures Inv(Step(w, Rollback(i)))
  {
    hide RegistryInv, StoreInv, KeysOf, DrawnInv, NotAhead, Unregistered;
    var tx := w.txs[i].(closed := true, writes := map[]);
    assert CommitInv(w.eng, w.txs[i]);
    RegistryClose(w.eng.registry, w.txs, i, tx);
    var e := w.eng.(registry := Unregistered(w.eng.registry, tx.startTS));
    OnlyStoreMatters(w.eng, e, w.drawn);
    InvFromParts(w, i, e, tx);
  }

  lemma DrawStep(w: World)
    requires Inv(w) && w.eng.lastTS < MAX_U64
    ensures Inv(Step(w, Draw))
  {
    hide RegistryInv, StoreInv, KeysOf, DrawnInv, NotAhead;
    var after := Step(w, Draw);
    NextTimestampStep(w.eng, w.drawn);
    forall j | 0 <= j < |w.txs| ensures CommitInv(after.eng, w.txs[j]) {
      CommitInvStays(w.eng, after.eng, w.txs[j]);
    }
  }

  lemma WriteStep(w: World, ts: U64, key: Bytes, stored: Option<Bytes>)
    requires Inv(w) && w.eng.lastTS < MAX_U64 && ts in w.drawn
    ensures Inv(Step(w, Write(ts, key, stored)))
  {
    hide RegistryInv, Apply, StoreInv, DrawnInv, NotAhead, KeysOf;
    var after := Step(w, Write(ts, key, stored));
    PlainStep(w.eng, w.drawn, ts, key, stored);
    forall j | 0 <= j < |w.txs| ensures CommitInv(after.eng, w.txs[j]) {
      CommitInvStays(w.eng, after.eng, w.txs[j]);
    }
  }

  lemma PlainStep(e: Eng, drawn: set<U64>, ts: U64, key: Bytes, stored: Option<Bytes>)
    requires StoreInv(e) && DrawnInv(e, drawn) && NotAhead(e.cache, e.store) && ts in drawn
    ensures var after := PlainWritten(e, ts, key, stored);
      && StoreInv(after) && DrawnInv(after, drawn - {ts}) && NotAhead(after.cache, after.store)
      && KeysOf(e.store) <= KeysOf(after.store) && NewMVCCKey(key, ts) in KeysOf(after.store)
  {
    hide Apply, NotAhead, Sorted, KeysOf, CacheAfter;
    var op := PlainOp(key, stored, ts);
    ApplyKeys(e.store, op);
    BatchNotAhead(e.cache, e.store, Apply(e.store, op), [key], ts);
    OneWrite(e.cache, key, ts);
  }

  lemma OneWrite(c: Lru, key: Bytes, ts: U64)
    ensures CacheAfter(c, [key], ts) == c.Updated(key, ts)
  {
    assert [key][..0] == [];
    assert CacheAfter(c, [key][..0], ts) == c;
  }

  lemma {:induction false} RunKeepsInv(w: World, es: seq<Event>)
    requires Inv(w) && SoundRun(w, es)
    ensures Inv(Run(w, es))
    decreases |es|
  {
    if es != [] {
      StepKeepsInv(w, es[0]);
      RunKeepsInv(Step(w, es[0]), es[1..]);
    }
  }

  lemma RestartInv(cap: nat, lastTS: U64, store: seq<Version>)
    requires cap > 0 && Resumable(lastTS, store)
    ensures Inv(Restarted(cap, lastTS, store))
  {
  }

  lemma StartInv(cap: nat)
    requires cap > 0
    ensures Resumable(1, []) && Inv(Start(cap))
  {
    RestartInv(cap, 1, []);
  }

  /** What recovery leaves can be resumed, whatever is in the log: timestamps go on above every
      version replayed from it. */
  lemma RecoveredIsResumable(persisted: U64, es: seq<W.WalEntry>, vlogSize: nat, shard: nat, route: Routing)
    ensures Resumable(ResumedTS(persisted, MaxTimestamp(es)), ApplyAll([], ReplayLog(es, vlogSize, shard, route)))
  {
    hide ApplyAll, ReplayLog;
    var ops := ReplayLog(es, vlogSize, shard, route);
    ApplyAllKeys([], ops);
    ReplayedTimestamps(es, vlogSize, shard, route);
  }

  lemma {:induction false} NoneOpenIffZero(txs: seq<Tx>, r: Registry)
    requires RegistryInv(r, txs) && forall i :: 0 <= i < |txs| ==> txs[i].startTS > 0
    ensures r.min == 0 <==> forall i :: 0 <= i < |txs| ==> txs[i].closed
    ensures r.min > 0 ==> exists i :: 0 <= i < |txs| && !txs[i].closed && txs[i].startTS == r.min
    ensures r.min > 0 ==> forall i :: 0 <= i < |txs| && !txs[i].closed ==> r.min <= txs[i].startTS
  {
    NoneOpenAt(txs, 0);
    forall i | 0 <= i < |txs| && !txs[i].closed ensures txs[i].startTS in r.counts {
      OpenCounts(txs, i);
      assert CountIn(r, txs[i].startTS) > 0;
    }
    if r.counts != map[] {
      assert CountIn(r, r.min) > 0 && CountIn(r, 0) == 0;
      OpenMember(txs, r.min);
    }
  }

  lemma {:induction false} OpenMember(txs: seq<Tx>, t: U64)
    requires OpenAt(txs, t) > 0
    ensures exists i :: 0 <= i < |txs| && !txs[i].closed && txs[i].startTS == t
  {
    var n := |txs| - 1;
    if txs[n].closed || txs[n].startTS != t {
      OpenMember(txs[..n], t);
      var i :| 0 <= i < n && !txs[..n][i].closed && txs[..n][i].startTS == t;
      assert !txs[i].closed && txs[i].startTS == t;
    }
  }

  /** In every run the registry minimum is 0 exactly when no transaction is open, and otherwise
      the smallest start of an open one. */
  lemma MinimumIsSmallestOpen(cap: nat, lastTS: U64, store: seq<Version>, es: seq<Event>)
    requires cap > 0 && Resumable(lastTS, store) && SoundRun(Restarted(cap, lastTS, store), es)
    ensures var w := Run(Restarted(cap, lastTS, store), es); var min := w.eng.registry.min;
      && (min == 0 <==> forall i :: 0 <= i < |w.txs| ==> w.txs[i].closed)
      && (min > 0 ==> exists i :: 0 <= i < |w.txs| && !w.txs[i].closed && w.txs[i].startTS == min)
      && (min > 0 ==> forall i :: 0 <= i < |w.txs| && !w.txs[i].closed ==> min <= w.txs[i].startTS)
  {
    RestartInv(cap, lastTS, store);
    RunKeepsInv(Restarted(cap, lastTS, store), es);
    var w := Run(Restarted(cap, lastTS, store), es);
    assert forall i :: 0 <= i < |w.txs| ==> CommitInv(w.eng, w.txs[i]);
    NoneOpenIffZero(w.txs, w.eng.registry);
  }

  /** A key above every timestamp is new, and what a covering snapshot then reads. */
  lemma NewKeyIsFresh(e: Eng, k: MVCCKey, key: Bytes, snapshot: U64)
    requires StoreInv(e) && k.key == key && e.lastTS < k.CommitTS() <= snapshot
    ensures !Has(e.store, k) && TakesOver(e.store, k, key, snapshot)
  {
    HasMeansMember(e.store, k);
    var r := LastVisible(e.store, key, snapshot);
    if r.Some? {
      assert r.value.key in KeysOf(e.store);
    }
  }

  /** What a key reads as once a write to it is visible. */
  function ReadBack(op: MemOp): Option<Option<Bytes>> {
    match op
    case Put(_, value) => Some(value)
    case Delete(_) => None
  }

  /** The store after the first n writes of a batch. */
  function After(e: Eng, writes: map<Bytes, PendingOp>, order: seq<Bytes>, c: U64, n: nat): seq<Version>
    requires (forall k :: k in order ==> k in writes) && n <= |order|
  {
    ApplyAll(e.store, OpsOf(writes, order, c)[..n])
  }

  lemma AfterStep(e: Eng, writes: map<Bytes, PendingOp>, order: seq<Bytes>, c: U64, n: nat)
    requires StoreInv(e) && Orders(order, writes) && n <= |order|
    ensures Sorted(After(e, writes, order, c, n))
    ensures n == 0 ==> After(e, writes, order, c, n) == e.store
    ensures n > 0 ==>
      After(e, writes, order, c, n)
        == Apply(After(e, writes, order, c, n - 1), OpOf(order[n - 1], writes[order[n - 1]], c))
  {
    hide Apply, Sorted, KeysOf;
    var ops := OpsOf(writes, order, c);
    StoreIsSorted(e);
    ApplyAllKeys(e.store, ops[..n]);
    if n > 0 {
      assert ops[..n][..n - 1] == ops[..n - 1];
    }
  }

  /** A commit is visible as a whole: every snapshot from its timestamp on reads all its writes,
      and every other key as before. */
  lemma {:induction false} CommitIsVisible(e: Eng, writes: map<Bytes, PendingOp>, order: seq<Bytes>, n: nat, c: U64,
                                           key: Bytes, snapshot: U64)
    requires StoreInv(e) && e.lastTS < c <= snapshot && Orders(order, writes) && n <= |order| && key != []
    ensures SnapshotRead(After(e, writes, order, c, n), key, snapshot)
      == if key in order[..n] then ReadBack(OpOf(key, writes[key], c)) else SnapshotRead(e.store, key, snapshot)
    ensures key !in order[..n] ==>
      LastVisible(After(e, writes, order, c, n), key, snapshot) == LastVisible(e.store, key, snapshot)
  {
    hide SnapshotRead, LastVisible, TakesOver, Has, Apply, Sorted, StoreInv, After, ReadBack;
    AfterStep(e, writes, order, c, n);
    if n > 0 {
      CommitIsVisible(e, writes, order, n - 1, c, key, snapshot);
      AfterStep(e, writes, order, c, n - 1);
      var s, k := After(e, writes, order, c, n - 1), order[n - 1];
      assert order[..n] == order[..n - 1] + [k];
      VisibleStep(s, OpOf(k, writes[k], c), key, snapshot);
      if k == key {
        assert key !in order[..n - 1];
        NewKeyIsFresh(e, NewMVCCKey(k, c), key, snapshot);
        NotYetWritten(e, writes, order, n - 1, c);
        TakesOverSame(e.store, s, NewMVCCKey(k, c), key, snapshot);
      }
    }
  }

  lemma TakesOverSame(a: seq<Version>, b: seq<Version>, k: MVCCKey, key: Bytes, snapshot: U64)
    requires LastVisible(a, key, snapshot) == LastVisible(b, key, snapshot)
    ensures TakesOver(a, k, key, snapshot) == TakesOver(b, k, key, snapshot)
  {
  }

  /** One write: its own key reads back, every other key reads as before. */
  lemma VisibleStep(s: seq<Version>, op: MemOp, key: Bytes, snapshot: U64)
    requires Sorted(s) && op.key.CommitTS() <= snapshot && key != []
    ensures var r := Apply(s, op);
      && (op.key.key != key ==>
            && LastVisible(r, key, snapshot) == LastVisible(s, key, snapshot)
            && SnapshotRead(r, key, snapshot) == SnapshotRead(s, key, snapshot))
      && (op.key.key == key && !Has(s, op.key) && TakesOver(s, op.key, key, snapshot) ==>
            SnapshotRead(r, key, snapshot) == ReadBack(op))
  {
    hide LastVisible, Sorted;
    var k := op.key;
    match op {
      case Put(_, value) =>
        ReadAfterPut(s, k, value, key, snapshot);
        if !Has(s, k) {
          LastVisibleAfterInsert(s, Version(k, value, false), key, snapshot);
        }
      case Delete(_) =>
        ReadAfterDelete(s, k, key, snapshot);
        if HasExact(s, k) {
          LastVisibleAfterMark(s, k, key, snapshot);
        } else {
          LastVisibleAfterInsert(s, Tombstone(k), key, snapshot);
        }
    }
  }

  lemma NotYetWritten(e: Eng, writes: map<Bytes, PendingOp>, order: seq<Bytes>, n: nat, c: U64)
    requires StoreInv(e) && e.lastTS < c && Orders(order, writes) && n < |order|
    ensures !Has(After(e, writes, order, c, n), NewMVCCKey(order[n], c))
  {
    var ops := OpsOf(writes, order, c)[..n];
    ApplyAllKeys(e.store, ops);
    HasMeansMember(ApplyAll(e.store, ops), NewMVCCKey(order[n], c));
  }

  /** The newest stored version of a key gives its last commit. */
  lemma LastCommitIs(s: seq<Version>, key: Bytes, c: U64)
    requires Sorted(s) && NewMVCCKey(key, c) in KeysOf(s)
    requires forall k :: k in KeysOf(s) && k.key == key ==> k.CommitTS() <= c
    ensures LastCommit(s, key) == c
  {
    LastCommitCovers(s, key, c);
    var r := LastVisible(s, key, MAX_U64);
    if r.Some? {
      assert r.value.key in KeysOf(s);
    }
  }

  /** Writes newer than what is stored move the last commits of their keys and of no others. */
  lemma LastCommitMoves(s: seq<Version>, after: seq<Version>, keys: set<Bytes>, c: U64, key: Bytes)
    requires Sorted(s) && Sorted(after) && KeysOf(after) == KeysOf(s) + set k <- keys :: NewMVCCKey(k, c)
    requires key in keys ==> LastCommit(s, key) <= c
    ensures LastCommit(after, key) == if key in keys then c else LastCommit(s, key)
  {
    if key in keys {
      forall k | k in KeysOf(after) && k.key == key ensures k.CommitTS() <= c {
        if k in KeysOf(s) {
          assert k == NewMVCCKey(key, k.CommitTS());
          LastCommitCovers(s, key, k.CommitTS());
        }
      }
      assert NewMVCCKey(key, c) in KeysOf(after);
      LastCommitIs(after, key, c);
    } else {
      SameLastCommit(s, after, key);
    }
  }

  lemma SameLastCommit(s: seq<Version>, after: seq<Version>, key: Bytes)
    requires Sorted(s) && Sorted(after) && KeysOf(s) <= KeysOf(after)
    requires forall k :: k in KeysOf(after) && k.key == key ==> k in KeysOf(s)
    ensures LastCommit(after, key) == LastCommit(s, key)
  {
    LastCommitGrows(s, after, key);
    var r := LastVisible(after, key, MAX_U64);
    if r.Some? {
      assert r.value.key in KeysOf(after) && r.value.key == NewMVCCKey(key, r.value.key.CommitTS());
      LastCommitCovers(s, key, r.value.key.CommitTS());
    }
  }

  /** The last commit of every key a batch writes is its timestamp; of other keys it stays. */
  lemma LastCommitAfter(e: Eng, writes: map<Bytes, PendingOp>, order: seq<Bytes>, c: U64, key: Bytes)
    requires StoreInv(e) && e.lastTS < c && Orders(order, writes)
    ensures LastCommit(ApplyAll(e.store, OpsOf(writes, order, c)), key)
      == if key in writes then c else LastCommit(e.store, key)
  {
    hide LastCommit, ApplyAll, Sorted;
    var ops := OpsOf(writes, order, c);
    StoreIsSorted(e);
    ApplyAllKeys(e.store, ops);
    OpsOfKeys(writes, order, c);
    assert OpKeys(ops) == set k <- writes.Keys :: NewMVCCKey(k, c);
    LastCommitBound(e, key);
    LastCommitMoves(e.store, ApplyAll(e.store, ops), writes.Keys, c, key);
  }

  lemma LastCommitBound(e: Eng, key: Bytes)
    requires StoreInv(e)
    ensures LastCommit(e.store, key) <= e.lastTS
  {
    var r := LastVisible(e.store, key, MAX_U64);
    if r.Some? {
      assert r.value.key in KeysOf(e.store);
    }
  }

  /** The same for one write. */
  lemma LastCommitAfterOne(s: seq<Version>, op: MemOp, key: Bytes)
    requires Sorted(s) && LastCommit(s, op.key.key) <= op.key.CommitTS()
    ensures LastCommit(Apply(s, op), key) == if key == op.key.key then op.key.CommitTS() else LastCommit(s, key)
  {
    hide Apply, LastCommit, Sorted;
    ApplyKeys(s, op);
    assert op.key == NewMVCCKey(op.key.key, op.key.CommitTS());
    assert {op.key} == set k <- {op.key.key} :: NewMVCCKey(k, op.key.CommitTS());
    LastCommitMoves(s, Apply(s, op), {op.key.key}, op.key.CommitTS(), key);
  }

  // ------------------------------------------------------------------ reads of a transaction

  /** A stored value as the engine returns it: the tag off, a pointer resolved by the value logs. */
  function DecodeStored(stored: Option<Bytes>, resolve: Bytes -> Option<Bytes>): Option<Bytes> {
    match stored
    case None => None
    case Some(b) =>
      if b == [] then Some([])
      else if b[0] == TYPE_TOMBSTONE then None
      else
        var payload := if b[0] == TYPE_INLINE || b[0] == TYPE_VALUE_POINTER then b[1..] else b;
        var isPtr := b[0] == TYPE_VALUE_POINTER || (b[0] != TYPE_INLINE && |b| == VALUE_POINTER_SIZE);
        if !isPtr then Some(payload)
        else
          match DecodeValuePointer(payload)
          case None => Some(payload)
          case Some(vp) => if vp.offset < 0 || vp.size <= 0 then Some(payload) else resolve(payload)
  }

  /** A value that, read as a pointer, has a negative offset or no size. */
  predicate NoPointer(value: Bytes)
    requires |value| == VALUE_POINTER_SIZE
  {
    var vp := DecodeValuePointer(value).value;
    vp.offset < 0 || vp.size <= 0
  }

  /** The stored forms, byte by byte. Tagged: an inline value is what is behind the tag, a tombstone
      is absent whatever is behind it, and 12 bytes behind a pointer tag are looked up unless they
      make no pointer. Untagged, with a first byte above 2: 12 bytes are a pointer, other bytes the value. */
  lemma StoredForms(b: Bytes, resolve: Bytes -> Option<Bytes>)
    ensures DecodeStored(None, resolve) == None && DecodeStored(Some([]), resolve) == Some([])
    ensures DecodeStored(Some([0] + b), resolve) == Some(b) && DecodeStored(Some([2] + b), resolve) == None
    ensures DecodeStored(Some([1] + b), resolve)
      == if |b| == 12 && !NoPointer(b) then resolve(b) else Some(b)
    ensures b != [] && b[0] > 2 ==>
      DecodeStored(Some(b), resolve) == if |b| == 12 && !NoPointer(b) then resolve(b) else Some(b)
  {
    hide DecodeValuePointer;
    assert ([0] + b)[1..] == b && ([1] + b)[1..] == b;
  }

  /** A read of the engine at a snapshot. */
  function EngineGet(s: seq<Version>, key: Bytes, snapshot: U64, resolve: Bytes -> Option<Bytes>): Option<Bytes> {
    match SnapshotRead(s, key, snapshot)
    case None => None
    case Some(stored) => DecodeStored(stored, resolve)
  }

  /** A read inside a transaction: its own buffer first, then its snapshot. */
  function TxGet(s: seq<Version>, tx: Tx, key: Bytes, resolve: Bytes -> Option<Bytes>): Option<Bytes> {
    if key in tx.writes then
      match tx.writes[key]
      case PutOp(value) => Some(value)
      case DeleteOp => None
    else EngineGet(s, key, tx.startTS, resolve)
  }

  /** A commit stores 12 bytes as a pointer. From its timestamp on a key that it put reads back
      exactly when the value is not 12 bytes long, is no pointer after all, or happens to be what
      the value logs hold there. */
  lemma CommittedPutReads(e: Eng, writes: map<Bytes, PendingOp>, order: seq<Bytes>, c: U64, key: Bytes, snapshot: U64,
                          resolve: Bytes -> Option<Bytes>)
    requires StoreInv(e) && e.lastTS < c <= snapshot && Orders(order, writes)
    requires key != [] && key in writes && writes[key].PutOp?
    ensures var value := writes[key].value;
      EngineGet(ApplyAll(e.store, OpsOf(writes, order, c)), key, snapshot, resolve) == Some(value)
      <==> |value| != VALUE_POINTER_SIZE || NoPointer(value) || resolve(value) == Some(value)
  {
    hide SnapshotRead, ApplyAll, StoreInv, DecodeValuePointer;
    var ops := OpsOf(writes, order, c);
    assert ops[..|order|] == ops && order[..|order|] == order;
    CommitIsVisible(e, writes, order, |order|, c, key, snapshot);
    var value := writes[key].value;
    var stored := TagStoredValue(Some(value));
    assert stored[1..] == value;
  }

  /** And a key that it deleted reads as absent. */
  lemma CommittedDeleteReads(e: Eng, writes: map<Bytes, PendingOp>, order: seq<Bytes>, c: U64, key: Bytes,
                             snapshot: U64, resolve: Bytes -> Option<Bytes>)
    requires StoreInv(e) && e.lastTS < c <= snapshot && Orders(order, writes)
    requires key != [] && key in writes && writes[key].DeleteOp?
    ensures EngineGet(ApplyAll(e.store, OpsOf(writes, order, c)), key, snapshot, resolve) == None
  {
    hide SnapshotRead, ApplyAll, StoreInv;
    var ops := OpsOf(writes, order, c);
    assert ops[..|order|] == ops && order[..|order|] == order;
    CommitIsVisible(e, writes, order, |order|, c, key, snapshot);
  }
}
