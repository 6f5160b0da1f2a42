/** A run, for a cache of any size, in which a stale check lets two transactions that overlap
    in time commit writes to the same key. */
module Overlap {
  import opened Base
  import opened Cache
  import opened Conflict
  import opened Isolation
  import opened Keys
  import opened Mvcc
  import opened Recovery
  import opened Snapshots
  import opened Txn
  import opened Versions

  const K: Bytes := [7]
  const V2 := Version(NewMVCCKey(K, 2), Some([0, 1]), false)
  const V5 := Tombstone(NewMVCCKey(K, 5))

  /** The key is put at 2, two transactions begin at 3 and 4, the first deletes the key and
      commits at 5. */
  function Opening(): seq<Event> {
    [Draw, Write(2, K, Some([0, 1])), Begin, Begin, Buffer(0, K, DeleteOp), Commit(0, [K], [K])]
  }

  /** A key that is none of the others. */
  function Filler(n: nat): Bytes {
    seq(n + 2, _ => 0)
  }

  /** Plain puts of n other keys. */
  function Fill(n: nat): seq<Event>
    requires n + 7 < MAX_U64
  {
    if n == 0 then [] else Fill(n - 1) + [Draw, Write(5 + n, Filler(n), Some([0]))]
  }

  /** The second transaction writes the key and commits. */
  function Closing(): seq<Event> {
    [Buffer(1, K, PutOp([2])), Commit(1, [K], [K])]
  }

  function Fillers(n: nat): (r: seq<Bytes>)
    ensures |r| == n && K !in r && forall k :: k in r ==> |k| < n + 3
  {
    if n == 0 then [] else [Filler(n)] + Fillers(n - 1)
  }

  lemma {:induction false} RunAppend(w: World, a: seq<Event>, b: seq<Event>)
    requires SoundRun(w, a) && SoundRun(Run(w, a), b)
    ensures SoundRun(w, a + b) && Run(w, a + b) == Run(Run(w, a), b)
    decreases |a|
  {
    hide Step;
    if a == [] {
      assert a + b == b;
    } else {
      RunAppend(Step(w, a[0]), a[1..], b);
      assert (a + b)[0] == a[0] && (a + b)[1..] == a[1..] + b;
    }
  }

  lemma TwoEvents(w: World, a: Event, b: Event)
    requires Sound(w, a) && Sound(Step(w, a), b)
    ensures SoundRun(w, [a, b]) && Run(w, [a, b]) == Step(Step(w, a), b)
  {
    hide Step;
    OneEvent(w, a);
    OneEvent(Step(w, a), b);
    RunAppend(w, [a], [b]);
    assert [a] + [b] == [a, b];
  }

  // ------------------------------------------------------------------ the opening

  lemma PutOnEmpty()
    ensures PutInto([], NewMVCCKey(K, 2), Some([0, 1])) == [V2]
  {
  }

  lemma DeleteOnOne()
    ensures DeleteInto([V2], NewMVCCKey(K, 5)) == [V2, V5]
  {
    var k2, k5 := NewMVCCKey(K, 2), NewMVCCKey(K, 5);
    NodeKeyLessIsStrictTotalOrder(k2, k5, k5);
    LowerBoundIs([V2], k5, 1);
  }

  /** After the put and the two begins. */
  ghost predicate TwoBegan(w: World, cap: nat) {
    && w.eng.lastTS == 4 && w.eng.store == [V2] && w.eng.cache == Lru(cap, [K], map[K := 2]) && w.drawn == {}
    && w.txs == [Tx(3, map[], false, None), Tx(4, map[], false, None)]
  }

  lemma FirstHalf(cap: nat)
    requires cap > 0
    ensures SoundRun(Start(cap), [Draw, Write(2, K, Some([0, 1])), Begin, Begin])
    ensures TwoBegan(Run(Start(cap), [Draw, Write(2, K, Some([0, 1])), Begin, Begin]), cap)
  {
    hide PutInto, Registered, SoundRun, Run;
    PutOnEmpty();
    var w1 := Step(Start(cap), Draw);
    var w2 := Step(w1, Write(2, K, Some([0, 1])));
    assert EmptyCache(cap).Updated(K, 2) == Lru(cap, [K], map[K := 2]);
    TwoEvents(Start(cap), Draw, Write(2, K, Some([0, 1])));
    TwoEvents(w2, Begin, Begin);
    RunAppend(Start(cap), [Draw, Write(2, K, Some([0, 1]))], [Begin, Begin]);
    assert [Draw, Write(2, K, Some([0, 1]))] + [Begin, Begin] == [Draw, Write(2, K, Some([0, 1])), Begin, Begin];
  }

  /** After the first transaction committed its delete. */
  ghost predicate Deleted(w: World, cap: nat) {
    && w.eng.lastTS == 5 && w.eng.store == [V2, V5] && w.eng.cache == Lru(cap, [K], map[K := 5]) && w.drawn == {}
    && w.txs == [Tx(3, map[K := DeleteOp], true, Some(5)), Tx(4, map[], false, None)]
  }

  lemma OneKeyOrder(op: PendingOp)
    ensures Orders([K], map[K := op])
  {
  }

  lemma OneOp(op: PendingOp, c: U64, s: seq<Version>)
    ensures ApplyAll(s, OpsOf(map[K := op], [K], c)) == Apply(s, OpOf(K, op, c))
  {
    hide Apply;
    var ops := OpsOf(map[K := op], [K], c);
    assert ops == [OpOf(K, op, c)] && ops[..0] == [];
    assert ApplyAll(s, ops[..0]) == s;
  }

  lemma OneCheckOnly(c: Lru, s: seq<Version>, startTS: U64)
    ensures CheckAll(c, s, [K], startTS) == c.Checked(K, startTS, LatestOf(s, K).ts)
  {
    hide LatestOf;
    assert [K][..0] == [];
    assert CheckAll(c, s, [K][..0], startTS) == (false, c);
  }

  lemma SecondHalf(w: World, cap: nat)
    requires TwoBegan(w, cap) && cap > 0
    ensures SoundRun(w, [Buffer(0, K, DeleteOp), Commit(0, [K], [K])])
    ensures Deleted(Run(w, [Buffer(0, K, DeleteOp), Commit(0, [K], [K])]), cap)
  {
    hide LatestOf, Unregistered, ApplyAll, DeleteInto, SoundRun, Run, CheckAll, CacheAfter, OpsOf, Orders;
    var w1 := Step(w, Buffer(0, K, DeleteOp));
    var w2 := Step(w1, Commit(0, [K], [K]));
    OneKeyOrder(DeleteOp);
    OneCheckOnly(w.eng.cache, w.eng.store, 3);
    OneOp(DeleteOp, 5, [V2]);
    OneWrite(Lru(cap, [K] + Without([K], K), map[K := 2]), K, 5);
    DeleteOnOne();
    assert [K] + Without([K], K) == [K] by { assert Without([K][1..], K) == []; }
    assert map[K := 2][K := 5] == map[K := 5];
    assert w1.txs == [Tx(3, map[K := DeleteOp], false, None), Tx(4, map[], false, None)];
    assert CanCommit(w1, 0, [K], [K]) && K in w1.txs[0].writes;
    assert w2.txs == [Tx(3, map[K := DeleteOp], true, Some(5)), Tx(4, map[], false, None)];
    TwoEvents(w, Buffer(0, K, DeleteOp), Commit(0, [K], [K]));
  }

  // ------------------------------------------------------------------ the cache fills up

  lemma {:induction false} LastLiveInsert(s: seq<Version>, p: nat, v: Version, key: Bytes)
    requires p <= |s| && v.key.key != key
    ensures LastLive(InsertAt(s, p, v), key) == LastLive(s, key)
  {
    var r := InsertAt(s, p, v);
    if p == |s| {
      assert r[..|r| - 1] == s;
    } else {
      assert r[..|r| - 1] == InsertAt(s[..|s| - 1], p, v);
      LastLiveInsert(s[..|s| - 1], p, v, key);
    }
  }

  /** After n other keys: the key is still deleted over a live version, and it is in the cache
      as long as there is room. */
  ghost predicate Filled(w: World, cap: nat, n: nat) {
    && Inv(w) && w.eng.lastTS == 5 + n && w.drawn == {}
    && w.txs == [Tx(3, map[K := DeleteOp], true, Some(5)), Tx(4, map[], false, None)]
    && LastLive(w.eng.store, K) == Some(V2) && NewMVCCKey(K, 5) in KeysOf(w.eng.store)
    && w.eng.cache.cap == cap && w.eng.cache.order == Fillers(n) + if n < cap then [K] else []
  }

  /** A new key in front; the oldest one falls out of a full cache. */
  lemma FillCache(c: Lru, cap: nat, n: nat, ts: U64)
    requires c.Valid() && c.cap == cap && n < cap && c.order == Fillers(n) + [K]
    ensures c.Updated(Filler(n + 1), ts).order == Fillers(n + 1) + if n + 1 < cap then [K] else []
  {
    var key := Filler(n + 1);
    assert key !in c.order && key !in c.entries;
    var full := [key] + c.order;
    assert full == Fillers(n + 1) + [K];
  }

  lemma FillStore(s: seq<Version>, n: nat, ts: U64)
    requires Sorted(s) && LastLive(s, K) == Some(V2) && NewMVCCKey(K, 5) in KeysOf(s)
    ensures var r := Apply(s, PlainOp(Filler(n), Some([0]), ts));
      LastLive(r, K) == Some(V2) && NewMVCCKey(K, 5) in KeysOf(r)
  {
    hide LastLive, Sorted, KeysOf, PutInto;
    ApplyKeys(s, PlainOp(Filler(n), Some([0]), ts));
    FillerLength(n);
    PutKeepsLastLive(s, NewMVCCKey(Filler(n), ts), Some([0]), K);
  }

  lemma FillStep(w: World, cap: nat, n: nat)
    requires Filled(w, cap, n) && n < cap && cap + 7 < MAX_U64
    ensures SoundRun(w, [Draw, Write(6 + n, Filler(n + 1), Some([0]))])
    ensures Filled(Run(w, [Draw, Write(6 + n, Filler(n + 1), Some([0]))]), cap, n + 1)
  {
    hide Inv, SoundRun, Run, Apply, KeysOf, LastLive, Sorted, Filler, Lru.Updated, Fillers, Lru.Valid;
    var e := Write(6 + n, Filler(n + 1), Some([0]));
    var w1 := Step(w, Draw);
    StepKeepsInv(w, Draw);
    StepKeepsInv(w1, e);
    InvStore(w);
    TwoEvents(w, Draw, e);
    FillStore(w.eng.store, n + 1, 6 + n);
    FillCache(w.eng.cache, cap, n, 6 + n);
    UpdatedMembers(w.eng.cache, Filler(n + 1), 6 + n);
    assert Step(w1, e).drawn == {};
  }

  lemma FillerLength(n: nat)
    ensures |Filler(n)| == n + 2
  {
  }

  lemma PutKeepsLastLive(s: seq<Version>, k: MVCCKey, value: Option<Bytes>, key: Bytes)
    requires k.key != key
    ensures LastLive(PutInto(s, k, value), key) == LastLive(s, key)
  {
    hide LastLive;
    if !Has(s, k) {
      LastLiveInsert(s, LowerBound(s, k), Version(k, value, false), key);
    }
  }

  lemma {:induction false} FillRun(w: World, cap: nat, n: nat)
    requires n <= cap && cap + 7 < MAX_U64 && Filled(w, cap, 0)
    ensures SoundRun(w, Fill(n)) && Filled(Run(w, Fill(n)), cap, n)
  {
    hide Filled;
    if n > 0 {
      FillRun(w, cap, n - 1);
      FillStep(Run(w, Fill(n - 1)), cap, n - 1);
      RunAppend(w, Fill(n - 1), [Draw, Write(5 + n, Filler(n), Some([0]))]);
    }
  }

  lemma DeletedIsFilled(w: World, cap: nat)
    requires Deleted(w, cap) && Inv(w) && cap > 0
    ensures Filled(w, cap, 0)
  {
    hide Inv;
    var s := [V2, V5];
    assert s[..1] == [V2];
    assert V5 in s;
  }

  // ------------------------------------------------------------------ the stale check

  /** Both transactions have committed a write to the key, and each began before the other
      committed. */
  ghost predicate Overlapped(w: World) {
    && |w.txs| == 2 && w.txs[0].startTS == 3 && w.txs[0].committed == Some(5) && K in w.txs[0].writes
    && w.txs[1].startTS == 4 && w.txs[1].committed.Some? && w.txs[1].committed.value > 5 && K in w.txs[1].writes
  }

  lemma StaleCheck(w: World, cap: nat)
    requires Filled(w, cap, cap) && 0 < cap && cap + 7 < MAX_U64
    ensures SoundRun(w, Closing()) && Overlapped(Run(w, Closing()))
  {
    hide Inv, Unregistered, ApplyAll, SoundRun, Run, CheckAll, CacheAfter, OpsOf, Orders, KeysOf, LastLive;
    var w1 := Step(w, Buffer(1, K, PutOp([2])));
    OneKeyOrder(PutOp([2]));
    InvStore(w);
    assert K !in w.eng.cache.order && K !in w.eng.cache.entries;
    OneCheckOnly(w.eng.cache, w.eng.store, 4);
    assert LatestOf(w.eng.store, K).ts == 2;
    assert w1.txs[1] == Tx(4, map[K := PutOp([2])], false, None);
    assert CanCommit(w1, 1, [K], [K]) && K in w1.txs[1].writes;
    TwoEvents(w, Buffer(1, K, PutOp([2])), Commit(1, [K], [K]));
  }

  /** For every capacity of the cache there is a run in which two transactions that overlap in
      time both commit a write to the same key. */
  lemma StaleCheckAdmitsOverlap(cap: nat)
    requires 0 < cap && cap + 7 < MAX_U64
    ensures var es := Opening() + Fill(cap) + Closing();
      && SoundRun(Start(cap), es) && Overlapped(Run(Start(cap), es)) && !AllApart(Run(Start(cap), es).txs)
      && !SeesAllRun(Start(cap), es)
  {
    hide TwoBegan, Deleted, Filled, Inv, Step;
    var begun := [Draw, Write(2, K, Some([0, 1])), Begin, Begin];
    var commits := [Buffer(0, K, DeleteOp), Commit(0, [K], [K])];
    FirstHalf(cap);
    var w1 := Run(Start(cap), begun);
    SecondHalf(w1, cap);
    RunAppend(Start(cap), begun, commits);
    assert begun + commits == Opening();
    var w2 := Run(Start(cap), Opening());
    StartInv(cap);
    RunKeepsInv(Start(cap), Opening());
    DeletedIsFilled(w2, cap);
    FillRun(w2, cap, cap);
    RunAppend(Start(cap), Opening(), Fill(cap));
    StaleCheck(Run(w2, Fill(cap)), cap);
    RunAppend(Start(cap), Opening() + Fill(cap), Closing());
    var es := Opening() + Fill(cap) + Closing();
    OverlappedIsNotApart(Run(Start(cap), es));
    if SeesAllRun(Start(cap), es) {
      ApartRun(Start(cap), es);
    }
  }

  lemma OverlappedIsNotApart(w: World)
    requires Overlapped(w)
    ensures !AllApart(w.txs)
  {
    var a, b := w.txs[0], w.txs[1];
    assert K in a.writes.Keys && K in b.writes.Keys;
    assert !Apart(a, b);
  }
}
