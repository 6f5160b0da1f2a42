/** One shard of the engine: the write path over its log and memtable, and what a crash and a
    restart make of it. */
module Shard {
  import opened Base
  import opened Mvcc
  import opened Versions
  import opened Values
  import opened SkipList
  import opened Recovery
  import W = Wal
  import B = Batch
  import G = GroupCommit

  /** A write with its commit timestamp. */
  datatype Write = PutAt(key: Bytes, value: Bytes, ts: U64) | DeleteAt(key: Bytes, ts: U64)

  /** The log holds the raw value, without a tag. */
  function LogEntry(w: Write): W.WalEntry {
    match w
    case PutAt(key, value, ts) => W.WalEntry(W.OP_PUT, false, ts, key, value)
    case DeleteAt(key, ts) => W.WalEntry(W.OP_DELETE, false, ts, key, [])
  }

  /** The memtable holds the value with an inline tag. */
  function LiveOp(w: Write): MemOp {
    match w
    case PutAt(key, value, ts) => Put(NewMVCCKey(key, ts), Some(TagInline(value)))
    case DeleteAt(key, ts) => Delete(NewMVCCKey(key, ts))
  }

  class Shard {
    const wal: G.WriteAheadLog
    const memTable: SkipList

    ghost predicate Valid()
      reads this, wal, wal.group, wal.file, memTable
    {
      wal.Valid() && memTable.Valid()
    }

    constructor (log: G.WriteAheadLog)
      requires log.Valid()
      ensures Valid() && wal == log && fresh(memTable) && memTable.Versions() == []
    {
      wal := log;
      var table := new SkipList();
      memTable := table;
    }

    /** The path of a value small enough to lie inline: the log first, then the memtable. */
    method PutWithTS(key: Bytes, value: Bytes, commitTS: U64) returns (ok: bool)
      requires Valid() && |value| <= MAX_INLINE_SIZE
      modifies wal`offset, wal.group`bufSize, wal.group.buf, wal.encodeBuf, wal.file`data, memTable
      ensures Valid()
      ensures wal.Abs()
        == if ok then G.Appended(old(wal.Abs()), wal.grouped, W.Encode(wal.crc, LogEntry(PutAt(key, value, commitTS))))
            else old(wal.Abs())
      ensures memTable.Versions()
        == if ok then Apply(old(memTable.Versions()), LiveOp(PutAt(key, value, commitTS))) else old(memTable.Versions())
    {
      ok := wal.Write(LogEntry(PutAt(key, value, commitTS)));
      if !ok {
        return;
      }
      var _ := memTable.Put(NewMVCCKey(key, commitTS), Some(TagInline(value)));
    }

    method DeleteWithTS(key: Bytes, commitTS: U64) returns (ok: bool)
      requires Valid()
      modifies wal`offset, wal.group`bufSize, wal.group.buf, wal.encodeBuf, wal.file`data, memTable
      ensures Valid()
      ensures wal.Abs()
        == if ok then G.Appended(old(wal.Abs()), wal.grouped, W.Encode(wal.crc, LogEntry(DeleteAt(key, commitTS))))
            else old(wal.Abs())
      ensures memTable.Versions()
        == if ok then Apply(old(memTable.Versions()), LiveOp(DeleteAt(key, commitTS))) else old(memTable.Versions())
    {
      ok := wal.Write(LogEntry(DeleteAt(key, commitTS)));
      if !ok {
        return;
      }
      var _ := memTable.DeleteWithTS(NewMVCCKey(key, commitTS));
    }
  }

  // ------------------------------------------------------------------ replay rebuilds

  /** A value of exactly 12 bytes, which replay takes for a pointer. */
  predicate LooksLikePointer(w: Write) {
    w.PutAt? && |w.value| == VALUE_POINTER_SIZE
  }

  /** No value of a write is a look-alike of a pointer. */
  predicate NoLookAlikes(ws: seq<Write>) {
    forall i :: 0 <= i < |ws| ==> !LooksLikePointer(ws[i])
  }

  /** Replaying one logged write does to a memtable what the write did, exactly when its value
      does not look like a pointer. */
  lemma ReplayOfWrite(w: Write, vlogSize: nat, shard: nat, route: Routing)
    ensures ReplayEntry(LogEntry(w), vlogSize, shard, route) == [LiveOp(w)] <==> !LooksLikePointer(w)
  {
    if LooksLikePointer(w) {
      var stored := TagStoredValue(Some(w.value));
      assert stored[0] == TYPE_VALUE_POINTER && TagInline(w.value)[0] == TYPE_INLINE;
    }
  }

  function LogEntries(ws: seq<Write>): (es: seq<W.WalEntry>)
    ensures |es| == |ws|
  {
    seq(|ws|, i requires 0 <= i < |ws| => LogEntry(ws[i]))
  }

  function LiveOps(ws: seq<Write>): (ops: seq<MemOp>)
    ensures |ops| == |ws|
  {
    seq(|ws|, i requires 0 <= i < |ws| => LiveOp(ws[i]))
  }

  /** Replaying the log of any run of writes performs the very operations of the run. */
  lemma {:induction false} ReplayRebuilds(ws: seq<Write>, vlogSize: nat, shard: nat, route: Routing)
    requires NoLookAlikes(ws)
    ensures ReplayLog(LogEntries(ws), vlogSize, shard, route) == LiveOps(ws)
  {
    hide ReplayEntry;
    if ws != [] {
      var n := |ws| - 1;
      ReplayRebuilds(ws[..n], vlogSize, shard, route);
      ReplayOfWrite(ws[n], vlogSize, shard, route);
      assert LogEntries(ws)[..n] == LogEntries(ws[..n]);
      assert LiveOps(ws) == LiveOps(ws[..n]) + [LiveOp(ws[n])];
    }
  }

  // ------------------------------------------------------------------ crash and restart

  datatype EngineOp = DoWrite(w: Write) | DoFlush | DoTick

  function LogOp(op: EngineOp): G.Op {
    match op
    case DoWrite(w) => G.Append(LogEntry(w))
    case DoFlush => G.Flush
    case DoTick => G.Tick
  }

  function LogOps(ops: seq<EngineOp>): (r: seq<G.Op>)
    ensures |r| == |ops|
  {
    seq(|ops|, i requires 0 <= i < |ops| => LogOp(ops[i]))
  }

  function Writes(ops: seq<EngineOp>): seq<Write> {
    if ops == [] then []
    else
      var init, op := Writes(ops[..|ops| - 1]), ops[|ops| - 1];
      if op.DoWrite? then init + [op.w] else init
  }

  /** A write whose record fits the group-commit buffer. */
  predicate Fits(grouped: bool, op: EngineOp) {
    op.DoWrite? ==> G.FitsGroup(grouped, LogEntry(op.w))
  }

  lemma {:induction false} AcceptedAreWrites(crc: Checksum, grouped: bool, start: G.Run, ops: seq<EngineOp>)
    requires !start.log.closed && forall i :: 0 <= i < |ops| ==> Fits(grouped, ops[i])
    ensures var r := G.RunOf(crc, grouped, start, LogOps(ops));
      r.accepted == start.accepted + LogEntries(Writes(ops)) && !r.log.closed
  {
    hide W.Encode, LogEntry;
    if ops != [] {
      var n := |ops| - 1;
      AcceptedAreWrites(crc, grouped, start, ops[..n]);
      assert LogOps(ops)[..n] == LogOps(ops[..n]);
      assert Fits(grouped, ops[n]);
      if ops[n].DoWrite? {
        assert LogEntries(Writes(ops)) == LogEntries(Writes(ops[..n])) + [LogEntry(ops[n].w)];
      }
    }
  }

  lemma LogOpsFit(grouped: bool, ops: seq<EngineOp>)
    requires forall i :: 0 <= i < |ops| ==> Fits(grouped, ops[i])
    ensures forall i :: 0 <= i < |LogOps(ops)| && LogOps(ops)[i].Append? ==> G.FitsGroup(grouped, LogOps(ops)[i].entry)
  {
    forall i | 0 <= i < |LogOps(ops)| && LogOps(ops)[i].Append?
      ensures G.FitsGroup(grouped, LogOps(ops)[i].entry)
    {
      assert Fits(grouped, ops[i]);
    }
  }

  lemma LastOfConcat<T>(a: seq<T>, b: seq<T>)
    requires b != []
    ensures (a + b)[..|a + b| - 1] == a + b[..|b| - 1] && (a + b)[|a + b| - 1] == b[|b| - 1] && a + b != []
  {
  }

  lemma Associates<T>(a: seq<T>, b: seq<T>, c: seq<T>)
    ensures a + b + c == a + (b + c)
  {
  }

  lemma {:induction false} ReplayLogAppend(a: seq<W.WalEntry>, b: seq<W.WalEntry>, vlogSize: nat, shard: nat,
                                           route: Routing)
    ensures ReplayLog(a + b, vlogSize, shard, route)
      == ReplayLog(a, vlogSize, shard, route) + ReplayLog(b, vlogSize, shard, route)
    decreases |b|
  {
    hide ReplayEntry;
    if b == [] {
      assert a + b == a;
    } else {
      var n := |b| - 1;
      ReplayLogAppend(a, b[..n], vlogSize, shard, route);
      LastOfConcat(a, b);
      Associates(ReplayLog(a, vlogSize, shard, route), ReplayLog(b[..n], vlogSize, shard, route),
                 ReplayEntry(b[n], vlogSize, shard, route));
    }
  }

  /** The memtable that a log of these entries is replayed into. */
  function Rebuilt(es: seq<W.WalEntry>, vlogSize: nat, shard: nat, route: Routing): seq<Version> {
    ApplyAll([], ReplayLog(es, vlogSize, shard, route))
  }

  /** Replaying entries and then the log of writes is replaying the entries and doing the writes. */
  lemma RebuiltThenWritten(es: seq<W.WalEntry>, ws: seq<Write>, vlogSize: nat, shard: nat, route: Routing)
    requires NoLookAlikes(ws)
    ensures Rebuilt(es + LogEntries(ws), vlogSize, shard, route)
      == ApplyAll(Rebuilt(es, vlogSize, shard, route), LiveOps(ws))
  {
    ReplayLogAppend(es, LogEntries(ws), vlogSize, shard, route);
    ReplayRebuilds(ws, vlogSize, shard, route);
    ApplyAllAppend([], ReplayLog(es, vlogSize, shard, route), LiveOps(ws));
  }

  /** The memtable after the first n of some records and of writes behind them. */
  function Survived(records: seq<W.WalEntry>, ws: seq<Write>, n: nat, vlogSize: nat, shard: nat, route: Routing)
    : seq<Version>
    requires n <= |records| + |ws|
  {
    if n <= |records| then Rebuilt(records[..n], vlogSize, shard, route)
    else ApplyAll(Rebuilt(records, vlogSize, shard, route), LiveOps(ws[..n - |records|]))
  }

  lemma SurvivedIs(records: seq<W.WalEntry>, ws: seq<Write>, n: nat, vlogSize: nat, shard: nat, route: Routing)
    requires n <= |records| + |ws| && NoLookAlikes(ws)
    ensures Rebuilt((records + LogEntries(ws))[..n], vlogSize, shard, route)
      == Survived(records, ws, n, vlogSize, shard, route)
  {
    hide LogEntries, LiveOps, Rebuilt;
    EntriesSplit(records, ws, n);
    if n > |records| {
      FewerLookAlikes(ws, n - |records|);
      RebuiltThenWritten(records, ws[..n - |records|], vlogSize, shard, route);
    }
  }

  lemma FewerLookAlikes(ws: seq<Write>, n: nat)
    requires n <= |ws| && NoLookAlikes(ws)
    ensures NoLookAlikes(ws[..n])
  {
  }

  lemma EntriesSplit(records: seq<W.WalEntry>, ws: seq<Write>, n: nat)
    requires n <= |records| + |ws|
    ensures n <= |records| ==> (records + LogEntries(ws))[..n] == records[..n]
    ensures n > |records| ==> (records + LogEntries(ws))[..n] == records + LogEntries(ws[..n - |records|])
  {
    hide LogEntry;
  }

  /** From write to restart, over a log that holds any records already: whatever byte a crash cuts
      the log file at, replay into an empty memtable gives what a replay of exactly the records
      wholly before the cut gives. When no value looks like a pointer that is the memtable that the
      old records led to, as it was after the first k writes, where k counts the records of writes
      that lie wholly before the cut. A cut among the old records leaves a prefix of them. */
  lemma CrashRecoversPrefixOfMemtable(crc: Checksum, grouped: bool, records: seq<W.WalEntry>, ops: seq<EngineOp>,
                                      cut: nat, vlogSize: nat, shard: nat, route: Routing)
    requires W.AllFit(records) && forall i :: 0 <= i < |ops| ==> Fits(grouped, ops[i])
    requires cut <= |G.RunOf(crc, grouped, G.Opened(crc, records), LogOps(ops)).log.file|
    ensures var file := G.RunOf(crc, grouped, G.Opened(crc, records), LogOps(ops)).log.file;
      var n := W.WholeRecords(records + LogEntries(Writes(ops)), cut);
      && n <= |records| + |Writes(ops)|
      && var memtable := Rebuilt(W.RecoverAll(crc, file[..cut]), vlogSize, shard, route);
        && memtable == Rebuilt((records + LogEntries(Writes(ops)))[..n], vlogSize, shard, route)
        && (NoLookAlikes(Writes(ops)) ==> memtable == Survived(records, Writes(ops), n, vlogSize, shard, route))
  {
    hide G.RunOf, W.WholeRecords, W.RecoverAll, Fits, Writes, LogOps, LogEntries, Rebuilt, Survived,
      NoLookAlikes, W.AllFit, W.Concat;
    var ws := Writes(ops);
    AcceptedAreWrites(crc, grouped, G.Opened(crc, records), ops);
    LogOpsFit(grouped, ops);
    G.CrashLeavesPrefix(crc, grouped, records, LogOps(ops), cut);
    if NoLookAlikes(ws) {
      SurvivedIs(records, ws, W.WholeRecords(records + LogEntries(ws), cut), vlogSize, shard, route);
    }
  }

  /** A second life: writes over a log that holds any records already, a crash, a restart over what
      is left, more writes and another crash. After a cut between two records everything whole is
      rebuilt. After a cut within a record all writes of the second life are lost, though the log
      acknowledged them, unless the torn tail and what follows it read as a record by accident. */
  lemma SecondCrash(crc: Checksum, grouped: bool, records: seq<W.WalEntry>, ops1: seq<EngineOp>, cut1: nat,
                    ops2: seq<EngineOp>, cut2: nat, vlogSize: nat, shard: nat, route: Routing)
    requires W.AllFit(records)
    requires forall i :: 0 <= i < |ops1| ==> Fits(grouped, ops1[i])
    requires forall i :: 0 <= i < |ops2| ==> Fits(grouped, ops2[i])
    requires var r1 := G.RunOf(crc, grouped, G.Opened(crc, records), LogOps(ops1));
      && cut1 <= |r1.log.file|
      && cut1 <= cut2 <= |G.RunOf(crc, grouped, G.Reopened(r1.log.file[..cut1]), LogOps(ops2)).log.file|
    ensures var r1 := G.RunOf(crc, grouped, G.Opened(crc, records), LogOps(ops1));
      var file := G.RunOf(crc, grouped, G.Reopened(r1.log.file[..cut1]), LogOps(ops2)).log.file[..cut2];
      var entries := records + LogEntries(Writes(ops1));
      var k, n := W.WholeRecords(entries, cut1), W.WholeRecords(LogEntries(Writes(ops2)), cut2 - cut1);
      var torn := G.TornTail(crc, r1.accepted, r1.log.file, cut1);
      var after := file[cut1 - |torn|..];
      var memtable := Rebuilt(W.RecoverAll(crc, file), vlogSize, shard, route);
      var kept := Rebuilt(entries[..k], vlogSize, shard, route);
      && (torn == [] ==> memtable == Rebuilt(entries[..k] + LogEntries(Writes(ops2))[..n], vlogSize, shard, route))
      && (torn == [] && NoLookAlikes(Writes(ops2)) ==> memtable == ApplyAll(kept, LiveOps(Writes(ops2)[..n])))
      && (!W.Decode(crc, after).Entry? ==> memtable == kept)
      && (NoLookAlikes(Writes(ops1)) ==> kept == Survived(records, Writes(ops1), k, vlogSize, shard, route))
  {
    hide G.RunOf, W.Decode, W.RecoverAll, W.WholeRecords, ApplyAll, G.TornTail, W.Concat, G.FitsGroup, Fits,
      Rebuilt, Survived, LogEntries, LiveOps, NoLookAlikes, LogOps, Writes, W.AllFit;
    var r1 := G.RunOf(crc, grouped, G.Opened(crc, records), LogOps(ops1));
    var r2 := G.RunOf(crc, grouped, G.Reopened(r1.log.file[..cut1]), LogOps(ops2));
    AcceptedAreWrites(crc, grouped, G.Opened(crc, records), ops1);
    AcceptedAreWrites(crc, grouped, G.Reopened(r1.log.file[..cut1]), ops2);
    var ws1, ws2 := Writes(ops1), Writes(ops2);
    assert r1.accepted == records + LogEntries(ws1) && r2.accepted == LogEntries(ws2);
    LogOpsFit(grouped, ops1);
    LogOpsFit(grouped, ops2);
    G.CrashReopenCrash(crc, grouped, records, LogOps(ops1), cut1, LogOps(ops2), cut2);
    var k, n := W.WholeRecords(r1.accepted, cut1), W.WholeRecords(LogEntries(ws2), cut2 - cut1);
    var whole, torn := W.Concat(crc, r1.accepted[..k]), G.TornTail(crc, r1.accepted, r1.log.file, cut1);
    Behind(whole, torn, W.Concat(crc, r2.accepted)[..cut2 - cut1], r2.log.file[..cut2], cut1);
    if NoLookAlikes(ws1) {
      SurvivedIs(records, ws1, k, vlogSize, shard, route);
    }
    EntriesTake(ws2, n);
    if NoLookAlikes(ws2) {
      FewerLookAlikes(ws2, n);
      RebuiltThenWritten(r1.accepted[..k], ws2[..n], vlogSize, shard, route);
    }
  }

  lemma EntriesTake(ws: seq<Write>, n: nat)
    requires n <= |ws|
    ensures LogEntries(ws)[..n] == LogEntries(ws[..n])
  {
    hide LogEntry;
  }

  lemma Behind(whole: Bytes, torn: Bytes, tail: Bytes, file: Bytes, cut: nat)
    requires file == whole + torn + tail && cut == |whole| + |torn|
    ensures file[cut - |torn|..] == torn + tail
  {
  }

  // ------------------------------------------------------------------ the two replays at startup

  /** A put whose pointer lies outside the value log is left out of the replay. */
  predicate LeftOut(e: W.WalEntry, vlogSize: nat) {
    && e.op == W.OP_PUT && IsLargeForRecovery(e.isLarge, e.value) && DecodeValuePointer(e.value).Some?
    && OutOfBounds(DecodeValuePointer(e.value).value, vlogSize)
  }

  /** The first replay has an operation on the same version: the same one when it is a delete. */
  ghost predicate Covered(op: MemOp, first: seq<MemOp>) {
    exists p :: p in first && p.key == op.key && (op.Delete? ==> p == op)
  }

  lemma {:induction false} BatchIsCovered(ops: seq<B.LocalOp>, timestamp: U64, v1: nat, v2: nat, shard: nat,
                                          route: Routing, op: MemOp)
    requires op in ReplayBatch(ops, timestamp, v2, shard, route)
    ensures Covered(op, ReplayBatch(ops, timestamp, v1, shard, _ => shard))
  {
    if ops != [] {
      var n := |ops| - 1;
      var init := ReplayBatch(ops[..n], timestamp, v1, shard, _ => shard);
      var last := ReplayBatchOp(ops[n], timestamp, v1);
      if op in ReplayBatch(ops[..n], timestamp, v2, shard, route) {
        BatchIsCovered(ops[..n], timestamp, v1, v2, shard, route, op);
        CoveredByMore(op, init, [last]);
      } else {
        assert last in init + [last] && op == ReplayBatchOp(ops[n], timestamp, v2);
      }
    }
  }

  lemma CoveredByMore(op: MemOp, first: seq<MemOp>, more: seq<MemOp>)
    ensures Covered(op, first) || Covered(op, more) ==> Covered(op, first + more)
  {
    if Covered(op, first) || Covered(op, more) {
      var p :| (p in first || p in more) && p.key == op.key && (op.Delete? ==> p == op);
      assert p in first + more;
    }
  }

  function PutOf(e: W.WalEntry): MemOp {
    Put(NewMVCCKey(e.key, e.timestamp), Some(TagStoredValue(Some(e.value))))
  }

  /** One entry: what the second replay does was done by the first, unless it left the put out. */
  lemma EntryIsCovered(e: W.WalEntry, v1: nat, v2: nat, shard: nat, route: Routing, op: MemOp)
    requires op in ReplayEntry(e, v2, shard, route)
    ensures Covered(op, ReplayEntry(e, v1, shard, _ => shard))
      || (LeftOut(e, v1) && !LeftOut(e, v2) && op == PutOf(e))
  {
    hide TagStoredValue;
    var all: Routing := _ => shard;
    if e.op == W.OP_BATCH && B.LocalDecoding(e.value).Some? {
      BatchIsCovered(B.LocalDecoding(e.value).value, e.timestamp, v1, v2, shard, route, op);
    } else if !LeftOut(e, v1) {
      assert ReplayEntry(e, v1, shard, all) == [op];
    }
  }

  /** The second replay has a put that the first left out. */
  ghost predicate Comes(e: W.WalEntry, v1: nat, v2: nat, first: seq<MemOp>) {
    LeftOut(e, v1) && !LeftOut(e, v2) && NewMVCCKey(e.key, e.timestamp) !in OpKeys(first)
  }

  ghost predicate NothingNew(es: seq<W.WalEntry>, v1: nat, v2: nat, first: seq<MemOp>, second: seq<MemOp>) {
    && (forall i :: 0 <= i < |second| ==> !EmptyKeyDelete(second[i]))
    && forall i :: 0 <= i < |es| ==> !Comes(es[i], v1, v2, first)
  }

  lemma {:induction false} LogIsCovered(es: seq<W.WalEntry>, v1: nat, v2: nat, shard: nat, route: Routing, op: MemOp)
    requires op in ReplayLog(es, v2, shard, route)
    ensures Covered(op, ReplayLog(es, v1, shard, _ => shard))
      || exists i ::
           && 0 <= i < |es| && LeftOut(es[i], v1) && !LeftOut(es[i], v2)
           && op.Put? && op.key == NewMVCCKey(es[i].key, es[i].timestamp)
  {
    hide ReplayEntry, Covered, LeftOut;
    if es != [] {
      var n, all := |es| - 1, _ => shard;
      CoveredByMore(op, ReplayLog(es[..n], v1, shard, all), ReplayEntry(es[n], v1, shard, all));
      if op in ReplayLog(es[..n], v2, shard, route) {
        LogIsCovered(es[..n], v1, v2, shard, route, op);
      } else {
        EntryIsCovered(es[n], v1, v2, shard, route, op);
      }
    }
  }

  lemma {:induction false} EntryInLog(es: seq<W.WalEntry>, i: nat, vlogSize: nat, shard: nat, route: Routing)
    requires i < |es| && es[i].op == W.OP_PUT && !LeftOut(es[i], vlogSize)
    ensures PutOf(es[i]) in ReplayLog(es, vlogSize, shard, route)
  {
    hide TagStoredValue;
    if i < |es| - 1 {
      EntryInLog(es[..|es| - 1], i, vlogSize, shard, route);
    }
  }

  /** What is covered is settled. */
  lemma CoveredIsSettled(first: seq<MemOp>, op: MemOp)
    requires Covered(op, first) && !EmptyKeyDelete(op)
    ensures Settled(ApplyAll([], first), op)
  {
    var p :| p in first && p.key == op.key && (op.Delete? ==> p == op);
    var i :| 0 <= i < |first| && first[i] == p;
    if op.Delete? {
      AllSettled([], first, i);
    } else {
      ApplyAllKeys([], first);
      HasMeansMember(ApplyAll([], first), op.key);
    }
  }

  /** Startup replays each shard's log twice, first with every key routed to the shard and then
      with the real routing and another value log. The second replay changes nothing exactly when
      it has no delete of the empty key and no put that the first replay left out because its
      pointer lay outside the first value log and that no other entry put at the same version. */
  lemma SecondReplayChangesIff(es: seq<W.WalEntry>, v1: nat, v2: nat, shard: nat, route: Routing)
    ensures var first, second := ReplayLog(es, v1, shard, _ => shard), ReplayLog(es, v2, shard, route);
      ApplyAll(ApplyAll([], first), second) == ApplyAll([], first)
      <==> NothingNew(es, v1, v2, first, second)
  {
    hide LeftOut, Covered, ApplyAll, Settled, ReplayLog, EmptyKeyDelete, OpKeys;
    var first, second := ReplayLog(es, v1, shard, _ => shard), ReplayLog(es, v2, shard, route);
    var once := ApplyAll([], first);
    ApplyAllKeys([], first);
    if NothingNew(es, v1, v2, first, second) {
      forall j | 0 <= j < |second| ensures Settled(once, second[j]) {
        SecondIsSettled(es, v1, v2, shard, route, second[j]);
      }
      SettledReplay(once, second);
    } else if i :| 0 <= i < |es| && Comes(es[i], v1, v2, first) {
      NewPutChanges(es, i, v1, v2, shard, route);
    } else {
      SomeEmptyKeyDelete(second);
      ReplayGrows(once, second);
    }
  }

  lemma SecondIsSettled(es: seq<W.WalEntry>, v1: nat, v2: nat, shard: nat, route: Routing, op: MemOp)
    requires op in ReplayLog(es, v2, shard, route) && !EmptyKeyDelete(op)
    requires forall i :: 0 <= i < |es| ==> !Comes(es[i], v1, v2, ReplayLog(es, v1, shard, _ => shard))
    ensures Settled(ApplyAll([], ReplayLog(es, v1, shard, _ => shard)), op)
  {
    hide LeftOut, ApplyAll, ReplayLog, Settled;
    var first := ReplayLog(es, v1, shard, _ => shard);
    LogIsCovered(es, v1, v2, shard, route, op);
    CoveredIsSettled(first, op);
  }

  lemma NewPutChanges(es: seq<W.WalEntry>, i: nat, v1: nat, v2: nat, shard: nat, route: Routing)
    requires i < |es| && Comes(es[i], v1, v2, ReplayLog(es, v1, shard, _ => shard))
    ensures var once := ApplyAll([], ReplayLog(es, v1, shard, _ => shard));
      ApplyAll(once, ReplayLog(es, v2, shard, route)) != once
  {
    hide ApplyAll, ReplayLog, TagStoredValue;
    var first, second := ReplayLog(es, v1, shard, _ => shard), ReplayLog(es, v2, shard, route);
    EntryInLog(es, i, v2, shard, route);
    ApplyAllKeys([], first);
    ApplyAllKeys(ApplyAll([], first), second);
    assert NewMVCCKey(es[i].key, es[i].timestamp) in OpKeys(second);
  }
}
