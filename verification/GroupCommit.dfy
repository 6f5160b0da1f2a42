/** Group commit: records gather in a fixed buffer before they reach the file, and a crash
    may cut the file anywhere. */
module GroupCommit {
  import opened Base
  import opened Endian
  import opened Wal

  const GROUP_COMMIT_PAGE_SIZE: nat := 64 * 1024
  const GROUP_COMMIT_NUM_PAGES: nat := 4
  const GROUP_COMMIT_BUF_SIZE: nat := GROUP_COMMIT_PAGE_SIZE * GROUP_COMMIT_NUM_PAGES

  /** The log file: opened for appending, shared by the log and its group-commit writer. */
  class LogFile {
    var data: Bytes
    var closed: bool

    constructor (initial: Bytes)
      ensures data == initial && !closed
    {
      data, closed := initial, false;
    }

    /** Fails once the file is closed. */
    method Append(bytes: Bytes) returns (ok: bool)
      modifies this`data
      ensures ok == !closed && data == if ok then old(data) + bytes else old(data)
    {
      if closed {
        return false;
      }
      data := data + bytes;
      return true;
    }

    method Close()
      modifies this`closed
      ensures closed
    {
      closed := true;
    }
  }

  class GroupCommitWriter {
    const buf: array<Byte>
    const file: LogFile
    var bufSize: nat
    var closed: bool

    /** Nothing is left to write once the file is closed. */
    ghost predicate Open()
      reads this, file
    {
      buf.Length == GROUP_COMMIT_BUF_SIZE && bufSize <= buf.Length && (file.closed ==> bufSize == 0)
    }

    ghost predicate Valid()
      reads this, file
    {
      Open() && (closed ==> bufSize == 0) && (file.closed ==> closed)
    }

    ghost function Abs(): Log
      requires Open()
      reads this, file, buf
    {
      Log(file.data, buf[..bufSize], closed)
    }

    constructor (f: LogFile)
      requires !f.closed
      ensures Valid() && fresh(buf) && file == f && !closed && bufSize == 0
    {
      buf := new Byte[GROUP_COMMIT_BUF_SIZE](_ => 0);
      file := f;
      bufSize := 0;
      closed := false;
    }

    /** Buffers data, flushing first when it does not fit in what is left. The copy stops at
        the end of the buffer, so of a record longer than the buffer only a prefix is kept. */
    method Write(data: Bytes) returns (ok: bool)
      requires Valid()
      modifies this`bufSize, file`data, buf
      ensures Valid()
      ensures ok <==> !closed
      ensures Abs() == if ok then Appended(old(Abs()), true, data) else old(Abs())
    {
      if closed {
        return false;
      }
      if bufSize + |data| > buf.Length {
        FlushLocked();
      }
      var n := if |data| <= buf.Length - bufSize then |data| else buf.Length - bufSize;
      assert data[..n] == Kept(data);
      CopyInto(buf, bufSize, data[..n]);
      assert buf[..bufSize + n] == buf[..bufSize] + data[..n];
      bufSize := bufSize + n;
      return true;
    }

    /** Writes the buffer out. */
    method FlushLocked()
      requires Open()
      modifies this`bufSize, file`data
      ensures Open() && bufSize == 0
      ensures Abs() == Flushed(old(Abs()))
    {
      assert buf[..0] == [];
      if bufSize == 0 {
        assert file.data + [] == file.data;
        return;
      }
      var _ := file.Append(buf[..bufSize]);
      bufSize := 0;
    }

    /** Closing flushes what is left; later writes fail. */
    method Close()
      requires Valid()
      modifies this, file`data
      ensures Valid() && closed && bufSize == 0
      ensures Abs() == Closed(old(Abs()))
    {
      if closed {
        return;
      }
      closed := true;
      FlushLocked();
    }
  }

  /** What the buffer takes of a record. */
  function Kept(data: Bytes): Bytes {
    if |data| <= GROUP_COMMIT_BUF_SIZE then data else data[..GROUP_COMMIT_BUF_SIZE]
  }

  /** The write-ahead log over a group-commit writer, or straight over the file. */
  class WriteAheadLog {
    const crc: Checksum
    const file: LogFile
    const grouped: bool
    const group: GroupCommitWriter
    const encodeBuf: array<Byte>
    var offset: nat

    ghost predicate Valid()
      reads this, group, file
    {
      && group.file == file && encodeBuf.Length == MAX_WAL_ENTRY_SIZE && encodeBuf != group.buf
      && (grouped ==> group.Valid())
    }

    ghost function Abs(): Log
      requires Valid()
      reads this, group, group.buf, file
    {
      if grouped then group.Abs() else Log(file.data, [], file.closed)
    }

    constructor (c: Checksum, f: LogFile, g: bool)
      requires !f.closed
      ensures Valid() && crc == c && file == f && grouped == g
      ensures Abs() == Log(f.data, [], false) && offset == |f.data|
    {
      crc := c;
      file := f;
      grouped := g;
      var writer := new GroupCommitWriter(f);
      group := writer;
      encodeBuf := new Byte[MAX_WAL_ENTRY_SIZE](_ => 0);
      offset := |f.data|;
      new;
      assert group.buf[..0] == [];
    }

    method Write(entry: WalEntry) returns (ok: bool)
      requires Valid()
      modifies this`offset, group`bufSize, group.buf, encodeBuf, file`data
      ensures Valid()
      ensures ok <==> EncodedSize(entry) <= MAX_WAL_ENTRY_SIZE && !old(Abs().closed)
      ensures Abs() == if ok then Appended(old(Abs()), grouped, Encode(crc, entry)) else old(Abs())
      ensures offset == old(offset) + if ok then EncodedSize(entry) else 0
    {
      var encoded, n := EncodeWalEntryTo(crc, entry, encodeBuf);
      if !encoded {
        return false;
      }
      var data := encodeBuf[..n];
      if grouped {
        ok := group.Write(data);
        if ok {
          offset := offset + n;
        }
        return ok;
      }
      ok := file.Append(data);
      if ok {
        offset := offset + n;
      }
    }

    method Flush()
      requires Valid()
      modifies group`bufSize, file`data
      ensures Valid()
      ensures Abs() == if grouped then Flushed(old(Abs())) else old(Abs())
    {
      if grouped {
        group.FlushLocked();
      }
    }

    /** The group is closed first, then the file. */
    method Close()
      requires Valid()
      modifies group, file
      ensures Valid() && file.closed
      ensures Abs() == Closed(old(Abs()))
    {
      if grouped {
        group.Close();
      } else {
        assert file.data + [] == file.data;
      }
      file.Close();
    }
  }

  // ------------------------------------------------------------------ runs

  datatype Log = Log(file: Bytes, buf: Bytes, closed: bool)

  function Flushed(l: Log): Log {
    l.(file := l.file + l.buf, buf := [])
  }

  function Closed(l: Log): Log {
    if l.closed then l else Flushed(l).(closed := true)
  }

  function Appended(l: Log, grouped: bool, data: Bytes): Log {
    if !grouped then l.(file := l.file + data)
    else
      var l' := if |l.buf| + |data| > GROUP_COMMIT_BUF_SIZE then Flushed(l) else l;
      l'.(buf := l'.buf + Kept(data))
  }

  /** A tick of the flush loop does what a flush does. */
  datatype Op = Append(entry: WalEntry) | Flush | Tick | Close

  /** The log beside the list of entries whose write was acknowledged. */
  datatype Run = Run(log: Log, accepted: seq<WalEntry>)

  function Step(crc: Checksum, grouped: bool, r: Run, op: Op): Run {
    match op
    case Append(e) =>
      if EncodedSize(e) <= MAX_WAL_ENTRY_SIZE && !r.log.closed
      then Run(Appended(r.log, grouped, Encode(crc, e)), r.accepted + [e])
      else r
    case Flush => if grouped then r.(log := Flushed(r.log)) else r
    case Tick => if grouped then r.(log := Flushed(r.log)) else r
    case Close => r.(log := Closed(r.log))
  }

  function RunOf(crc: Checksum, grouped: bool, start: Run, ops: seq<Op>): Run {
    if ops == [] then start
    else Step(crc, grouped, RunOf(crc, grouped, start, ops[..|ops| - 1]), ops[|ops| - 1])
  }

  /** A log file that holds exactly the given records: a new one, or one closed cleanly. */
  function Opened(crc: Checksum, records: seq<WalEntry>): Run {
    Run(Log(Concat(crc, records), [], false), records)
  }

  /** A record that fits the group-commit buffer whole. */
  predicate FitsGroup(grouped: bool, e: WalEntry) {
    Fits(e) && (grouped ==> EncodedSize(e) <= GROUP_COMMIT_BUF_SIZE)
  }

  /** The file followed by the buffer is what was in the file before the run, and then the
      encoding of everything accepted. */
  ghost predicate Faithful(crc: Checksum, grouped: bool, base: Bytes, r: Run) {
    && r.log.file + r.log.buf == base + Concat(crc, r.accepted)
    && (!grouped || r.log.closed ==> r.log.buf == []) && |base| <= |r.log.file|
  }

  /** Accepting one more record keeps the log faithful exactly when the buffer can hold it:
      a longer one is acknowledged and cut off. */
  lemma AppendKeepsFaithful(crc: Checksum, grouped: bool, base: Bytes, r: Run, e: WalEntry)
    requires Faithful(crc, grouped, base, r) && EncodedSize(e) <= MAX_WAL_ENTRY_SIZE && !r.log.closed
    ensures Step(crc, grouped, r, Append(e)).accepted == r.accepted + [e]
    ensures Faithful(crc, grouped, base, Step(crc, grouped, r, Append(e)))
      <==> (grouped ==> EncodedSize(e) <= GROUP_COMMIT_BUF_SIZE)
  {
    hide Encode, Concat, Appended;
    EncodedSizeIs(crc, e);
    ConcatAppend(crc, r.accepted, e);
    AppendedBytes(r.log, grouped, Encode(crc, e));
    ThreeParts(base, Concat(crc, r.accepted), Encode(crc, e));
  }

  lemma ThreeParts(a: Bytes, b: Bytes, c: Bytes)
    ensures a + (b + c) == a + b + c
  {
  }

  lemma AppendedBytes(l: Log, grouped: bool, data: Bytes)
    requires !grouped ==> l.buf == []
    ensures var l' := Appended(l, grouped, data);
      && l'.file + l'.buf == l.file + l.buf + (if grouped then Kept(data) else data)
      && (l'.file + l'.buf == l.file + l.buf + data <==> (grouped ==> |data| <= GROUP_COMMIT_BUF_SIZE))
      && (!grouped ==> l'.buf == []) && |l'.file| >= |l.file| && l'.closed == l.closed
  {
    KeptIsAll(l.file + l.buf, data);
  }

  lemma KeptIsAll(before: Bytes, data: Bytes)
    ensures before + Kept(data) == before + data <==> |data| <= GROUP_COMMIT_BUF_SIZE
  {
    if |data| > GROUP_COMMIT_BUF_SIZE {
      assert |before + Kept(data)| < |before + data|;
    }
  }

  /** In every run of records that fit, the log is faithful: nothing acknowledged is lost,
      reordered or written twice. */
  lemma {:induction false} RunIsFaithful(crc: Checksum, grouped: bool, base: Bytes, start: Run, ops: seq<Op>)
    requires Faithful(crc, grouped, base, start)
    requires forall i :: 0 <= i < |ops| && ops[i].Append? ==> FitsGroup(grouped, ops[i].entry)
    ensures Faithful(crc, grouped, base, RunOf(crc, grouped, start, ops))
  {
    if ops != [] {
      var op, init := ops[|ops| - 1], ops[..|ops| - 1];
      RunIsFaithful(crc, grouped, base, start, init);
      var r := RunOf(crc, grouped, start, init);
      if op.Append? && !r.log.closed {
        AppendKeepsFaithful(crc, grouped, base, r, op.entry);
      } else {
        FlushKeepsFaithful(r.log);
      }
    }
  }

  lemma FlushKeepsFaithful(l: Log)
    ensures Flushed(l).file + Flushed(l).buf == l.file + l.buf
    ensures Closed(l).file + Closed(l).buf == l.file + l.buf
  {
  }

  lemma {:induction false} AcceptedFit(crc: Checksum, grouped: bool, start: Run, ops: seq<Op>)
    requires AllFit(start.accepted)
    requires forall i :: 0 <= i < |ops| && ops[i].Append? ==> FitsGroup(grouped, ops[i].entry)
    ensures AllFit(RunOf(crc, grouped, start, ops).accepted)
  {
    if ops != [] {
      var op := ops[|ops| - 1];
      assert op.Append? ==> Fits(op.entry);
      AcceptedFit(crc, grouped, start, ops[..|ops| - 1]);
    }
  }

  /** Crash safety: after any run over a log of whole records, a crash that leaves any prefix
      of the file recovers exactly the accepted records that lie wholly before the cut. */
  lemma CrashLeavesPrefix(crc: Checksum, grouped: bool, records: seq<WalEntry>, ops: seq<Op>, cut: nat)
    requires AllFit(records)
    requires forall i :: 0 <= i < |ops| && ops[i].Append? ==> FitsGroup(grouped, ops[i].entry)
    requires cut <= |RunOf(crc, grouped, Opened(crc, records), ops).log.file|
    ensures var r := RunOf(crc, grouped, Opened(crc, records), ops);
      RecoverAll(crc, r.log.file[..cut]) == r.accepted[..WholeRecords(r.accepted, cut)]
  {
    var start := Opened(crc, records);
    var r := RunOf(crc, grouped, start, ops);
    assert start.log.file + [] == start.log.file == [] + start.log.file;
    RunIsFaithful(crc, grouped, [], start, ops);
    AcceptedFit(crc, grouped, start, ops);
    RecoverCut(crc, r.accepted, cut);
    assert r.log.file[..cut] == Concat(crc, r.accepted)[..cut] by {
      FrontOf(r.log.file, r.log.buf, Concat(crc, r.accepted), cut);
    }
  }

  lemma FrontOf(a: Bytes, b: Bytes, c: Bytes, n: nat)
    requires a + b == [] + c && n <= |a|
    ensures n <= |c| && a[..n] == c[..n]
  {
    assert c == a + b;
  }

  /** What a flush, a tick or a close was asked to write down survives: once the buffer is
      empty the whole file recovers every accepted record. */
  lemma FlushedRunRecoversAll(crc: Checksum, grouped: bool, records: seq<WalEntry>, ops: seq<Op>)
    requires AllFit(records)
    requires forall i :: 0 <= i < |ops| && ops[i].Append? ==> FitsGroup(grouped, ops[i].entry)
    requires RunOf(crc, grouped, Opened(crc, records), ops).log.buf == []
    ensures var r := RunOf(crc, grouped, Opened(crc, records), ops);
      RecoverAll(crc, r.log.file) == r.accepted
  {
    var start := Opened(crc, records);
    var r := RunOf(crc, grouped, start, ops);
    assert start.log.file + [] == start.log.file == [] + start.log.file;
    RunIsFaithful(crc, grouped, [], start, ops);
    assert r.log.file + [] == r.log.file && [] + Concat(crc, r.accepted) == Concat(crc, r.accepted);
    CrashLeavesPrefix(crc, grouped, records, ops, |r.log.file|);
    assert r.log.file[..|r.log.file|] == r.log.file;
    AllWhole(crc, r.accepted);
    assert r.accepted[..|r.accepted|] == r.accepted;
  }

  lemma {:induction false} AllWhole(crc: Checksum, es: seq<WalEntry>)
    ensures WholeRecords(es, |Concat(crc, es)|) == |es|
  {
    if es != [] {
      ConcatFirst(crc, es);
      AllWhole(crc, es[1..]);
    }
  }

  // ------------------------------------------------------------------ torn tails

  /** Whatever follows whole records: recovery gives the records, and then what it makes of the rest. */
  lemma {:induction false} RecoverBehind(crc: Checksum, es: seq<WalEntry>, rest: Bytes)
    requires AllFit(es)
    ensures RecoverAll(crc, Concat(crc, es) + rest) == es + RecoverAll(crc, rest)
  {
    hide Concat, RecoverAll, Encode;
    if es == [] {
      assert Concat(crc, es) + rest == rest by { ConcatNone(crc); }
    } else {
      var tail := Concat(crc, es[1..]);
      ConcatFirst(crc, es);
      RecoverBehind(crc, es[1..], rest);
      RecoverFirst(crc, es[0], tail + rest);
      assert Encode(crc, es[0]) + tail + rest == Encode(crc, es[0]) + (tail + rest);
    }
  }

  lemma ConcatNone(crc: Checksum)
    ensures Concat(crc, []) == []
  {
  }

  /** Records behind a torn tail are hidden, however many there are, exactly when the tail and
      what follows it do not read as a record by accident. */
  lemma TornTailHidesIff(crc: Checksum, es: seq<WalEntry>, t: Bytes, more: seq<WalEntry>)
    requires AllFit(es)
    ensures RecoverAll(crc, Concat(crc, es) + t + Concat(crc, more)) == es
      <==> !Decode(crc, t + Concat(crc, more)).Entry?
  {
    hide Concat, Decode;
    var rest := t + Concat(crc, more);
    ThreeParts(Concat(crc, es), t, Concat(crc, more));
    RecoverBehind(crc, es, rest);
    assert RecoverAll(crc, rest) == [] <==> !Decode(crc, rest).Entry?;
    NothingMore(es, RecoverAll(crc, rest));
  }

  lemma NothingMore(es: seq<WalEntry>, more: seq<WalEntry>)
    ensures es + more == es <==> more == []
  {
    assert |es + more| == |es| + |more|;
  }

  /** A log reopened on the file that a crash left: it appends behind whatever is there. */
  function Reopened(file: Bytes): Run {
    Run(Log(file, [], false), [])
  }

  /** What a crash at cut leaves behind the whole records. */
  function TornTail(crc: Checksum, accepted: seq<WalEntry>, file: Bytes, cut: nat): Bytes
    requires cut <= |file|
  {
    var whole := |Concat(crc, accepted[..WholeRecords(accepted, cut)])|;
    if whole <= cut then file[whole..cut] else []
  }

  /** A crash splits a faithful file into its whole records and the torn tail. */
  lemma CutSplits(crc: Checksum, accepted: seq<WalEntry>, file: Bytes, buf: Bytes, cut: nat)
    requires file + buf == [] + Concat(crc, accepted) && cut <= |file|
    ensures var k := WholeRecords(accepted, cut);
      file[..cut] == Concat(crc, accepted[..k]) + TornTail(crc, accepted, file, cut)
  {
    hide Concat, WholeRecords;
    var k := WholeRecords(accepted, cut);
    WholeRecordsIsMaximal(crc, accepted, cut);
    ConcatPrefix(crc, accepted, k);
    FrontOf(file, buf, Concat(crc, accepted), cut);
    SplitAt(file, Concat(crc, accepted), Concat(crc, accepted[..k]), cut);
  }

  lemma SplitAt(file: Bytes, all: Bytes, whole: Bytes, cut: nat)
    requires |whole| <= cut <= |file| && cut <= |all| && file[..cut] == all[..cut] && all[..|whole|] == whole
    ensures file[..cut] == whole + file[|whole|..cut]
  {
    SliceOfTake(file, cut, 0, |whole|);
    SliceOfTake(all, cut, 0, |whole|);
    assert file[..cut] == file[..|whole|] + file[|whole|..cut];
  }

  lemma {:induction false} ConcatPrefix(crc: Checksum, es: seq<WalEntry>, k: nat)
    requires k <= |es|
    ensures |Concat(crc, es[..k])| <= |Concat(crc, es)|
    ensures Concat(crc, es)[..|Concat(crc, es[..k])|] == Concat(crc, es[..k])
  {
    if k > 0 {
      ConcatFirst(crc, es);
      ConcatFirst(crc, es[..k]);
      ConcatPrefix(crc, es[1..], k - 1);
      assert es[..k][1..] == es[1..][..k - 1];
    }
  }

  /** A run over a reopened file, cut anywhere behind what it found there. */
  lemma ReopenedCut(crc: Checksum, grouped: bool, base: Bytes, ops: seq<Op>, cut: nat)
    requires forall i :: 0 <= i < |ops| && ops[i].Append? ==> FitsGroup(grouped, ops[i].entry)
    requires |base| <= cut <= |RunOf(crc, grouped, Reopened(base), ops).log.file|
    ensures var r := RunOf(crc, grouped, Reopened(base), ops);
      && AllFit(r.accepted) && cut - |base| <= |Concat(crc, r.accepted)|
      && r.log.file[..cut] == base + Concat(crc, r.accepted)[..cut - |base|]
  {
    var r := RunOf(crc, grouped, Reopened(base), ops);
    assert base + [] == base + Concat(crc, []);
    RunIsFaithful(crc, grouped, base, Reopened(base), ops);
    AcceptedFit(crc, grouped, Reopened(base), ops);
    FrontOf(r.log.file, r.log.buf, base + Concat(crc, r.accepted), cut);
    TakeOfConcat(base, Concat(crc, r.accepted), cut);
  }

  /** A run, a crash, a run over the reopened log, and another crash. Recovery gives the whole
      records of the first run and then what it makes of the torn tail and the second run. */
  lemma CrashReopenCrash(crc: Checksum, grouped: bool, records: seq<WalEntry>, ops1: seq<Op>, cut1: nat, ops2: seq<Op>,
                         cut2: nat)
    requires AllFit(records)
    requires forall i :: 0 <= i < |ops1| && ops1[i].Append? ==> FitsGroup(grouped, ops1[i].entry)
    requires forall i :: 0 <= i < |ops2| && ops2[i].Append? ==> FitsGroup(grouped, ops2[i].entry)
    requires cut1 <= |RunOf(crc, grouped, Opened(crc, records), ops1).log.file|
    requires var r1 := RunOf(crc, grouped, Opened(crc, records), ops1);
      cut1 <= cut2 <= |RunOf(crc, grouped, Reopened(r1.log.file[..cut1]), ops2).log.file|
    ensures var r1 := RunOf(crc, grouped, Opened(crc, records), ops1);
      var r2 := RunOf(crc, grouped, Reopened(r1.log.file[..cut1]), ops2);
      var kept, m := r1.accepted[..WholeRecords(r1.accepted, cut1)], cut2 - cut1;
      var t := TornTail(crc, r1.accepted, r1.log.file, cut1);
      && m <= |Concat(crc, r2.accepted)| && cut1 == |Concat(crc, kept)| + |t|
      && r2.log.file[..cut2] == Concat(crc, kept) + t + Concat(crc, r2.accepted)[..m]
      && SecondRecovery(crc, kept, t, r2.accepted, m, RecoverAll(crc, r2.log.file[..cut2]))
  {
    hide RunOf, Decode, FitsGroup, RecoverAll, WholeRecords, TornTail, SecondRecovery, AllFit, Concat, Faithful;
    var start, r1 := Opened(crc, records), RunOf(crc, grouped, Opened(crc, records), ops1);
    var base := r1.log.file[..cut1];
    var r2 := RunOf(crc, grouped, Reopened(base), ops2);
    OpenedIsFaithful(crc, grouped, records);
    RunIsFaithful(crc, grouped, [], start, ops1);
    FaithfulBytes(crc, grouped, r1);
    AcceptedFit(crc, grouped, start, ops1);
    CutSplits(crc, r1.accepted, r1.log.file, r1.log.buf, cut1);
    ReopenedCut(crc, grouped, base, ops2, cut2);
    var kept := r1.accepted[..WholeRecords(r1.accepted, cut1)];
    FitPrefix(r1.accepted, WholeRecords(r1.accepted, cut1));
    BehindTail(crc, kept, TornTail(crc, r1.accepted, r1.log.file, cut1), r2.accepted, cut2 - cut1);
  }

  lemma OpenedIsFaithful(crc: Checksum, grouped: bool, records: seq<WalEntry>)
    ensures Faithful(crc, grouped, [], Opened(crc, records))
  {
  }

  lemma FaithfulBytes(crc: Checksum, grouped: bool, r: Run)
    requires Faithful(crc, grouped, [], r)
    ensures r.log.file + r.log.buf == [] + Concat(crc, r.accepted)
  {
  }

  lemma FitPrefix(es: seq<WalEntry>, k: nat)
    requires AllFit(es) && k <= |es|
    ensures AllFit(es[..k])
  {
  }

  /** What a second recovery finds: kept are the whole records before the torn tail t, and m
      bytes of the records es come after it. With a clean cut nothing whole is lost. Behind a torn
      tail that does not read as a record by accident nothing more is found: the promise that all
      whole records come back then holds exactly when no new record is whole. */
  ghost predicate SecondRecovery(crc: Checksum, kept: seq<WalEntry>, t: Bytes, es: seq<WalEntry>, m: nat,
                                 got: seq<WalEntry>)
    requires m <= |Concat(crc, es)|
  {
    var k := WholeRecords(es, m);
    && (t == [] ==> got == kept + es[..k])
    && (got == kept <==> !Decode(crc, t + Concat(crc, es)[..m]).Entry?)
    && (!Decode(crc, t + Concat(crc, es)[..m]).Entry? ==> (got == kept + es[..k] <==> k == 0))
  }

  lemma BehindTail(crc: Checksum, kept: seq<WalEntry>, t: Bytes, es: seq<WalEntry>, m: nat)
    requires AllFit(kept) && AllFit(es) && m <= |Concat(crc, es)|
    ensures SecondRecovery(crc, kept, t, es, m, RecoverAll(crc, Concat(crc, kept) + t + Concat(crc, es)[..m]))
  {
    hide Decode, Concat;
    var rest := t + Concat(crc, es)[..m];
    ThreeParts(Concat(crc, kept), t, Concat(crc, es)[..m]);
    RecoverBehind(crc, kept, rest);
    var found := RecoverAll(crc, rest);
    assert (found == []) == !Decode(crc, rest).Entry?;
    NothingMore(kept, found);
    NothingMore(kept, es[..WholeRecords(es, m)]);
    if t == [] {
      assert rest == Concat(crc, es)[..m];
      RecoverCut(crc, es, m);
    }
  }

  /** Such tails are the rule: behind one torn byte a record that is there whole is hidden, for
      every checksum under which the shifted header does not happen to match. */
  lemma TornByteHidesRecord(crc: Checksum)
    ensures var e := WalEntry(OP_PUT, false, 0, [], []);
      && Decode(crc, Encode(crc, e)) == Entry(e, EncodedSize(e))
      && (RecoverAll(crc, [OP_PUT] + Encode(crc, e)) == [] <==> crc([OP_PUT] + Body(e)[..15]) != crc(Body(e)) / 0x100)
  {
    hide Body, Decode;
    var e := WalEntry(OP_PUT, false, 0, [], []);
    DecodeOfEncode(crc, e, []);
    assert Encode(crc, e) + [] == Encode(crc, e);
    ZeroBody(e);
    var file := [OP_PUT] + Encode(crc, e);
    ShiftedBytes(Body(e), crc(Body(e)), file);
    TornRead(crc, file);
    assert (RecoverAll(crc, file) == []) == !Decode(crc, file).Entry?;
  }

  /** One byte in front shifts the header and the checksum. */
  lemma ShiftedBytes(body: Bytes, sum: nat, file: Bytes)
    requires |body| == 16 && (forall i :: 2 <= i < 16 ==> body[i] == 0) && sum < 0x1_0000_0000
    requires file == [OP_PUT] + (body + BE(sum, 4))
    ensures |file| == 21 && (forall i :: 10 <= i < 16 ==> file[i] == 0)
    ensures file[..16] == [OP_PUT] + body[..15] && FromBE(file[16..20]) == sum / 0x100
  {
    hide BE;
    assert forall i :: 1 <= i < 17 ==> file[i] == body[i - 1];
    assert file[16..20] == [0] + BE(sum, 4)[..3];
    ShiftedSum(sum);
  }

  /** The shifted header promises nothing behind it, so only its checksum decides. */
  lemma TornRead(crc: Checksum, file: Bytes)
    requires |file| == 21 && forall i :: 10 <= i < 16 ==> file[i] == 0
    ensures Decode(crc, file).Entry? <==> crc(file[..16]) == FromBE(file[16..20])
  {
    ZeroFromBE(file[10..12], 2);
    ZeroFromBE(file[12..16], 4);
  }

  /** A zero byte and the first three bytes of a number: the number shifted by one byte. */
  lemma ShiftedSum(x: nat)
    requires x < 0x1_0000_0000
    ensures FromBE([0] + BE(x, 4)[..3]) == x / 0x100
  {
    Pow256Values();
    assert Pow256(3) == 0x100_0000;
    assert BE(x, 4)[..3] == BE(x / 0x100, 3);
    LeadingZero(x / 0x100, 3);
    FromBEOfBE(x / 0x100, 4);
  }

  lemma {:induction false} LeadingZero(x: nat, width: nat)
    requires x < Pow256(width)
    ensures BE(x, width + 1) == [0] + BE(x, width)
  {
    if width > 0 {
      LeadingZero(x / 0x100, width - 1);
    }
  }

  lemma ZeroBody(e: WalEntry)
    requires e == WalEntry(OP_PUT, false, 0, [], [])
    ensures |Body(e)| == 16 && forall i :: 2 <= i < 16 ==> Body(e)[i] == 0
  {
    ZeroBE(8);
    ZeroBE(2);
    ZeroBE(4);
  }

  lemma {:induction false} ZeroBE(width: nat)
    ensures forall i :: 0 <= i < width ==> BE(0, width)[i] == 0
  {
    if width > 0 {
      ZeroBE(width - 1);
    }
  }

  lemma {:induction false} ZeroFromBE(b: Bytes, n: nat)
    requires n <= |b| && forall i :: 0 <= i < n ==> b[i] == 0
    ensures FromBEUpTo(b, n) == 0
  {
    if n > 0 {
      ZeroFromBE(b, n - 1);
    }
  }
}
