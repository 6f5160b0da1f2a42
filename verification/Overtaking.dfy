/** Which reads beside a writer take effect at one moment: all of them, except those whose version
    is deleted in place between their two loads of it. */
module Overtaking {
  import opened Base
  import opened Keys
  import opened Mvcc
  import opened Versions
  import opened Links
  import opened SkipList
  import opened Readers

  predicate At(s: State, r: nat, pc: PC) {
    r < |s.readers| && s.readers[r].pc == pc
  }

  /** Reader r has loaded the flag and the value of node, and the answer so far is that value. */
  ghost predicate Carries(s: State, r: nat, node: nat, value: Option<Bytes>, seen: Mem) {
    r < |s.readers| && PcCarries(s.readers[r].pc, node, value, seen)
  }

  ghost predicate PcCarries(pc: PC, node: nat, value: Option<Bytes>, seen: Mem) {
    match pc
    case LoadNext(idx, v, found, m) => idx == node && v == value && found && m == seen
    case Walk(prev, _, v, found, m) => prev == node && v == value && found && m == seen
    case Done(idx, v, found, m) => idx == node && v == value && found && m == seen
    case _ => false
  }

  /** The read at n answers with a version whose flag it loaded at a, not deleted, and whose value
      it loaded at b. */
  ghost predicate Loads(run: seq<State>, n: nat, r: nat, a: nat, b: nat, node: nat, value: Option<Bytes>) {
    && a < b < n < |run|
    && r < |run[a].readers| && run[a].readers[r].pc.Walk? && run[a].readers[r].pc.idx == node
    && (forall k :: a < k <= b ==> At(run[k], r, LoadValue(node)))
    && (forall k :: b < k <= n ==> Carries(run[k], r, node, value, run[b].mem))
  }

  /** The step after c raises the flag of node. */
  ghost predicate Marks(run: seq<State>, c: nat, node: nat) {
    && c + 1 < |run| && MemOK(run[c].mem)
    && WriterMarks(run[c].mem, run[c].writer, run[c + 1].mem, run[c + 1].writer, node)
  }

  /** A delete falls between the two loads of the version that the read answers with. */
  ghost predicate Overtaken(run: seq<State>, n: nat, r: nat) {
    exists a: nat, b: nat, c: nat, node: nat, value ::
      Loads(run, n, r, a, b, node, value) && a < c < b && Marks(run, c, node)
  }

  /** The read equals the snapshot read of the memory at a moment while it ran. */
  ghost predicate Linearizes(run: seq<State>, n: nat, r: nat)
    requires n < |run| && r < |run[n].readers| && run[n].readers[r].pc.Done?
  {
    exists j: nat :: LinearizesAt(run, n, r, j)
  }

  ghost predicate LinearizesAt(run: seq<State>, n: nat, r: nat, j: nat)
    requires n < |run| && r < |run[n].readers| && run[n].readers[r].pc.Done?
  {
    var q, pc := run[n].readers[r].q, run[n].readers[r].pc;
    && j < n && MemOK(run[j].mem) && r < |run[j].readers| && Running(run[j].readers[r].pc)
    && SnapshotRead(Abs(run[j].mem), q.key, q.snapshot) == if pc.found then Some(pc.value) else None
  }

  lemma StepOf(run: seq<State>, n: nat)
    requires Run(run) && n + 1 < |run|
    ensures Inv(run[n]) && Inv(run[n + 1]) && Next(run[n], run[n + 1]) && |run[n].readers| == |run[n + 1].readers|
  {
    RunKeepsInv(run, n);
    RunKeepsInv(run, n + 1);
  }

  lemma NotAtStart(run: seq<State>, r: nat)
    requires Run(run)
    ensures r < |run[0].readers| ==> run[0].readers[r].pc.Start?
  {
  }

  /** A reader whose state changed made its own step. */
  lemma MovedItself(run: seq<State>, n: nat, r: nat)
    requires Run(run) && n + 1 < |run| && r < |run[n].readers| && r < |run[n + 1].readers|
    requires run[n].readers[r].pc != run[n + 1].readers[r].pc
    ensures run[n + 1].mem == run[n].mem && MemOK(run[n].mem) && ReaderInv(run[n].mem, run[n].readers[r])
    ensures run[n + 1].readers[r].pc == Advance(run[n].mem, run[n].readers[r])
  {
    StepOf(run, n);
  }

  /** Only the load of a value starts to carry it. */
  lemma AdvanceCarries(m: Mem, r: Reader, node: nat, value: Option<Bytes>, seen: Mem)
    requires MemOK(m) && ReaderInv(m, r) && PcCarries(Advance(m, r), node, value, seen)
    requires !PcCarries(r.pc, node, value, seen)
    ensures r.pc == LoadValue(node) && seen == m && node < |m.cells|
    ensures value == if m.cells[node].version.deleted then None else m.cells[node].version.value
  {
  }

  /** Only a flag that is down leads to the load of the value. */
  lemma AdvanceLoadsFlag(m: Mem, r: Reader, node: nat)
    requires MemOK(m) && ReaderInv(m, r) && Advance(m, r) == LoadValue(node) && r.pc != LoadValue(node)
    ensures r.pc.Walk? && r.pc.idx == node && node < |m.cells| && !m.cells[node].version.deleted
  {
  }

  lemma {:induction false} FindFlagLoad(run: seq<State>, n: nat, r: nat, node: nat) returns (a: nat)
    requires Run(run) && n < |run| && At(run[n], r, LoadValue(node))
    ensures a < n && r < |run[a].readers| && run[a].readers[r].pc.Walk? && run[a].readers[r].pc.idx == node
    ensures forall k :: a < k <= n ==> At(run[k], r, LoadValue(node))
  {
    hide Run, Inv, Next, Advance, MemOK, ReaderInv;
    NotAtStart(run, r);
    StepOf(run, n - 1);
    if At(run[n - 1], r, LoadValue(node)) {
      a := FindFlagLoad(run, n - 1, r, node);
    } else {
      MovedItself(run, n - 1, r);
      AdvanceLoadsFlag(run[n - 1].mem, run[n - 1].readers[r], node);
      a := n - 1;
    }
  }

  lemma {:induction false} FindLoads(run: seq<State>, n: nat, r: nat, node: nat, value: Option<Bytes>, seen: Mem)
    returns (a: nat, b: nat)
    requires Run(run) && n < |run| && Carries(run[n], r, node, value, seen)
    ensures Loads(run, n, r, a, b, node, value) && run[b].mem == seen
  {
    hide Run, Inv, Next, Advance, MemOK, ReaderInv;
    NotAtStart(run, r);
    StepOf(run, n - 1);
    if Carries(run[n - 1], r, node, value, seen) {
      a, b := FindLoads(run, n - 1, r, node, value, seen);
    } else {
      MovedItself(run, n - 1, r);
      AdvanceCarries(run[n - 1].mem, run[n - 1].readers[r], node, value, seen);
      b := n - 1;
      a := FindFlagLoad(run, b, r, node);
    }
  }

  /** Only a delete of the node itself changes its version. */
  lemma {:induction false} VersionStays(run: seq<State>, a: nat, b: nat, node: nat)
    requires Run(run) && a <= b < |run| && node < |run[a].mem.cells|
    requires forall c :: a <= c < b ==> !Marks(run, c, node)
    ensures node < |run[b].mem.cells| && run[b].mem.cells[node].version == run[a].mem.cells[node].version
    decreases b - a
  {
    if a < b {
      StepOf(run, a);
      OneStepVersion(run, a, node);
      VersionStays(run, a + 1, b, node);
    }
  }

  lemma OneStepVersion(run: seq<State>, a: nat, node: nat)
    requires Run(run) && a + 1 < |run| && node < |run[a].mem.cells| && !Marks(run, a, node)
    ensures node < |run[a + 1].mem.cells| && run[a + 1].mem.cells[node].version == run[a].mem.cells[node].version
  {
    StepOf(run, a);
    var m, w, m', w' := run[a].mem, run[a].writer, run[a + 1].mem, run[a + 1].writer;
    if m != m' {
      if n: nat :| WriterMarks(m, w, m', w', n) {
        assert n != node;
      }
    }
  }

  /** A flag stays up. */
  lemma {:induction false} FlagStays(run: seq<State>, a: nat, b: nat, node: nat)
    requires Run(run) && a <= b < |run| && node < |run[a].mem.cells| && run[a].mem.cells[node].version.deleted
    ensures node < |run[b].mem.cells| && run[b].mem.cells[node].version.deleted
    decreases b - a
  {
    if a < b {
      StepOf(run, a);
      if !Marks(run, a, node) {
        OneStepVersion(run, a, node);
      }
      FlagStays(run, a + 1, b, node);
    }
  }

  /** What the two loads find: the flag was down at the first, and the value is nil when it is up
      at the second. */
  lemma LoadsFind(run: seq<State>, n: nat, r: nat, a: nat, b: nat, node: nat, value: Option<Bytes>)
    requires Run(run) && Loads(run, n, r, a, b, node, value)
    ensures MemOK(run[b].mem) && run[a + 1].mem == run[a].mem
    ensures node < |run[a].mem.cells| && !run[a].mem.cells[node].version.deleted
    ensures node < |run[b].mem.cells|
    ensures value == if run[b].mem.cells[node].version.deleted then None else run[b].mem.cells[node].version.value
  {
    hide Run, Inv, Next, Advance, MemOK, ReaderInv;
    assert At(run[a + 1], r, LoadValue(node)) && At(run[b], r, LoadValue(node))
        && Carries(run[b + 1], r, node, value, run[b].mem);
    MovedItself(run, a, r);
    AdvanceLoadsFlag(run[a].mem, run[a].readers[r], node);
    MovedItself(run, b, r);
    AdvanceCarries(run[b].mem, run[b].readers[r], node, value, run[b].mem);
  }

  /** Linearizability: every Get of every run answers with the snapshot read of the memory at one
      moment while it ran, unless a delete overtook it. */
  lemma GetLinearizes(run: seq<State>, n: nat, r: nat)
    requires Run(run) && n < |run| && r < |run[n].readers| && run[n].readers[r].pc.Done?
    ensures Linearizes(run, n, r) || Overtaken(run, n, r)
  {
    RunKeepsInv(run, n);
    var q, pc := run[n].readers[r].q, run[n].readers[r].pc;
    assert ReaderInv(run[n].mem, run[n].readers[r]);
    if !pc.found {
      SeenIsPast(run, n, r);
      var j :| 0 <= j < n && run[j].mem == pc.seen && r < |run[j].readers| && Running(run[j].readers[r].pc);
      assert LinearizesAt(run, n, r, j);
    } else {
      var a, b := FindLoads(run, n, r, pc.node, pc.value, pc.seen);
      LoadsFind(run, n, r, a, b, pc.node, pc.value);
      if c: nat :| a < c < b && Marks(run, c, pc.node) {
        assert Overtaken(run, n, r);
      } else {
        VersionStays(run, a + 1, b, pc.node);
        assert LinearizesAt(run, n, r, b);
      }
    }
  }

  /** No put of the key ever stored a nil value, as no write path of the engine does. */
  ghost predicate NoNilValue(run: seq<State>, n: nat, key: Bytes)
    requires n < |run|
  {
    forall j, v ::
      0 <= j <= n && MemOK(run[j].mem) && v in Abs(run[j].mem) && v.key.key == key && !v.deleted ==> v.value.Some?
  }

  lemma MarkRaises(run: seq<State>, c: nat, node: nat)
    requires Marks(run, c, node)
    ensures node < |run[c + 1].mem.cells| && run[c + 1].mem.cells[node].version.deleted
  {
  }

  lemma NilWhenMarked(run: seq<State>, n: nat, r: nat, a: nat, b: nat, c: nat, node: nat, value: Option<Bytes>)
    requires Run(run) && Loads(run, n, r, a, b, node, value) && a < c < b && Marks(run, c, node)
    ensures value == None && Carries(run[n], r, node, None, run[b].mem)
  {
    hide Run, MemOK, Marks, At, PcCarries;
    LoadsFind(run, n, r, a, b, node, value);
    MarkRaises(run, c, node);
    FlagStays(run, c + 1, b, node);
  }

  lemma OvertakenIsNil(run: seq<State>, n: nat, r: nat)
    requires Run(run) && n < |run| && r < |run[n].readers| && run[n].readers[r].pc.Done? && Overtaken(run, n, r)
    ensures run[n].readers[r].pc.found && run[n].readers[r].pc.value == None
  {
    hide Run, Loads, Marks;
    var a: nat, b: nat, c: nat, node: nat, value :| Loads(run, n, r, a, b, node, value) && a < c < b
      && Marks(run, c, node);
    NilWhenMarked(run, n, r, a, b, c, node, value);
  }

  /** The exact condition, where no stored value is nil: a read takes effect at one moment while it
      runs exactly when no delete of its version falls between its two loads. */
  lemma GetLinearizesIff(run: seq<State>, n: nat, r: nat)
    requires Run(run) && n < |run| && r < |run[n].readers| && run[n].readers[r].pc.Done?
    requires NoNilValue(run, n, run[n].readers[r].q.key)
    ensures Linearizes(run, n, r) <==> !Overtaken(run, n, r)
  {
    GetLinearizes(run, n, r);
    if Overtaken(run, n, r) {
      OvertakenIsNil(run, n, r);
      forall j: nat ensures !LinearizesAt(run, n, r, j) {
        if j < n && MemOK(run[j].mem) {
          NeverNil(Abs(run[j].mem), run[n].readers[r].q);
        }
      }
    }
  }

  lemma NeverNil(s: seq<Version>, q: Query)
    requires forall v :: v in s && v.key.key == q.key && !v.deleted ==> v.value.Some?
    ensures SnapshotRead(s, q.key, q.snapshot) != Some(None)
  {
  }

  // ------------------------------------------------------------------ a read that is overtaken

  const K: Bytes := [7]
  const V := Version(NewMVCCKey(K, 1), Some([0, 1]), false)
  const DELETED := Version(NewMVCCKey(K, 1), Some([0, 1]), true)

  function Zeros(): (z: seq<nat>)
    ensures |z| == MAX_HEIGHT
  {
    seq(MAX_HEIGHT, _ => 0)
  }

  /** The head, linked on level 0 to the node or to nothing. */
  function HeadTo(node: nat): Cell {
    Cell(Version(MVCCKey([], 0), None, false), MAX_HEIGHT, Zeros()[0 := node])
  }

  function HeadsOnly(): (levels: seq<seq<nat>>)
    ensures |levels| == MAX_HEIGHT
  {
    seq(MAX_HEIGHT, _ => [0])
  }

  function M0(): Mem {
    Mem([HeadTo(0)], 1, HeadsOnly())
  }

  function M1(): Mem {
    Mem([HeadTo(0), Cell(V, 1, Zeros())], 1, HeadsOnly())
  }

  function M2(): Mem {
    Mem([HeadTo(1), Cell(V, 1, Zeros())], 1, HeadsOnly()[0 := [0, 1]])
  }

  function M3(): Mem {
    Mem([HeadTo(1), Cell(DELETED, 1, Zeros())], 1, HeadsOnly()[0 := [0, 1]])
  }

  function One(m: Mem, w: Writer, pc: PC): State {
    State(m, w, [Reader(Query(K, 1), pc)])
  }

  /** The put and its links, the read up to its first load of the version, the delete, and the
      rest of the read. */
  function OvertakenRun(): seq<State> {
    [One(M0(), Writer.Idle, Start),
     One(M1(), Linking(1, Zeros(), 1, 0, false), Start),
     One(M1(), Linking(1, Zeros(), 1, 0, true), Start),
     One(M2(), Linking(1, Zeros(), 1, 1, false), Start),
     One(M2(), Writer.Idle, Start),
     One(M2(), Writer.Idle, Search(0, 0)),
     One(M2(), Writer.Idle, Compared(0, 0, 1, M2())),
     One(M2(), Writer.Idle, Walk(0, 1, None, false, M2())),
     One(M2(), Writer.Idle, LoadValue(1)),
     One(M3(), Writer.Idle, LoadValue(1)),
     One(M3(), Writer.Idle, LoadNext(1, None, true, M3())),
     One(M3(), Writer.Idle, Walk(1, 0, None, true, M3())),
     One(M3(), Writer.Idle, Done(1, None, true, M3()))]
  }

  lemma Allocates(m: Mem)
    requires m == M0() && MemOK(m) && WriterInv(m, Writer.Idle)
    ensures WriterStep(m, Writer.Idle, M1(), Linking(1, Zeros(), 1, 0, false))
  {
    forall l | 0 <= l < MAX_HEIGHT ensures PrevFor(m.cells, m.levels, V.key, Zeros()[l], l) {
      assert Level(m.cells, m.levels[l], l);
    }
    assert Zeros() == seq(MAX_HEIGHT, _ => 0);
    assert M1().cells == m.cells + [Cell(V, 1, seq(MAX_HEIGHT, _ => 0))];
    assert WriterAllocates(m, Writer.Idle, M1(), Linking(1, Zeros(), 1, 0, false), V, Zeros(), 1);
  }

  lemma Arms(m: Mem, w: Writer)
    requires m == M1() && w == Linking(1, Zeros(), 1, 0, false) && MemOK(m) && WriterInv(m, w)
    ensures WriterStep(m, w, m, w.(armed := true))
  {
    StoreAgain(m.cells, 1, 0, 0);
    assert WriterArms(m, w, m, w.(armed := true));
  }

  lemma LinksIt(m: Mem, w: Writer)
    requires m == M1() && w == Linking(1, Zeros(), 1, 0, true) && MemOK(m) && WriterInv(m, w)
    ensures WriterStep(m, w, M2(), Linking(1, Zeros(), 1, 1, false))
  {
    assert Fresh(m.cells, m.levels, 1, 0);
    assert PrevPos(m.cells, m.levels[0], KeyAt(m.cells, 1), 0) == 0;
    assert Spliced([0], 0, 1) == [0, 1];
    assert HeadTo(0).next[0 := 1] == HeadTo(1).next;
    assert StoreNext(m.cells, 0, 0, 1) == M2().cells;
    assert WriterLinks(m, w, M2(), Linking(1, Zeros(), 1, 1, false));
  }

  lemma MarksIt(m: Mem)
    requires m == M2() && MemOK(m) && WriterInv(m, Writer.Idle)
    ensures WriterMarks(m, Writer.Idle, M3(), Writer.Idle, 1)
  {
    assert m.levels[0][1] == 1;
  }

  lemma {:induction false} OneMore(run: seq<State>, n: nat)
    requires n + 1 < |run| && Run(run[..n + 1]) && (Inv(run[n]) ==> Next(run[n], run[n + 1]))
    ensures Run(run[..n + 2])
  {
    var longer := run[..n + 2];
    forall i | 0 <= i < |longer| - 1 && Inv(longer[i]) ensures Next(longer[i], longer[i + 1]) {
      if i < n {
        assert longer[i] == run[..n + 1][i] && longer[i + 1] == run[..n + 1][i + 1];
      }
    }
  }

  /** The writer's four steps. */
  lemma PutRun()
    ensures Run(OvertakenRun()[..5])
  {
    hide Inv, Next, MemOK, WriterInv;
    var run := OvertakenRun();
    assert HeadTo(0).next == seq(MAX_HEIGHT, _ => 0) && HeadsOnly() == seq(MAX_HEIGHT, _ => [0]);
    assert HeadTo(0) == HEAD;
    assert run[..1] == [run[0]] && Init(run[0]);
    WriterMoves(run, 0);
    OneMore(run, 0);
    WriterMoves(run, 1);
    OneMore(run, 1);
    WriterMoves(run, 2);
    OneMore(run, 2);
    WriterMoves(run, 3);
    OneMore(run, 3);
  }

  lemma WriterMoves(run: seq<State>, n: nat)
    requires run == OvertakenRun() && (n < 4 || n == 8)
    ensures Inv(run[n]) ==> Next(run[n], run[n + 1])
  {
    hide MemOK, WriterInv, ReaderInv, WriterMarks, WriterAllocates, WriterArms, WriterLinks;
    var s := run[n];
    if Inv(s) {
      match n {
        case 0 => Allocates(s.mem);
        case 1 => Arms(s.mem, s.writer);
        case 2 => LinksIt(s.mem, s.writer);
        case 3 =>
        case _ => MarksIt(s.mem);
      }
    }
  }

  lemma ReaderMovesOn(run: seq<State>, n: nat)
    requires run == OvertakenRun() && 4 <= n < 12 && n != 8
    ensures Inv(run[n]) ==> Next(run[n], run[n + 1])
  {
    hide MemOK, WriterInv, ReaderInv, WriterStep;
    var s := run[n];
    if Inv(s) {
      AdvancesSo(s.mem, s.readers[0], run[n + 1].readers[0].pc, n);
      assert run[n + 1].readers == s.readers[0 := s.readers[0].(pc := run[n + 1].readers[0].pc)];
      assert ReaderMoves(s, run[n + 1], 0);
    }
  }

  lemma AdvancesSo(m: Mem, r: Reader, after: PC, n: nat)
    requires 4 <= n < 12 && n != 8 && MemOK(m) && ReaderInv(m, r)
    requires OvertakenRun()[n].mem == m && OvertakenRun()[n].readers == [r]
    requires OvertakenRun()[n + 1].readers[0].pc == after
    ensures Advance(m, r) == after
  {
    hide MemOK, ReaderInv, M0;
    CompareZero(K, K);
  }

  /** The delete falls between the two loads, and the read answers found with nil, which the
      memory never said. */
  lemma DeleteOvertakesRead()
    ensures var run := OvertakenRun();
      && Run(run) && Overtaken(run, 12, 0) && run[12].readers[0].pc == Done(1, None, true, M3())
  {
    hide Inv, Next, MemOK, Run, Marks;
    var run := OvertakenRun();
    PutRun();
    ReaderMovesOn(run, 4);
    OneMore(run, 4);
    ReaderMovesOn(run, 5);
    OneMore(run, 5);
    ReaderMovesOn(run, 6);
    OneMore(run, 6);
    ReaderMovesOn(run, 7);
    OneMore(run, 7);
    WriterMoves(run, 8);
    OneMore(run, 8);
    ReaderMovesOn(run, 9);
    OneMore(run, 9);
    ReaderMovesOn(run, 10);
    OneMore(run, 10);
    ReaderMovesOn(run, 11);
    OneMore(run, 11);
    assert run[..13] == run;
    RunKeepsInv(run, 8);
    MarkAtEight(run);
    assert Loads(run, 12, 0, 7, 9, 1, None);
  }

  lemma MarkAtEight(run: seq<State>)
    requires run == OvertakenRun() && Inv(run[8])
    ensures Marks(run, 8, 1)
  {
    MarksIt(run[8].mem);
  }
}
