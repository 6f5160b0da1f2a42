/** Lock-free readers beside one writer: every load and every link store is a step, and
    every read still takes effect at one moment while it runs. */
module Readers {
  import opened Base
  import opened Keys
  import opened Mvcc
  import opened Versions
  import opened Links
  import opened SkipList

  /** Shared memory; levels is bookkeeping that no step reads to decide anything. */
  datatype Mem = Mem(cells: seq<Cell>, height: nat, levels: seq<seq<nat>>)

  /** Linking: node is on the levels below l; armed: its own link at l has been stored. */
  datatype Writer = Idle | Linking(node: nat, prevs: seq<nat>, h: nat, l: nat, armed: bool)

  datatype Query = Query(key: Bytes, snapshot: U64)

  /** Where a Get is. seen is the memory at its last load that can decide the answer, node the
      node whose version is the answer when one is found. */
  datatype PC =
    | Start
    | Search(idx: nat, level: nat)
    | Compared(idx: nat, level: nat, next: nat, seen: Mem)
    | Walk(prev: nat, idx: nat, value: Option<Bytes>, found: bool, seen: Mem)
    | LoadValue(idx: nat)
    | LoadNext(idx: nat, value: Option<Bytes>, found: bool, seen: Mem)
    | Done(node: nat, value: Option<Bytes>, found: bool, seen: Mem)

  datatype Reader = Reader(q: Query, pc: PC)
  {
    /** The oldest version of the key has the greatest inverted timestamp. */
    function Target(): MVCCKey {
      MVCCKey(q.key, MAX_U64)
    }
  }

  datatype State = State(mem: Mem, writer: Writer, readers: seq<Reader>)

  // ------------------------------------------------------------------ memory

  ghost predicate MemOK(m: Mem) {
    && Linked(m.cells, m.levels) && 1 <= m.height <= MAX_HEIGHT
    && Level(m.cells, m.levels[0], 0)
  }

  ghost function Abs(m: Mem): seq<Version>
    requires MemOK(m)
  {
    View(m.cells, m.levels[0])
  }

  /** What only ever happens to memory: nodes are added and linked, flags are raised. */
  ghost predicate Grows(a: Mem, b: Mem) {
    && |a.cells| <= |b.cells| && |a.levels| == |b.levels| == MAX_HEIGHT
    && (forall n :: 0 <= n < |a.cells| ==>
          && a.cells[n].version.key == b.cells[n].version.key
          && a.cells[n].version.value == b.cells[n].version.value)
    && (forall l, n :: 0 <= l < MAX_HEIGHT && n in a.levels[l] ==> n in b.levels[l])
  }

  // ------------------------------------------------------------------ the writer

  ghost predicate ArmedFor(m: Mem, node: nat, prevs: seq<nat>, l: nat, h: nat)
    requires MemOK(m) && node < |m.cells|
  {
    && l < h && l < MAX_HEIGHT && l < |prevs| && prevs[l] < |m.cells|
    && Level(m.cells, m.levels[l], l)
    && m.cells[node].next[l] == m.cells[prevs[l]].next[l]
  }

  ghost predicate WriterInv(m: Mem, w: Writer)
    requires MemOK(m)
  {
    w.Linking? ==>
      && 0 < w.node < |m.cells| && |w.prevs| == MAX_HEIGHT && w.l <= w.h <= MAX_HEIGHT
      && (forall l :: w.l <= l < w.h ==>
            Fresh(m.cells, m.levels, w.node, l) && PrevFor(m.cells, m.levels, KeyAt(m.cells, w.node), w.prevs[l], l))
      && (w.l > 0 ==> w.node in m.levels[w.l - 1])
      && (w.armed ==> ArmedFor(m, w.node, w.prevs, w.l, w.h))
  }

  /** The height is raised before the node is allocated. */
  ghost predicate WriterRaises(m: Mem, w: Writer, m': Mem, w': Writer, h: nat) {
    w.Idle? && w' == w && m.height < h <= MAX_HEIGHT && m' == m.(height := h)
  }

  /** A node with the predecessors FindPrevs promises is allocated, not linked yet. */
  ghost predicate WriterAllocates(m: Mem, w: Writer, m': Mem, w': Writer, v: Version, prevs: seq<nat>, h: nat)
    requires MemOK(m)
  {
    && w.Idle? && 1 <= h <= MAX_HEIGHT
    && PrevsFor(m.cells, m.levels, v.key, prevs)
    && (Has(Abs(m), v.key) ==> v.key.key == [])
    && m' == m.(cells := m.cells + [Cell(v, h, seq(MAX_HEIGHT, _ => 0))])
    && w' == Linking(|m.cells|, prevs, h, 0, false)
  }

  /** The store into the new node's own link. */
  ghost predicate WriterArms(m: Mem, w: Writer, m': Mem, w': Writer)
    requires MemOK(m) && WriterInv(m, w)
  {
    && w.Linking? && !w.armed && w.l < w.h
    && PrevFor(m.cells, m.levels, KeyAt(m.cells, w.node), w.prevs[w.l], w.l)
    && m' == m.(cells := StoreNext(m.cells, w.node, w.l, m.cells[w.prevs[w.l]].next[w.l]))
    && w' == w.(armed := true)
  }

  /** The store that makes the node reachable at level l. */
  ghost predicate WriterLinks(m: Mem, w: Writer, m': Mem, w': Writer)
    requires MemOK(m) && WriterInv(m, w)
  {
    && w.Linking? && w.armed
    && Fresh(m.cells, m.levels, w.node, w.l)
    && m' == Mem(StoreNext(m.cells, w.prevs[w.l], w.l, w.node), m.height, Relevelled(m.cells, m.levels, w.l, w.node))
    && w' == w.(l := w.l + 1, armed := false)
  }

  ghost predicate WriterFinishes(m: Mem, w: Writer, m': Mem, w': Writer) {
    w.Linking? && w.l == w.h && m' == m && w'.Idle?
  }

  /** A delete raises the flag of a linked node. */
  ghost predicate WriterMarks(m: Mem, w: Writer, m': Mem, w': Writer, n: nat)
    requires MemOK(m)
  {
    && w.Idle? && w' == w && n in m.levels[0] && n != 0
    && m' == m.(cells := m.cells[n := m.cells[n].(version := m.cells[n].version.(deleted := true))])
  }

  ghost predicate WriterStep(m: Mem, w: Writer, m': Mem, w': Writer)
    requires MemOK(m) && WriterInv(m, w)
  {
    || (exists h: nat :: WriterRaises(m, w, m', w', h))
    || (exists v, prevs, h: nat :: WriterAllocates(m, w, m', w', v, prevs, h))
    || WriterArms(m, w, m', w')
    || WriterLinks(m, w, m', w')
    || WriterFinishes(m, w, m', w')
    || (exists n: nat :: WriterMarks(m, w, m', w', n))
  }

  // ------------------------------------------------------------------ a reader

  /** The answer so far is what node n said at that moment; the last case is a flag that
      was raised between the two loads of one version, which reads as a nil value. */
  ghost predicate SaidAt(seen: Mem, n: nat, value: Option<Bytes>, found: bool)
    requires n < |seen.cells|
  {
    var v := seen.cells[n].version;
    || (!found && v.deleted && value == None)
    || (found && !v.deleted && value == v.value)
    || (found && v.deleted && value == None)
  }

  ghost predicate VisibleAt(m: Mem, q: Query, n: nat) {
    0 < n < |m.cells| && Visible(m.cells[n].version, q.key, q.snapshot)
  }

  /** In seen nothing visible lies strictly between prev and idx; 0 stands for either end. */
  ghost predicate Gap(m: Mem, seen: Mem, q: Query, prev: nat, idx: nat)
    requires Grows(seen, m) && prev < |m.cells| && idx < |m.cells|
    requires forall n :: n in seen.levels[0] ==> n < |m.cells|
  {
    forall n :: n in seen.levels[0] && VisibleAt(seen, q, n) ==>
      || (prev != 0 && (n == prev || NodeBefore(m.cells, n, prev)))
      || (idx != 0 && (n == idx || NodeBefore(m.cells, idx, n)))
  }

  /** The read takes effect at seen, except that a version deleted between its two loads
      is returned as found with a nil value. */
  ghost predicate TakesEffectAt(seen: Mem, q: Query, value: Option<Bytes>, found: bool)
    requires MemOK(seen)
  {
    || SnapshotRead(Abs(seen), q.key, q.snapshot) == (if found then Some(value) else None)
    || (found && value == None && q.key != [] &&
        var v := LastVisible(Abs(seen), q.key, q.snapshot);
        v.Some? && v.value.deleted)
  }

  /** The version of node is the one that a read at seen finds, and it said value there. */
  ghost predicate AnswerOf(seen: Mem, q: Query, node: nat, value: Option<Bytes>)
    requires MemOK(seen)
  {
    && q.key != [] && node in seen.levels[0] && node < |seen.cells|
    && LastVisible(Abs(seen), q.key, q.snapshot) == Some(seen.cells[node].version)
    && SaidAt(seen, node, value, true)
  }

  ghost predicate Past(m: Mem, seen: Mem)
    requires MemOK(m)
  {
    MemOK(seen) && Grows(seen, m) && forall n :: n in seen.levels[0] ==> n < |m.cells|
  }

  ghost predicate ReaderInv(m: Mem, r: Reader)
    requires MemOK(m)
  {
    match r.pc
    case Start => true
    case Search(idx, level) =>
      level < MAX_HEIGHT && idx in m.levels[level] && idx < |m.cells|
        && (idx == 0 || NodeKeyLess(KeyAt(m.cells, idx), r.Target()))
    case Compared(idx, level, next, seen) =>
      && level < MAX_HEIGHT && idx in m.levels[level] && idx < |m.cells|
      && (idx == 0 || NodeKeyLess(KeyAt(m.cells, idx), r.Target()))
      && next < |m.cells| && (next != 0 ==> next in m.levels[level])
      && Past(m, seen)
      && (level == 0 && (next == 0 || !NodeKeyLess(KeyAt(m.cells, next), r.Target())) ==>
            next == Successor(seen.levels[0], LowerBound(Abs(seen), r.Target())))
    case Walk(prev, idx, value, found, seen) =>
      && r.q.key != [] && Past(m, seen)
      && idx < |m.cells| && (idx != 0 ==> idx in m.levels[0] && !NodeKeyLess(KeyAt(m.cells, idx), r.Target()))
      && prev < |m.cells| && Gap(m, seen, r.q, prev, idx)
      && (prev == 0 ==> !found && value == None)
      && (prev != 0 ==> prev in seen.levels[0] && VisibleAt(seen, r.q, prev) && SaidAt(seen, prev, value, found))
    case LoadValue(idx) =>
      r.q.key != [] && idx in m.levels[0] && VisibleAt(m, r.q, idx) && !NodeKeyLess(KeyAt(m.cells, idx), r.Target())
    case LoadNext(idx, value, found, seen) =>
      && r.q.key != [] && idx in m.levels[0] && VisibleAt(m, r.q, idx) && !NodeKeyLess(KeyAt(m.cells, idx), r.Target())
      && Past(m, seen) && idx in seen.levels[0] && VisibleAt(seen, r.q, idx) && SaidAt(seen, idx, value, found)
    case Done(node, value, found, seen) =>
      Past(m, seen) && TakesEffectAt(seen, r.q, value, found) && (found ==> AnswerOf(seen, r.q, node, value))
  }

  /** One step of a Get: at most one load of a field that can change. */
  ghost function Advance(m: Mem, r: Reader): PC
    requires MemOK(m) && ReaderInv(m, r)
  {
    match r.pc
    case Start => Search(0, m.height - 1)
    case Search(idx, level) => Compared(idx, level, m.cells[idx].next[level], m)
    case Compared(idx, level, next, seen) =>
      if next != 0 && NodeKeyLess(KeyAt(m.cells, next), r.Target()) then Search(next, level)
      else if level > 0 then Search(idx, level - 1)
      else if next == 0 || KeyAt(m.cells, next).key == [] || KeyAt(m.cells, next).key != r.q.key
      then Done(0, None, false, seen)
      else Walk(0, next, None, false, seen)
    case Walk(prev, idx, value, found, seen) =>
      if idx == 0 || KeyAt(m.cells, idx).key != r.q.key || KeyAt(m.cells, idx).CommitTS() > r.q.snapshot
      then Done(prev, value, found, seen)
      else if m.cells[idx].version.deleted then LoadNext(idx, None, false, m)
      else LoadValue(idx)
    case LoadValue(idx) =>
      LoadNext(idx, if m.cells[idx].version.deleted then None else m.cells[idx].version.value, true, m)
    case LoadNext(idx, value, found, seen) => Walk(idx, m.cells[idx].next[0], value, found, seen)
    case Done(_, _, _, _) => r.pc
  }

  // ------------------------------------------------------------------ runs

  ghost predicate Inv(s: State) {
    && MemOK(s.mem) && WriterInv(s.mem, s.writer)
    && forall i :: 0 <= i < |s.readers| ==> ReaderInv(s.mem, s.readers[i])
  }

  ghost predicate Init(s: State) {
    && s.mem == Mem([HEAD], 1, seq(MAX_HEIGHT, _ => [0])) && s.writer.Idle?
    && forall i :: 0 <= i < |s.readers| ==> s.readers[i].pc.Start?
  }

  ghost predicate ReaderMoves(s: State, s': State, i: nat)
    requires Inv(s)
  {
    && i < |s.readers| && s'.mem == s.mem && s'.writer == s.writer
    && s'.readers == s.readers[i := s.readers[i].(pc := Advance(s.mem, s.readers[i]))]
  }

  ghost predicate Next(s: State, s': State)
    requires Inv(s)
  {
    || (WriterStep(s.mem, s.writer, s'.mem, s'.writer) && s'.readers == s.readers)
    || (exists i: nat :: ReaderMoves(s, s', i))
  }

  // ------------------------------------------------------------- the writer's steps

  lemma MarkIsSafe(m: Mem, m': Mem, w: Writer, n: nat)
    requires MemOK(m) && WriterMarks(m, w, m', w, n)
    ensures MemOK(m') && Grows(m, m')
  {
    MarkKeepsLinked(m.cells, m'.cells, m.levels, n);
    assert Level(m'.cells, m'.levels[0], 0);
  }

  lemma AllocIsSafe(m: Mem, w: Writer, m': Mem, w': Writer, v: Version, prevs: seq<nat>, h: nat)
    requires MemOK(m) && WriterAllocates(m, w, m', w', v, prevs, h)
    ensures MemOK(m') && Grows(m, m') && WriterInv(m', w')
  {
    AllocReady(m.cells, Cell(v, h, seq(MAX_HEIGHT, _ => 0)), m.levels, prevs);
  }

  /** A store into a link of a node that is not on that level touches no level. */
  lemma StoreUnlinked(cells: seq<Cell>, levels: seq<seq<nat>>, node: nat, l: nat, target: nat)
    requires Linked(cells, levels) && node < |cells| && l < MAX_HEIGHT
    requires Fresh(cells, levels, node, l)
    ensures Linked(StoreNext(cells, node, l, target), levels)
    ensures SameVersions(cells, StoreNext(cells, node, l, target))
  {
    var c := StoreNext(cells, node, l, target);
    assert SameButLevel(cells, c, l);
    forall m | 0 <= m < MAX_HEIGHT ensures Level(c, levels[m], m) {
      assert Level(cells, levels[m], m);
      if m != l {
        OtherLevelsKept(cells, c, l, m, levels[m]);
      } else {
        OrderedKept(cells, c, l, levels[l]);
      }
    }
  }

  /** Stores that change no version leave the rest of the writer's search right. */
  lemma SearchStays(a: seq<Cell>, la: seq<seq<nat>>, b: seq<Cell>, lb: seq<seq<nat>>, node: nat, prevs: seq<nat>,
                    l: nat)
    requires Linked(a, la) && Linked(b, lb) && SameVersions(a, b) && node < |a|
    requires l < MAX_HEIGHT && la[l] == lb[l] && |prevs| == MAX_HEIGHT
    requires Fresh(a, la, node, l) && PrevFor(a, la, KeyAt(a, node), prevs[l], l)
    ensures Fresh(b, lb, node, l) && PrevFor(b, lb, KeyAt(b, node), prevs[l], l)
  {
    assert Level(b, lb[l], l);
    PrevPosSame(a, b, lb[l], KeyAt(a, node), 0);
  }

  lemma ArmIsSafe(m: Mem, w: Writer, m': Mem, w': Writer)
    requires MemOK(m) && WriterInv(m, w) && WriterArms(m, w, m', w')
    ensures MemOK(m') && Grows(m, m') && WriterInv(m', w')
  {
    assert Fresh(m.cells, m.levels, w.node, w.l)
        && PrevFor(m.cells, m.levels, KeyAt(m.cells, w.node), w.prevs[w.l], w.l);
    StoreUnlinked(m.cells, m.levels, w.node, w.l, m.cells[w.prevs[w.l]].next[w.l]);
    forall l | w.l <= l < w.h
      ensures Fresh(m'.cells, m'.levels, w.node, l)
      ensures PrevFor(m'.cells, m'.levels, KeyAt(m'.cells, w.node), w.prevs[l], l)
    {
      SearchStays(m.cells, m.levels, m'.cells, m'.levels, w.node, w.prevs, l);
    }
    assert Level(m'.cells, m'.levels[w.l], w.l) && Level(m'.cells, m'.levels[0], 0);
  }

  lemma LinkIsSafe(m: Mem, w: Writer, m': Mem, w': Writer)
    requires MemOK(m) && WriterInv(m, w) && WriterLinks(m, w, m', w')
    ensures MemOK(m') && Grows(m, m') && WriterInv(m', w')
    ensures w.l > 0 ==> Abs(m') == Abs(m)
    ensures w.l == 0 ==>
      Abs(m') == InsertAt(Abs(m), LowerBound(Abs(m), KeyAt(m.cells, w.node)), m.cells[w.node].version)
  {
    var l, node := w.l, w.node;
    assert Fresh(m.cells, m.levels, node, l) && PrevFor(m.cells, m.levels, KeyAt(m.cells, node), w.prevs[l], l);
    LinkStep(m.cells, m.levels, l, node);
    LinkStepView(m.cells, m.levels, l, node);
    StoreAgain(m.cells, node, l, m.cells[node].next[l]);
    assert m'.cells == LinkAfter(m.cells, w.prevs[l], node, l);
    SplicedMembers(m.levels[l], PrevPos(m.cells, m.levels[l], KeyAt(m.cells, node), 0), node);
    assert SameVersions(m.cells, m'.cells);
    forall i | l < i < w.h
      ensures Fresh(m'.cells, m'.levels, node, i) && PrevFor(m'.cells, m'.levels, KeyAt(m'.cells, node), w.prevs[i], i)
    {
      SearchStays(m.cells, m.levels, m'.cells, m'.levels, node, w.prevs, i);
    }
    assert Level(m'.cells, m'.levels[0], 0);
  }

  lemma StoreAgain(cells: seq<Cell>, n: nat, l: nat, target: nat)
    requires n < |cells| && l < |cells[n].next| && cells[n].next[l] == target
    ensures StoreNext(cells, n, l, target) == cells
  {
    assert cells[n].next[l := target] == cells[n].next;
  }

  /** Every step of the writer keeps the links sorted and nested, and only adds to them. */
  lemma WriterStepIsSafe(m: Mem, w: Writer, m': Mem, w': Writer)
    requires MemOK(m) && WriterInv(m, w) && WriterStep(m, w, m', w')
    ensures MemOK(m') && Grows(m, m') && WriterInv(m', w')
  {
    if h: nat :| WriterRaises(m, w, m', w', h) {
    } else if v, prevs, h: nat :| WriterAllocates(m, w, m', w', v, prevs, h) {
      AllocIsSafe(m, w, m', w', v, prevs, h);
    } else if WriterArms(m, w, m', w') {
      ArmIsSafe(m, w, m', w');
    } else if WriterLinks(m, w, m', w') {
      LinkIsSafe(m, w, m', w');
    } else if n: nat :| WriterMarks(m, w, m', w', n) {
      MarkIsSafe(m, m', w, n);
    }
  }

  // ------------------------------------------------------------- the readers' steps

  lemma PastStays(m: Mem, m': Mem, seen: Mem)
    requires MemOK(m) && MemOK(m') && Grows(m, m') && Past(m, seen)
    ensures Past(m', seen)
  {
  }

  lemma NodesStay(m: Mem, m': Mem, a: nat, b: nat)
    requires Grows(m, m') && a < |m.cells| && b < |m.cells|
    ensures NodeBefore(m.cells, a, b) == NodeBefore(m'.cells, a, b)
  {
  }

  lemma GapStays(m: Mem, m': Mem, seen: Mem, q: Query, prev: nat, idx: nat)
    requires MemOK(m) && MemOK(m') && Grows(m, m') && Past(m, seen) && prev < |m.cells| && idx < |m.cells|
    requires Gap(m, seen, q, prev, idx)
    ensures Past(m', seen) && Gap(m', seen, q, prev, idx)
  {
    PastStays(m, m', seen);
    forall n | n in seen.levels[0] && VisibleAt(seen, q, n)
      ensures || (prev != 0 && (n == prev || NodeBefore(m'.cells, n, prev)))
              || (idx != 0 && (n == idx || NodeBefore(m'.cells, idx, n)))
    {
      NodesStay(m, m', n, prev);
      NodesStay(m, m', idx, n);
    }
  }

  /** No step of the writer disturbs a reader, wherever that reader is. */
  lemma ReaderInvStays(m: Mem, m': Mem, r: Reader)
    requires MemOK(m) && MemOK(m') && Grows(m, m') && ReaderInv(m, r)
    ensures ReaderInv(m', r)
  {
    match r.pc
    case Compared(_, _, _, seen) => PastStays(m, m', seen);
    case Walk(prev, idx, _, _, seen) => GapStays(m, m', seen, r.q, prev, idx);
    case LoadNext(_, _, _, seen) => PastStays(m, m', seen);
    case Done(_, _, _, seen) => PastStays(m, m', seen);
    case _ =>
  }

  lemma GrowsItself(m: Mem)
    requires MemOK(m)
    ensures Past(m, m)
  {
  }

  /** The load of next[level]: at level 0 it may be the answer of the search. */
  lemma LoadLink(m: Mem, level: nat, k: MVCCKey, idx: nat) returns (p: nat)
    requires MemOK(m) && level < MAX_HEIGHT && idx in m.levels[level] && idx < |m.cells|
    requires idx == 0 || NodeKeyLess(KeyAt(m.cells, idx), k)
    ensures Level(m.cells, m.levels[level], level)
    ensures p < |m.levels[level]| && m.levels[level][p] == idx
    ensures m.cells[idx].next[level] == Successor(m.levels[level], p)
    ensures var next := m.cells[idx].next[level];
      && next < |m.cells| && (next != 0 ==> next in m.levels[level])
      && (level == 0 && (next == 0 || !NodeKeyLess(KeyAt(m.cells, next), k)) ==>
            next == Successor(m.levels[0], LowerBound(Abs(m), k)))
  {
    var chain := m.levels[level];
    assert Level(m.cells, chain, level);
    p := if idx == 0 then 0 else IndexOf(chain, idx);
    PrefixBelow(m.cells, chain, level, k, p);
    PrevPosFromAny(m.cells, chain, k, 0, p);
    if level == 0 {
      PrevPosIsLowerBound(m.cells, chain, k);
    }
    assert m.cells[chain[p]].next[level] == Successor(chain, p);
  }

  lemma AfterSearch(m: Mem, r: Reader)
    requires MemOK(m) && ReaderInv(m, r) && r.pc.Search?
    ensures ReaderInv(m, r.(pc := Advance(m, r)))
  {
    var p := LoadLink(m, r.pc.level, r.Target(), r.pc.idx);
    GrowsItself(m);
  }

  /** When the search lands on no node of the key, the key had no version at that load. */
  lemma NothingFound(seen: Mem, q: Query, next: nat)
    requires MemOK(seen) && next < |seen.cells|
    requires next == Successor(seen.levels[0], LowerBound(Abs(seen), MVCCKey(q.key, MAX_U64)))
    requires next == 0 || KeyAt(seen.cells, next).key == [] || KeyAt(seen.cells, next).key != q.key
    ensures TakesEffectAt(seen, q, None, false)
  {
    var s := Abs(seen);
    var start := LowerBound(s, MVCCKey(q.key, MAX_U64));
    ViewIsSorted(seen.cells, seen.levels[0], 0);
    GroupStart(s, q.key, start);
    if q.key != [] && next != 0 {
      GroupEnd(s, q.key, start);
    }
    NoVersion(s, q);
  }

  lemma NoVersion(s: seq<Version>, q: Query)
    requires q.key != [] ==> forall i :: 0 <= i < |s| ==> !Visible(s[i], q.key, q.snapshot)
    ensures SnapshotRead(s, q.key, q.snapshot) == None
  {
  }

  /** Nothing of the key lies before the node the search lands on. */
  lemma FirstGap(m: Mem, seen: Mem, q: Query, next: nat)
    requires MemOK(m) && Past(m, seen) && 0 < next < |seen.cells|
    requires next == Successor(seen.levels[0], LowerBound(Abs(seen), MVCCKey(q.key, MAX_U64)))
    ensures Gap(m, seen, q, 0, next)
  {
    var s, chain := Abs(seen), seen.levels[0];
    var start := LowerBound(s, MVCCKey(q.key, MAX_U64));
    GroupStart(s, q.key, start);
    forall n | n in chain && VisibleAt(seen, q, n)
      ensures n == next || NodeBefore(m.cells, next, n)
    {
      var i := IndexOf(chain, n);
      assert s[i - 1].key.key == q.key;
      if i != start + 1 {
        assert NodeBefore(seen.cells, chain[start + 1], chain[i]);
        NodesStay(seen, m, next, n);
      }
    }
  }

  lemma AfterCompared(m: Mem, r: Reader)
    requires MemOK(m) && ReaderInv(m, r) && r.pc.Compared?
    ensures ReaderInv(m, r.(pc := Advance(m, r)))
  {
    var idx, level, next, seen := r.pc.idx, r.pc.level, r.pc.next, r.pc.seen;
    if next != 0 && NodeKeyLess(KeyAt(m.cells, next), r.Target()) {
    } else if level > 0 {
      assert NestedAt(m.levels, level);
    } else {
      assert next < |seen.cells| && (next != 0 ==> next in seen.levels[0]);
      if next == 0 || KeyAt(m.cells, next).key == [] || KeyAt(m.cells, next).key != r.q.key {
        NothingFound(seen, r.q, next);
      } else {
        FirstGap(m, seen, r.q, next);
      }
    }
  }

  /** A node at or past the lower bound that is not visible hides nothing visible after it. */
  lemma NotVisibleAfter(cells: seq<Cell>, q: Query, idx: nat, n: nat)
    requires idx < |cells| && n < |cells| && NodeBefore(cells, idx, n)
    requires !NodeKeyLess(KeyAt(cells, idx), MVCCKey(q.key, MAX_U64))
    requires !Visible(cells[idx].version, q.key, q.snapshot)
    ensures !Visible(cells[n].version, q.key, q.snapshot)
  {
    var a, b := KeyAt(cells, idx), KeyAt(cells, n);
    if a.key != q.key {
      PastGroup(q.key, a, b);
    } else {
      NodeKeyLessIsStrictTotalOrder(a, b, b);
    }
  }

  /** The walk stops at idx: what prev said when its flag was loaded is the answer then. */
  lemma WalkEnds(m: Mem, seen: Mem, q: Query, prev: nat, idx: nat, value: Option<Bytes>, found: bool)
    requires MemOK(m) && q.key != [] && Past(m, seen) && prev < |m.cells| && idx < |m.cells|
    requires idx != 0 ==> !NodeKeyLess(KeyAt(m.cells, idx), MVCCKey(q.key, MAX_U64))
    requires idx != 0 ==> !Visible(m.cells[idx].version, q.key, q.snapshot)
    requires Gap(m, seen, q, prev, idx)
    requires prev == 0 ==> !found && value == None
    requires prev != 0 ==> prev in seen.levels[0] && VisibleAt(seen, q, prev) && SaidAt(seen, prev, value, found)
    ensures TakesEffectAt(seen, q, value, found) && (found ==> AnswerOf(seen, q, prev, value))
  {
    var s, chain := Abs(seen), seen.levels[0];
    forall i | 0 <= i < |s| && Visible(s[i], q.key, q.snapshot)
      ensures prev != 0 && (chain[i + 1] == prev || NodeBefore(seen.cells, chain[i + 1], prev))
    {
      OnlyBefore(m, seen, q, prev, idx, chain[i + 1]);
    }
    if prev == 0 {
      NoVersion(s, q);
    } else {
      var p := IndexOf(chain, prev);
      forall i | p - 1 < i < |s| ensures !Visible(s[i], q.key, q.snapshot) {
        NodesDiffer(seen.cells, chain, p, i + 1);
        ChainDistinct(seen.cells, chain, p, i + 1);
      }
      LastVisibleIs(s, q.key, q.snapshot, p - 1);
    }
  }

  /** What was visible at seen is prev or lies before it. */
  lemma OnlyBefore(m: Mem, seen: Mem, q: Query, prev: nat, idx: nat, n: nat)
    requires MemOK(m) && Past(m, seen) && prev < |seen.cells| && idx < |m.cells|
    requires idx != 0 ==> !NodeKeyLess(KeyAt(m.cells, idx), MVCCKey(q.key, MAX_U64))
    requires idx != 0 ==> !Visible(m.cells[idx].version, q.key, q.snapshot)
    requires Gap(m, seen, q, prev, idx)
    requires n in seen.levels[0] && VisibleAt(seen, q, n)
    ensures prev != 0 && (n == prev || NodeBefore(seen.cells, n, prev))
  {
    if idx != 0 && NodeBefore(m.cells, idx, n) {
      NotVisibleAfter(m.cells, q, idx, n);
    }
    NodesStay(seen, m, n, prev);
  }

  lemma AfterWalk(m: Mem, r: Reader)
    requires MemOK(m) && ReaderInv(m, r) && r.pc.Walk?
    ensures ReaderInv(m, r.(pc := Advance(m, r)))
  {
    var prev, idx := r.pc.prev, r.pc.idx;
    if Advance(m, r).Done? {
      WalkEnds(m, r.pc.seen, r.q, prev, idx, r.pc.value, r.pc.found);
    } else {
      GrowsItself(m);
    }
  }

  /** The load of next[0] of a visible node: nothing seen before lies in the step it makes. */
  lemma NextGap(m: Mem, seen: Mem, q: Query, idx: nat)
    requires MemOK(m) && Past(m, seen) && idx in m.levels[0] && 0 < idx < |m.cells|
    requires !NodeKeyLess(KeyAt(m.cells, idx), MVCCKey(q.key, MAX_U64))
    ensures var next := m.cells[idx].next[0];
      && next < |m.cells| && Gap(m, seen, q, idx, next)
      && (next != 0 ==> next in m.levels[0] && !NodeKeyLess(KeyAt(m.cells, next), MVCCKey(q.key, MAX_U64)))
  {
    var chain := m.levels[0];
    var p := IndexOf(chain, idx);
    var next := m.cells[idx].next[0];
    assert next == Successor(chain, p);
    forall n | n in seen.levels[0] && VisibleAt(seen, q, n)
      ensures n == idx || NodeBefore(m.cells, n, idx) || (next != 0 && (n == next || NodeBefore(m.cells, next, n)))
    {
      assert n in chain;
      var i := IndexOf(chain, n);
      if i < p {
        assert NodeBefore(m.cells, chain[i], chain[p]);
      } else if i > p + 1 {
        assert NodeBefore(m.cells, chain[p + 1], chain[i]);
      }
    }
    if next != 0 {
      assert NodeBefore(m.cells, chain[p], chain[p + 1]);
      NodeKeyLessIsStrictTotalOrder(KeyAt(m.cells, idx), KeyAt(m.cells, next), MVCCKey(q.key, MAX_U64));
    }
  }

  /** Every step of a reader keeps what is known of it. */
  lemma ReaderStepIsSafe(m: Mem, r: Reader)
    requires MemOK(m) && ReaderInv(m, r)
    ensures ReaderInv(m, r.(pc := Advance(m, r)))
  {
    match r.pc
    case Start =>
      assert Level(m.cells, m.levels[m.height - 1], m.height - 1);
      assert m.levels[m.height - 1][0] == 0;
    case Search(_, _) => AfterSearch(m, r);
    case Compared(_, _, _, _) => AfterCompared(m, r);
    case Walk(_, _, _, _, _) => AfterWalk(m, r);
    case LoadValue(_) => GrowsItself(m);
    case LoadNext(idx, _, _, seen) => NextGap(m, seen, r.q, idx);
    case Done(_, _, _, _) =>
  }

  // ------------------------------------------------------------------ all runs

  lemma InitInv(s: State)
    requires Init(s)
    ensures Inv(s)
  {
    assert Linked(s.mem.cells, s.mem.levels);
    assert Level(s.mem.cells, s.mem.levels[0], 0);
  }

  lemma NextInv(s: State, s': State)
    requires Inv(s) && Next(s, s')
    ensures Inv(s')
  {
    if WriterStep(s.mem, s.writer, s'.mem, s'.writer) && s'.readers == s.readers {
      WriterStepIsSafe(s.mem, s.writer, s'.mem, s'.writer);
      forall i | 0 <= i < |s.readers| ensures ReaderInv(s'.mem, s'.readers[i]) {
        ReaderInvStays(s.mem, s'.mem, s.readers[i]);
      }
    } else {
      var i: nat :| ReaderMoves(s, s', i);
      ReaderStepIsSafe(s.mem, s.readers[i]);
    }
  }

  /** A run: an initial state, then steps of the writer and of any reader in any order. */
  ghost predicate Run(run: seq<State>) {
    && |run| > 0 && Init(run[0])
    && forall i :: 0 <= i < |run| - 1 ==> Inv(run[i]) ==> Next(run[i], run[i + 1])
  }

  /** In every state of every run all levels are sorted, nested and free of links to the head. */
  lemma {:induction false} RunKeepsInv(run: seq<State>, n: nat)
    requires Run(run) && n < |run|
    ensures Inv(run[n])
  {
    if n == 0 {
      InitInv(run[0]);
    } else {
      RunKeepsInv(run, n - 1);
      assert Next(run[n - 1], run[n]);
      NextInv(run[n - 1], run[n]);
    }
  }

  /** The memory a reader remembers, if its state has one. */
  function Seen(pc: PC): Option<Mem> {
    match pc
    case Compared(_, _, _, seen) => Some(seen)
    case Walk(_, _, _, _, seen) => Some(seen)
    case LoadNext(_, _, _, seen) => Some(seen)
    case Done(_, _, _, seen) => Some(seen)
    case _ => None
  }

  predicate Running(pc: PC) {
    !pc.Start? && !pc.Done?
  }

  /** It is the memory of an earlier state in which that very read was under way. */
  lemma {:induction false} SeenIsPast(run: seq<State>, n: nat, r: nat)
    requires Run(run) && n < |run| && r < |run[n].readers| && Seen(run[n].readers[r].pc).Some?
    ensures exists j ::
      && 0 <= j < n && run[j].mem == Seen(run[n].readers[r].pc).value
      && r < |run[j].readers| && Running(run[j].readers[r].pc)
  {
    assert n > 0;
    var s, s' := run[n - 1], run[n];
    RunKeepsInv(run, n - 1);
    assert Next(s, s');
    var before, after := s.readers[r].pc, s'.readers[r].pc;
    if Seen(before) == Seen(after) {
      SeenIsPast(run, n - 1, r);
    }
  }

  /** The state j is the one in which the read loaded the link that it now compares. */
  ghost predicate LoadedAt(run: seq<State>, n: nat, r: nat, j: nat)
    requires n < |run| && r < |run[n].readers| && run[n].readers[r].pc.Compared?
  {
    var reader, pc := run[n].readers[r], run[n].readers[r].pc;
    && j < n && run[j].mem == pc.seen
    && r < |run[j].readers| && run[j].readers[r] == reader.(pc := Search(pc.idx, pc.level))
    && forall k :: j < k <= n ==> r < |run[k].readers| && run[k].readers[r] == reader
  }

  lemma {:induction false} FindLoad(run: seq<State>, n: nat, r: nat) returns (j: nat)
    requires Run(run) && n < |run| && r < |run[n].readers| && run[n].readers[r].pc.Compared?
    ensures LoadedAt(run, n, r, j)
  {
    assert n > 0;
    var s, s' := run[n - 1], run[n];
    RunKeepsInv(run, n - 1);
    assert Next(s, s');
    if s.readers[r].pc == s'.readers[r].pc {
      j := FindLoad(run, n - 1, r);
    } else {
      j := n - 1;
    }
  }

  /** A search that has loaded its last link holds the first node not below its target in the
      list as it stood at that load. */
  lemma SearchLinearizes(run: seq<State>, n: nat, r: nat)
    requires Run(run) && n < |run| && r < |run[n].readers|
    requires var pc := run[n].readers[r].pc; pc.Compared? && pc.level == 0
    requires var pc := run[n].readers[r].pc;
      || pc.next == 0
      || (pc.next < |run[n].mem.cells| && !NodeKeyLess(KeyAt(run[n].mem.cells, pc.next), run[n].readers[r].Target()))
    ensures exists j: nat ::
      && LoadedAt(run, n, r, j) && MemOK(run[j].mem)
      && run[n].readers[r].pc.next
         == Successor(run[j].mem.levels[0], LowerBound(Abs(run[j].mem), run[n].readers[r].Target()))
  {
    RunKeepsInv(run, n);
    assert ReaderInv(run[n].mem, run[n].readers[r]);
    var j := FindLoad(run, n, r);
  }
}
