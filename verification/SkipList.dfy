/** The memtable skip list: a mutex-protected writer over arena-indexed nodes. */
module SkipList {
  import opened Base
  import opened Keys
  import opened Mvcc
  import opened Versions
  import opened Links

  /** A node height: one level, and another one for each coin that falls right. */
  method RandomHeight() returns (h: nat)
    ensures 1 <= h <= MAX_HEIGHT
  {
    h := 1;
    var coin := *;
    while h < MAX_HEIGHT && coin
      invariant 1 <= h <= MAX_HEIGHT
    {
      h := h + 1;
      coin := *;
    }
  }

  class SkipList {
    var cells: seq<Cell>
    var height: nat
    var length: int
    /** The nodes of each level in order, head first; level 0 holds every node. */
    ghost var levels: seq<seq<nat>>

    ghost predicate Valid()
      reads this
    {
      && Linked(cells, levels)
      && 1 <= height <= MAX_HEIGHT
      && (forall l :: height <= l < MAX_HEIGHT ==> levels[l] == [0])
      && (forall n :: 0 <= n < |cells| ==> n in levels[0])
      && length == LiveCount(Versions())
    }

    /** The abstract state: every version in key order. */
    ghost function Versions(): seq<Version>
      requires Linked(cells, levels)
      reads this
    {
      View(cells, levels[0])
    }

    constructor ()
      ensures Valid() && Versions() == [] && length == 0
    {
      cells := [HEAD];
      height := 1;
      length := 0;
      levels := seq(MAX_HEIGHT, _ => [0]);
    }

    /** Walks level until the next node is not below key. */
    method WalkLevel(key: MVCCKey, level: nat, start: nat, ghost p0: nat) returns (idx: nat, nextIdx: nat, ghost p: nat)
      requires Linked(cells, levels) && level < MAX_HEIGHT
      requires p0 < |levels[level]| && levels[level][p0] == start < |cells|
      requires start == 0 || NodeKeyLess(KeyAt(cells, start), key)
      ensures Level(cells, levels[level], level)
      ensures p == PrevPos(cells, levels[level], key, 0)
      ensures idx == levels[level][p] && nextIdx == Successor(levels[level], p)
      ensures idx < |cells| && (idx == 0 || NodeKeyLess(KeyAt(cells, idx), key))
    {
      ghost var chain := levels[level];
      assert Level(cells, chain, level);
      p := p0;
      PrefixBelow(cells, chain, level, key, p);
      PrevPosFromAny(cells, chain, key, 0, p);
      idx := start;
      nextIdx := cells[idx].next[level];
      while nextIdx != 0 && NodeKeyLess(KeyAt(cells, nextIdx), key)
        invariant p < |chain| && chain[p] == idx && nextIdx == Successor(chain, p)
        invariant idx == 0 || NodeKeyLess(KeyAt(cells, idx), key)
        invariant PrevPos(cells, chain, key, 0) == PrevPos(cells, chain, key, p)
        decreases |chain| - p
      {
        p := p + 1;
        idx := nextIdx;
        nextIdx := cells[idx].next[level];
      }
    }

    /** The index of the first node not below key, by descending the levels. The loop on
        level is left only by the return at level 0, since height is at least 1. */
    method FindGreaterOrEqual(key: MVCCKey) returns (found: nat)
      requires Valid()
      ensures found == Successor(levels[0], LowerBound(Versions(), key))
    {
      var idx: nat, level: nat := 0, height - 1;
      ghost var p: nat := 0;
      assert Level(cells, levels[level], level);
      while true
        invariant 0 <= level < MAX_HEIGHT
        invariant p < |levels[level]| && levels[level][p] == idx < |cells|
        invariant idx == 0 || NodeKeyLess(KeyAt(cells, idx), key)
        decreases level
      {
        var nextIdx;
        idx, nextIdx, p := WalkLevel(key, level, idx, p);
        if level == 0 {
          PrevPosIsLowerBound(cells, levels[0], key);
          return nextIdx;
        }
        p := PositionBelow(cells, levels, level, idx);
        level := level - 1;
      }
    }

    /** The descent of a writer: prevs[l] is the last node of level l below key. */
    method FindPrevs(key: MVCCKey) returns (prevs: seq<nat>, existing: nat)
      requires Valid()
      ensures PrevsFor(cells, levels, key, prevs)
      ensures existing != 0 <==> Has(Versions(), key)
    {
      prevs := seq(MAX_HEIGHT, _ => 0);
      existing := 0;
      var idx: nat, level: int := 0, height - 1;
      ghost var p: nat := 0;
      forall l | height <= l < MAX_HEIGHT ensures PrevFor(cells, levels, key, prevs[l], l) {
        assert levels[l] == [0] && Level(cells, levels[l], l);
      }
      assert Level(cells, levels[level], level);
      while level >= 0
        invariant -1 <= level < MAX_HEIGHT && |prevs| == MAX_HEIGHT
        invariant level >= 0 ==> p < |levels[level]| && levels[level][p] == idx < |cells|
        invariant level >= 0 ==> idx == 0 || NodeKeyLess(KeyAt(cells, idx), key)
        invariant forall l :: level < l < MAX_HEIGHT ==> PrevFor(cells, levels, key, prevs[l], l)
        invariant level >= 0 ==> existing == 0
        invariant level < 0 ==> (existing != 0 <==> Has(Versions(), key))
        decreases level
      {
        var nextIdx;
        idx, nextIdx, p := WalkLevel(key, level, idx, p);
        if level == 0 {
          PrevPosIsLowerBound(cells, levels[0], key);
          if nextIdx != 0 && KeyAt(cells, nextIdx) == key {
            existing := nextIdx;
          }
        }
        prevs := prevs[level := idx];
        if level > 0 {
          p := PositionBelow(cells, levels, level, idx);
        }
        level := level - 1;
      }
    }

    /** Allocates a node of height h and links it level by level from the bottom. */
    method LinkNewNode(version: Version, prevs: seq<nat>, h: nat)
      requires Valid() && 1 <= h <= MAX_HEIGHT
      requires PrevsFor(cells, levels, version.key, prevs)
      requires Has(Versions(), version.key) ==> version.key.key == []
      modifies this`cells, this`height, this`levels
      ensures Linked(cells, levels) && 1 <= height <= MAX_HEIGHT
      ensures forall l :: height <= l < MAX_HEIGHT ==> levels[l] == [0]
      ensures forall n :: 0 <= n < |cells| ==> n in levels[0]
      ensures Versions() == InsertAt(old(Versions()), LowerBound(old(Versions()), version.key), version)
    {
      ghost var s, k := Versions(), version.key;
      if h > height {
        height := h;
      }
      var cell := Cell(version, h, seq(MAX_HEIGHT, _ => 0));
      var node := |cells|;
      AllocReady(cells, cell, levels, prevs);
      cells := cells + [cell];

      ghost var levels1 := levels;
      LinkLevels(node, prevs, h);
      forall n | 0 <= n < |cells| ensures n in levels[0] {
        assert n < node ==> n in levels1[0];
      }
    }

    /** Links node at the levels below h, the lowest first: two stores a level. */
    method LinkLevels(node: nat, prevs: seq<nat>, h: nat)
      requires Linked(cells, levels) && node < |cells| && 1 <= h <= MAX_HEIGHT
      requires forall l :: 0 <= l < MAX_HEIGHT ==> Fresh(cells, levels, node, l)
      requires PrevsFor(cells, levels, KeyAt(cells, node), prevs)
      modifies this`cells, this`levels
      ensures Progress(old(cells), old(levels), cells, levels, node, h)
      ensures var s, version := old(Versions()), old(cells[node].version);
        Versions() == InsertAt(s, LowerBound(s, version.key), version)
    {
      hide LowerBound, InsertAt;
      ghost var cells1, levels1, s := cells, levels, Versions();
      for l := 0 to h
        invariant Progress(cells1, levels1, cells, levels, node, l)
        invariant Versions()
          == if l == 0 then s else InsertAt(s, LowerBound(s, KeyAt(cells1, node)), cells1[node].version)
      {
        ProgressStep(cells1, levels1, cells, levels, prevs, node, l);
        ghost var after := Relevelled(cells, levels, l, node);
        var nextIdx := cells[prevs[l]].next[l];
        cells := StoreNext(cells, node, l, nextIdx);
        cells := StoreNext(cells, prevs[l], l, node);
        levels := after;
      }
    }

    /** Inserts a version unless its exact key is there already. */
    method Put(key: MVCCKey, value: Option<Bytes>) returns (inserted: bool)
      requires Valid()
      modifies this
      ensures Valid()
      ensures inserted <==> !Has(old(Versions()), key)
      ensures Versions() == PutInto(old(Versions()), key, value)
    {
      var h := RandomHeight();
      var prevs, existing := FindPrevs(key);
      if existing != 0 {
        return false;
      }
      ghost var s := Versions();
      LiveCountInsert(s, LowerBound(s, key), Version(key, value, false));
      LinkNewNode(Version(key, value, false), prevs, h);
      length := length + 1;
      return true;
    }

    /** The node with exactly this key, 0 when there is none or its key is nil. */
    method FindExact(key: MVCCKey) returns (found: nat)
      requires Valid()
      ensures found != 0 <==> HasExact(Versions(), key)
      ensures found != 0 ==> found == Successor(levels[0], LowerBound(Versions(), key))
    {
      var nodeIdx := FindGreaterOrEqual(key);
      if nodeIdx == 0 {
        return 0;
      }
      var nk := KeyAt(cells, nodeIdx);
      if nk.key == [] || nk != key {
        return 0;
      }
      return nodeIdx;
    }

    /** Marks a node as a tombstone in place. */
    method MarkNode(nodeIdx: nat, ghost key: MVCCKey)
      requires Valid() && HasExact(Versions(), key)
      requires nodeIdx == Successor(levels[0], LowerBound(Versions(), key)) && !cells[nodeIdx].version.deleted
      modifies this
      ensures Valid()
      ensures Versions() == MarkDeleted(old(Versions()), key)
    {
      ghost var s, p := Versions(), LowerBound(Versions(), key);
      assert nodeIdx == levels[0][p + 1] && s[p] == cells[nodeIdx].version;
      ghost var before := cells;
      cells := cells[nodeIdx := cells[nodeIdx].(version := cells[nodeIdx].version.(deleted := true))];
      length := length - 1;
      MarkKeepsLinked(before, cells, levels, nodeIdx);
      LiveCountMark(s, p);
      assert Level(before, levels[0], 0);
      MarkView(before, cells, levels[0], p + 1);
    }

    /** Marks an existing exact version as deleted. */
    method Delete(key: MVCCKey) returns (deleted: bool)
      requires Valid()
      modifies this
      ensures Valid()
      ensures deleted <==> HasExact(old(Versions()), key) && !old(Versions())[LowerBound(old(Versions()), key)].deleted
      ensures Versions() == if deleted then MarkDeleted(old(Versions()), key) else old(Versions())
    {
      var nodeIdx := FindExact(key);
      if nodeIdx == 0 {
        return false;
      }
      if cells[nodeIdx].version.deleted {
        return false;
      }
      MarkNode(nodeIdx, key);
      return true;
    }

    /** A tombstone at the given version, created when there is no such version. */
    method DeleteWithTS(key: MVCCKey) returns (changed: bool)
      requires Valid()
      modifies this
      ensures Valid()
      ensures Versions() == DeleteInto(old(Versions()), key)
      ensures !changed ==> Versions() == old(Versions())
      ensures changed
        <==> !(HasExact(old(Versions()), key) && old(Versions())[LowerBound(old(Versions()), key)].deleted)
    {
      ghost var s := Versions();
      var nodeIdx := FindExact(key);
      if nodeIdx != 0 {
        if cells[nodeIdx].version.deleted {
          assert s[LowerBound(s, key)] == cells[nodeIdx].version;
          return false;
        }
        MarkNode(nodeIdx, key);
        return true;
      }
      var h := RandomHeight();
      var prevs, _ := FindPrevs(key);
      LiveCountInsert(s, LowerBound(s, key), Tombstone(key));
      LinkNewNode(Tombstone(key), prevs, h);
      return true;
    }

    method Len() returns (n: int)
      requires Valid()
      ensures n == |Live(Versions())|
    {
      LiveFromLength(Versions(), 0);
      return length;
    }

    /** The value of key at the snapshot: the last version at or before it in the group. */
    method Get(key: MVCCKey) returns (value: Option<Bytes>, found: bool)
      requires Valid()
      ensures SnapshotRead(Versions(), key.key, key.CommitTS()) == if found then Some(value) else None
    {
      ghost var s := Versions();
      ghost var start := LowerBound(s, MVCCKey(key.key, MAX_U64));
      assert Level(cells, levels[0], 0);
      ViewIsSorted(cells, levels[0], 0);
      GroupStart(s, key.key, start);
      var oldest := FindGreaterOrEqual(MVCCKey(key.key, MAX_U64));
      if oldest == 0 {
        return None, false;
      }
      var first := KeyAt(cells, oldest);
      if first.key == [] || first.key != key.key {
        if first.key != key.key {
          GroupEnd(s, key.key, start);
        }
        return None, false;
      }
      value, found := WalkVersions(key.key, key.CommitTS(), oldest, start);
    }

    method WalkVersions(key: Bytes, snapshotTS: U64, oldest: nat, ghost start: nat)
      returns (value: Option<Bytes>, found: bool)
      requires Linked(cells, levels) && key != []
      requires start == LowerBound(Versions(), MVCCKey(key, MAX_U64)) && oldest == Successor(levels[0], start)
      ensures SnapshotRead(Versions(), key, snapshotTS) == if found then Some(value) else None
    {
      ghost var s := Versions();
      assert Level(cells, levels[0], 0);
      ViewIsSorted(cells, levels[0], 0);
      GroupStart(s, key, start);
      var idx: nat := oldest;
      value, found := None, false;
      ghost var i := start;
      while idx != 0
        invariant start <= i <= |s| && idx == Successor(levels[0], i)
        invariant i == start ==> !found && value == None
        invariant i > start ==> Visible(s[i - 1], key, snapshotTS)
        invariant i > start ==> found == !s[i - 1].deleted && value == ValueOf(s[i - 1])
        decreases |s| - i
      {
        var n := cells[idx].version;
        assert n == s[i];
        if n.key.key != key {
          GroupEnd(s, key, i);
          break;
        }
        if n.key.CommitTS() > snapshotTS {
          LaterInvisible(s, i, key, snapshotTS);
          break;
        }
        if !n.deleted {
          value, found := ValueOf(n), true;
        } else {
          value, found := None, false;
        }
        idx := cells[idx].next[0];
        i := i + 1;
      }
      if i > start {
        LastVisibleIs(s, key, snapshotTS, i - 1);
      }
    }

    /** The latest live version of key, else its newest tombstone's timestamp, else nothing. */
    method GetLatest(key: Bytes) returns (value: Option<Bytes>, ts: U64, found: bool)
      requires Valid()
      ensures Latest(value, ts, found) == LatestOf(Versions(), key)
    {
      assert Level(cells, levels[0], 0);
      ViewIsSorted(cells, levels[0], 0);
      var idx := FindGreaterOrEqual(MVCCKey(key, MAX_U64));
      var latest, tombstone := WalkLatest(key, idx);
      match latest {
        case Some(v) => return v.value, v.key.CommitTS(), true;
        case None =>
          match tombstone {
            case Some(t) => return None, t.key.CommitTS(), false;
            case None => return None, 0, false;
          }
      }
    }

    method WalkLatest(key: Bytes, first: nat) returns (latest: Option<Version>, tombstone: Option<Version>)
      requires Linked(cells, levels) && Sorted(Versions())
      requires first == Successor(levels[0], LowerBound(Versions(), MVCCKey(key, MAX_U64)))
      ensures latest == LastLive(Versions(), key)
      ensures latest.None? ==> tombstone == LastVisible(Versions(), key, MAX_U64)
    {
      hide LowerBound, LastLive, LastVisible, Sorted, NodeKeyLess, Compare;
      ghost var s := Versions();
      ghost var start := LowerBound(s, MVCCKey(key, MAX_U64));
      assert Level(cells, levels[0], 0);
      GroupStart(s, key, start);
      NothingBefore(s, key, start);
      latest, tombstone := None, None;
      var idx: nat := first;
      ghost var i := start;
      while idx != 0
        invariant start <= i <= |s| && idx == Successor(levels[0], i)
        invariant latest == LastLive(s[..i], key)
        invariant latest.None? ==> tombstone == LastVisible(s[..i], key, MAX_U64)
        decreases |s| - i
      {
        var n := cells[idx].version;
        assert n == s[i];
        if n.key.key != key {
          GroupEnd(s, key, i);
          break;
        }
        OneMore(s, key, i);
        if !n.deleted {
          latest := Some(n);
        } else {
          tombstone := Some(n);
        }
        idx := cells[idx].next[0];
        i := i + 1;
      }
      NothingAfter(s, key, i);
    }
  }

  /** Forward iteration over the nodes that are not tombstones. */
  class SkipListIterator {
    const list: SkipList
    var current: nat
    var done: bool
    ghost var pos: nat

    ghost predicate Valid()
      reads this, list
    {
      && Linked(list.cells, list.levels) && Level(list.cells, list.levels[0], 0)
      && pos < |list.levels[0]| && current == list.levels[0][pos]
      && (done ==> Remaining() == [])
    }

    /** What the iterator has still to yield, in order. */
    ghost function Remaining(): seq<Version>
      requires Linked(list.cells, list.levels) && pos < |list.levels[0]|
      reads this, list
    {
      LiveFrom(list.Versions(), pos)
    }

    constructor (l: SkipList)
      requires l.Valid()
      ensures Valid() && list == l && Remaining() == Live(l.Versions())
    {
      list := l;
      current := 0;
      done := false;
      pos := 0;
      assert Level(l.cells, l.levels[0], 0);
    }

    method Next() returns (more: bool)
      requires Valid()
      modifies this
      ensures Valid()
      ensures more <==> old(Remaining()) != []
      ensures more ==> Version() == old(Remaining())[0] && Remaining() == old(Remaining())[1..]
    {
      if done {
        return false;
      }
      ghost var s := list.Versions();
      while true
        invariant pos <= |s| && current == list.levels[0][pos]
        invariant !done && LiveFrom(s, pos) == LiveFrom(s, old(pos))
        decreases |s| - pos
      {
        var nextIdx: nat := list.cells[current].next[0];
        assert nextIdx == Successor(list.levels[0], pos);
        if nextIdx == 0 {
          done := true;
          return false;
        }
        current := nextIdx;
        pos := pos + 1;
        if !list.cells[current].version.deleted {
          return true;
        }
      }
    }

    /** The current node's key, and its value as Value() reads it. */
    function Version(): (v: Version)
      requires Valid()
      reads this, list
    {
      list.cells[current].version
    }
  }

  lemma {:induction false} NothingBefore(s: seq<Version>, key: Bytes, i: nat)
    requires i <= |s| && forall j :: 0 <= j < i ==> s[j].key.key != key
    ensures LastLive(s[..i], key) == None && LastVisible(s[..i], key, MAX_U64) == None
  {
    if i > 0 {
      NothingBefore(s, key, i - 1);
      assert s[..i][..i - 1] == s[..i - 1];
    }
  }

  lemma OneMore(s: seq<Version>, key: Bytes, i: nat)
    requires i < |s| && s[i].key.key == key
    ensures LastLive(s[..i + 1], key) == if s[i].deleted then LastLive(s[..i], key) else Some(s[i])
    ensures LastVisible(s[..i + 1], key, MAX_U64) == Some(s[i])
  {
    assert s[..i + 1][..i] == s[..i];
  }

  lemma NothingAfter(s: seq<Version>, key: Bytes, i: nat)
    requires i <= |s| && forall j :: i <= j < |s| ==> s[j].key.key != key
    ensures LastLive(s[..i], key) == LastLive(s, key)
    ensures LastVisible(s[..i], key, MAX_U64) == LastVisible(s, key, MAX_U64)
    decreases |s|
  {
    if i < |s| {
      NothingAfter(s[..|s| - 1], key, i);
      assert s[..|s| - 1][..i] == s[..i];
    } else {
      assert s[..i] == s;
    }
  }

  /** Two nodes in the order of a chain are not in the other order. */
  lemma NodesDiffer(cells: seq<Cell>, chain: seq<nat>, i: nat, j: nat)
    requires InArena(cells, chain) && Ordered(cells, chain) && 0 < i < j < |chain|
    ensures !NodeBefore(cells, chain[j], chain[i])
  {
    assert NodeBefore(cells, chain[i], chain[j]);
    NodeKeyLessIsStrictTotalOrder(KeyAt(cells, chain[i]), KeyAt(cells, chain[j]), KeyAt(cells, chain[i]));
  }

  /** Each level is a subsequence of the one below: its nodes keep their relative order there. */
  lemma UpperLevelIsSubsequence(cells: seq<Cell>, levels: seq<seq<nat>>, l: nat, i: nat, j: nat)
    requires Linked(cells, levels) && 0 < l < MAX_HEIGHT && 0 < i < j < |levels[l]|
    ensures PositionBelow(cells, levels, l, levels[l][i]) < PositionBelow(cells, levels, l, levels[l][j])
  {
    assert Level(cells, levels[l], l) && Level(cells, levels[l - 1], l - 1);
    var a, b := levels[l][i], levels[l][j];
    assert NodeBefore(cells, a, b);
    var p, q := PositionBelow(cells, levels, l, a), PositionBelow(cells, levels, l, b);
    NodeKeyLessIsStrictTotalOrder(KeyAt(cells, a), KeyAt(cells, b), KeyAt(cells, b));
    if q < p {
      NodesDiffer(cells, levels[l - 1], q, p);
    }
  }

  ghost predicate PrevFor(cells: seq<Cell>, levels: seq<seq<nat>>, key: MVCCKey, prev: nat, l: nat)
    requires Linked(cells, levels) && l < MAX_HEIGHT
  {
    Level(cells, levels[l], l) && prev == levels[l][PrevPos(cells, levels[l], key, 0)]
  }

  ghost predicate PrevsFor(cells: seq<Cell>, levels: seq<seq<nat>>, key: MVCCKey, prevs: seq<nat>)
    requires Linked(cells, levels)
  {
    |prevs| == MAX_HEIGHT && forall l :: 0 <= l < MAX_HEIGHT ==> PrevFor(cells, levels, key, prevs[l], l)
  }

  ghost predicate Fresh(cells: seq<Cell>, levels: seq<seq<nat>>, node: nat, l: nat)
    requires Linked(cells, levels) && l < MAX_HEIGHT
  {
    Level(cells, levels[l], l) && FreshFor(cells, levels[l], node)
  }

  ghost predicate SameVersions(a: seq<Cell>, b: seq<Cell>) {
    |a| == |b| && forall n :: 0 <= n < |a| ==> a[n].version == b[n].version
  }

  /** node is linked on the first l levels of what was (cells1, levels1). */
  ghost predicate Progress(cells1: seq<Cell>, levels1: seq<seq<nat>>, cells: seq<Cell>, levels: seq<seq<nat>>,
                           node: nat, l: nat) {
    && |levels1| == |levels| == MAX_HEIGHT
    && Linked(cells, levels) && SameVersions(cells1, cells)
    && (forall m :: l <= m < MAX_HEIGHT ==> levels[m] == levels1[m])
    && (0 < l <= MAX_HEIGHT ==> node in levels[l - 1] && node in levels[0])
    && (forall n :: n in levels1[0] ==> n in levels[0])
  }

  /** One more level: the search made before any link was touched is still right for it. */
  lemma ProgressStep(cells1: seq<Cell>, levels1: seq<seq<nat>>, cells: seq<Cell>, levels: seq<seq<nat>>,
                     prevs: seq<nat>, node: nat, l: nat)
    requires Linked(cells1, levels1) && Progress(cells1, levels1, cells, levels, node, l)
    requires l < MAX_HEIGHT && node < |cells|
    requires Fresh(cells1, levels1, node, l) && |prevs| == MAX_HEIGHT
    requires PrevFor(cells1, levels1, KeyAt(cells1, node), prevs[l], l)
    ensures Level(cells, levels[l], l) && Level(cells, levels[0], 0)
    ensures prevs[l] < |cells| && prevs[l] != node
    ensures var cells' := LinkAfter(cells, prevs[l], node, l);
      var levels' := Relevelled(cells, levels, l, node);
      && Progress(cells1, levels1, cells', levels', node, l + 1)
      && Level(cells', levels'[0], 0)
      && View(cells', levels'[0]) ==
         var s := View(cells, levels[0]);
         if l == 0 then InsertAt(s, LowerBound(s, KeyAt(cells, node)), cells[node].version) else s
  {
    assert Level(cells, levels[l], l) && Level(cells, levels[0], 0);
    PrevPosSame(cells1, cells, levels[l], KeyAt(cells, node), 0);
    LinkStep(cells, levels, l, node);
    LinkStepView(cells, levels, l, node);
    SplicedMembers(levels[l], PrevPos(cells, levels[l], KeyAt(cells, node), 0), node);
    var levels' := Relevelled(cells, levels, l, node);
    assert Level(LinkAfter(cells, prevs[l], node, l), levels'[0], 0);
  }

  /** A node of one level has a position on the level below. */
  ghost function PositionBelow(cells: seq<Cell>, levels: seq<seq<nat>>, level: nat, n: nat): (p: nat)
    requires Linked(cells, levels) && 0 < level < MAX_HEIGHT && n in levels[level]
    ensures p < |levels[level - 1]| && levels[level - 1][p] == n
  {
    assert NestedAt(levels, level);
    IndexOf(levels[level - 1], n)
  }

  /** Allocation keeps the links and the search, and the new node is fresh everywhere. */
  lemma AllocReady(cells: seq<Cell>, cell: Cell, levels: seq<seq<nat>>, prevs: seq<nat>)
    requires Linked(cells, levels) && |cell.next| == MAX_HEIGHT && |cells| > 0
    requires Level(cells, levels[0], 0)
    requires Has(View(cells, levels[0]), cell.version.key) ==> cell.version.key.key == []
    requires PrevsFor(cells, levels, cell.version.key, prevs)
    ensures Linked(cells + [cell], levels) && Level(cells + [cell], levels[0], 0)
    ensures View(cells + [cell], levels[0]) == View(cells, levels[0])
    ensures forall l :: 0 <= l < MAX_HEIGHT ==> Fresh(cells + [cell], levels, |cells|, l)
    ensures PrevsFor(cells + [cell], levels, cell.version.key, prevs)
  {
    AllocKeepsLinked(cells, cell, levels);
    AllocKeepsLevel(cells, cell, levels[0], 0);
    forall l | 0 <= l < MAX_HEIGHT
      ensures Fresh(cells + [cell], levels, |cells|, l)
      ensures PrevFor(cells + [cell], levels, cell.version.key, prevs[l], l)
    {
      assert Level(cells, levels[l], l) && PrevFor(cells, levels, cell.version.key, prevs[l], l);
      NewNodeIsFresh(cells, cell, levels, l);
      AllocKeepsLevel(cells, cell, levels[l], l);
    }
  }

  lemma MarkKeepsLinked(a: seq<Cell>, b: seq<Cell>, levels: seq<seq<nat>>, n: nat)
    requires Linked(a, levels) && n < |a|
    requires b == a[n := a[n].(version := a[n].version.(deleted := true))]
    ensures Linked(b, levels)
  {
    forall l | 0 <= l < MAX_HEIGHT ensures Level(b, levels[l], l) {
      var chain := levels[l];
      assert Level(a, chain, l);
      forall i, j | 1 <= i < j < |chain| ensures NodeBefore(b, chain[i], chain[j]) {
        assert NodeBefore(a, chain[i], chain[j]);
      }
    }
  }

  lemma MarkView(a: seq<Cell>, b: seq<Cell>, chain: seq<nat>, i: nat)
    requires Level(a, chain, 0) && 0 < i < |chain|
    requires b == a[chain[i] := a[chain[i]].(version := a[chain[i]].version.(deleted := true))]
    ensures var s := View(a, chain);
      View(b, chain) == s[i - 1 := s[i - 1].(deleted := true)]
  {
    forall j | 0 <= j < |chain| && j != i ensures chain[j] != chain[i] {
      ChainDistinct(a, chain, if i < j then i else j, if i < j then j else i);
    }
  }

  /** A position of n in the chain. */
  ghost function IndexOf(chain: seq<nat>, n: nat): (i: nat)
    requires n in chain
    ensures i < |chain| && chain[i] == n
  {
    var i :| 0 <= i < |chain| && chain[i] == n;
    i
  }
}
