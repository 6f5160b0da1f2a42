/** The arena-indexed links of the skip list: cells, levels, and what one link store does. */
module Links {
  import opened Base
  import opened Keys
  import opened Mvcc
  import opened Versions

  const MAX_HEIGHT: nat := 20

  /** A node in the arena. Index 0 is the head; a link to index 0 is the null link. */
  datatype Cell = Cell(version: Version, height: nat, next: seq<nat>)

  const HEAD := Cell(Version(MVCCKey([], 0), None, false), MAX_HEIGHT, seq(MAX_HEIGHT, _ => 0))

  function KeyAt(cells: seq<Cell>, n: nat): MVCCKey
    requires n < |cells|
  {
    cells[n].version.key
  }

  /** One atomic store into a next link. */
  function StoreNext(cells: seq<Cell>, n: nat, l: nat, target: nat): seq<Cell>
    requires n < |cells| && l < |cells[n].next|
  {
    cells[n := cells[n].(next := cells[n].next[l := target])]
  }

  /** The order of nodes: by key, and the newer node first among nodes of the empty user key. */
  ghost predicate NodeBefore(cells: seq<Cell>, a: nat, b: nat)
    requires a < |cells| && b < |cells|
  {
    var ka, kb := KeyAt(cells, a), KeyAt(cells, b);
    NodeKeyLess(ka, kb) || (ka == kb && ka.key == [] && a > b)
  }

  ghost predicate InArena(cells: seq<Cell>, chain: seq<nat>) {
    && |chain| > 0 && chain[0] == 0
    && (forall n :: 0 <= n < |cells| ==> |cells[n].next| == MAX_HEIGHT)
    && (forall i :: 0 <= i < |chain| ==> chain[i] < |cells|)
    && (forall i :: 1 <= i < |chain| ==> chain[i] != 0)
  }

  /** Where the link of the i-th node of a chain must point. */
  function Successor(chain: seq<nat>, i: nat): nat
    requires i < |chain|
  {
    if i + 1 < |chain| then chain[i + 1] else 0
  }

  /** The links of level l spell out chain, head first, and never lead back to the head. */
  ghost predicate Spells(cells: seq<Cell>, chain: seq<nat>, l: nat)
    requires l < MAX_HEIGHT
  {
    && InArena(cells, chain)
    && (forall i {:trigger Successor(chain, i)} ::
         0 <= i < |chain| ==> cells[chain[i]].next[l] == Successor(chain, i))
  }

  /** The nodes of the chain after the head are in node order. */
  ghost predicate Ordered(cells: seq<Cell>, chain: seq<nat>)
    requires forall i :: 0 <= i < |chain| ==> chain[i] < |cells|
  {
    forall i, j {:trigger NodeBefore(cells, chain[i], chain[j])} ::
      1 <= i < j < |chain| ==> NodeBefore(cells, chain[i], chain[j])
  }

  ghost predicate Level(cells: seq<Cell>, chain: seq<nat>, l: nat)
    requires l < MAX_HEIGHT
  {
    Spells(cells, chain, l) && Ordered(cells, chain)
  }

  /** Every node of level l is also on the level below. */
  ghost predicate NestedAt(levels: seq<seq<nat>>, l: nat)
    requires 0 < l < |levels|
  {
    forall n :: n in levels[l] ==> n in levels[l - 1]
  }

  ghost predicate Linked(cells: seq<Cell>, levels: seq<seq<nat>>) {
    && |levels| == MAX_HEIGHT
    && (forall l :: 0 <= l < MAX_HEIGHT ==> Level(cells, levels[l], l))
    && (forall l :: 0 < l < MAX_HEIGHT ==> NestedAt(levels, l))
  }

  /** The versions along a chain, the head left out. */
  function View(cells: seq<Cell>, chain: seq<nat>): (s: seq<Version>)
    requires |chain| > 0 && forall i :: 0 <= i < |chain| ==> chain[i] < |cells|
    ensures |s| == |chain| - 1
    ensures forall i :: 0 <= i < |s| ==> s[i] == cells[chain[i + 1]].version
  {
    seq(|chain| - 1, i requires 0 <= i < |chain| - 1 => cells[chain[i + 1]].version)
  }

  /** The position in the chain, from p on, of the last node before the first one not below k. */
  function PrevPos(cells: seq<Cell>, chain: seq<nat>, k: MVCCKey, p: nat): (q: nat)
    requires p < |chain| && forall i :: 0 <= i < |chain| ==> chain[i] < |cells|
    ensures p <= q < |chain|
    decreases |chain| - p
  {
    if p + 1 < |chain| && NodeKeyLess(KeyAt(cells, chain[p + 1]), k)
    then PrevPos(cells, chain, k, p + 1) else p
  }

  /** Everything up to there is below k, and the next node is not. */
  lemma {:induction false} PrevPosSplits(cells: seq<Cell>, chain: seq<nat>, k: MVCCKey, p: nat)
    requires p < |chain| && forall i :: 0 <= i < |chain| ==> chain[i] < |cells|
    ensures var q := PrevPos(cells, chain, k, p);
      && (forall i :: p < i <= q ==> NodeKeyLess(KeyAt(cells, chain[i]), k))
      && (q + 1 < |chain| ==> !NodeKeyLess(KeyAt(cells, chain[q + 1]), k))
    decreases |chain| - p
  {
    if p + 1 < |chain| && NodeKeyLess(KeyAt(cells, chain[p + 1]), k) {
      PrevPosSplits(cells, chain, k, p + 1);
    }
  }

  /** The search may start at any node below k: it ends at the same place. */
  lemma {:induction false} PrevPosFromAny(cells: seq<Cell>, chain: seq<nat>, k: MVCCKey, p: nat, q: nat)
    requires p <= q < |chain| && forall i :: 0 <= i < |chain| ==> chain[i] < |cells|
    requires forall i :: p < i <= q ==> NodeKeyLess(KeyAt(cells, chain[i]), k)
    ensures PrevPos(cells, chain, k, p) == PrevPos(cells, chain, k, q)
    decreases q - p
  {
    if p < q {
      PrevPosFromAny(cells, chain, k, p + 1, q);
    }
  }

  lemma ViewIsSorted(cells: seq<Cell>, chain: seq<nat>, l: nat)
    requires l < MAX_HEIGHT && Level(cells, chain, l)
    ensures Sorted(View(cells, chain))
  {
    var s := View(cells, chain);
    forall i, j | 0 <= i < j < |s|
      ensures NodeKeyLess(s[i].key, s[j].key) || (s[i].key == s[j].key && s[i].key.key == [])
    {
      assert NodeBefore(cells, chain[i + 1], chain[j + 1]);
    }
  }

  /** Every node up to a node below k is below k. */
  lemma PrefixBelow(cells: seq<Cell>, chain: seq<nat>, l: nat, k: MVCCKey, q: nat)
    requires l < MAX_HEIGHT && Level(cells, chain, l) && q < |chain|
    requires q == 0 || NodeKeyLess(KeyAt(cells, chain[q]), k)
    ensures forall i :: 0 < i <= q ==> NodeKeyLess(KeyAt(cells, chain[i]), k)
  {
    forall i | 0 < i < q ensures NodeKeyLess(KeyAt(cells, chain[i]), k) {
      assert NodeBefore(cells, chain[i], chain[q]);
      NodeKeyLessIsStrictTotalOrder(KeyAt(cells, chain[i]), KeyAt(cells, chain[q]), k);
    }
  }

  lemma PrevPosIsLowerBound(cells: seq<Cell>, chain: seq<nat>, k: MVCCKey)
    requires |chain| > 0 && forall i :: 0 <= i < |chain| ==> chain[i] < |cells|
    ensures PrevPos(cells, chain, k, 0) == LowerBound(View(cells, chain), k)
  {
    var p := PrevPos(cells, chain, k, 0);
    var s := View(cells, chain);
    PrevPosSplits(cells, chain, k, 0);
    forall i | 0 <= i < p ensures NodeKeyLess(s[i].key, k) {
      assert NodeKeyLess(KeyAt(cells, chain[i + 1]), k);
    }
    LowerBoundIs(s, k, p);
  }

  /** A store at level l changes nothing at another level. */
  lemma OtherLevelsKept(a: seq<Cell>, b: seq<Cell>, l: nat, m: nat, chain: seq<nat>)
    requires SameButLevel(a, b, l) && m < MAX_HEIGHT && m != l && Level(a, chain, m)
    ensures Level(b, chain, m) && View(b, chain) == View(a, chain)
  {
    OrderedKept(a, b, l, chain);
  }

  // ------------------------------------------------------------------ linking

  function Spliced(chain: seq<nat>, p: nat, node: nat): seq<nat>
    requires p < |chain|
  {
    chain[..p + 1] + [node] + chain[p + 1..]
  }

  /** The two stores that link node after chain[p] at level l. */
  function LinkAfter(cells: seq<Cell>, prev: nat, node: nat, l: nat): seq<Cell>
    requires prev < |cells| && node < |cells| && prev != node
    requires l < |cells[prev].next| && l < |cells[node].next|
  {
    StoreNext(StoreNext(cells, node, l, cells[prev].next[l]), prev, l, node)
  }

  /** Cells that differ in links only, at most at level l and in the named nodes. */
  ghost predicate SameButLevel(a: seq<Cell>, b: seq<Cell>, l: nat) {
    && |a| == |b|
    && forall n :: 0 <= n < |a| ==>
         && a[n].version == b[n].version
         && a[n].height == b[n].height
         && |a[n].next| == |b[n].next|
         && forall m :: 0 <= m < |a[n].next| && m != l ==> a[n].next[m] == b[n].next[m]
  }

  /** A node that was just allocated: newer than every node of the chain, and with a key of
      its own unless its user key is empty. */
  ghost predicate FreshFor(cells: seq<Cell>, chain: seq<nat>, node: nat)
    requires InArena(cells, chain)
  {
    && 0 < node < |cells|
    && (forall i :: 0 <= i < |chain| ==> chain[i] < node)
    && (forall i :: 1 <= i < |chain| && KeyAt(cells, chain[i]) == KeyAt(cells, node) ==> KeyAt(cells, node).key == [])
  }

  lemma NodeBetween(cells: seq<Cell>, chain: seq<nat>, l: nat, node: nat, p: nat)
    requires l < MAX_HEIGHT && Level(cells, chain, l) && FreshFor(cells, chain, node)
    requires p == PrevPos(cells, chain, KeyAt(cells, node), 0)
    ensures forall i :: 1 <= i <= p ==> NodeBefore(cells, chain[i], node)
    ensures forall j :: p < j < |chain| ==> NodeBefore(cells, node, chain[j])
  {
    var k := KeyAt(cells, node);
    PrevPosSplits(cells, chain, k, 0);
    forall j | p < j < |chain| ensures NodeBefore(cells, node, chain[j]) {
      var kp, kj := KeyAt(cells, chain[p + 1]), KeyAt(cells, chain[j]);
      NodeKeyLessIsStrictTotalOrder(k, kp, kj);
      if p + 1 < j {
        assert NodeBefore(cells, chain[p + 1], chain[j]);
      }
    }
  }

  lemma SplicedSorted(cells: seq<Cell>, chain: seq<nat>, l: nat, node: nat, p: nat)
    requires l < MAX_HEIGHT && Level(cells, chain, l) && FreshFor(cells, chain, node)
    requires p == PrevPos(cells, chain, KeyAt(cells, node), 0)
    ensures Ordered(cells, Spliced(chain, p, node))
  {
    NodeBetween(cells, chain, l, node, p);
    var r := Spliced(chain, p, node);
    forall i, j | 1 <= i < j < |r| ensures NodeBefore(cells, r[i], r[j]) {
      if i != p + 1 && j != p + 1 {
        var i', j' := if i <= p then i else i - 1, if j <= p then j else j - 1;
        assert NodeBefore(cells, chain[i'], chain[j']);
      }
    }
  }

  lemma ChainDistinct(cells: seq<Cell>, chain: seq<nat>, i: nat, j: nat)
    requires InArena(cells, chain) && Ordered(cells, chain) && i < j < |chain|
    ensures chain[i] != chain[j]
  {
    if i > 0 {
      assert NodeBefore(cells, chain[i], chain[j]);
      var k := KeyAt(cells, chain[i]);
      NodeKeyLessIsStrictTotalOrder(k, k, k);
    }
  }

  /** The links of one level, node by node. */
  function Column(cells: seq<Cell>, l: nat): (col: seq<nat>)
    requires forall n :: 0 <= n < |cells| ==> l < |cells[n].next|
    ensures |col| == |cells| && forall n :: 0 <= n < |col| ==> col[n] == cells[n].next[l]
  {
    seq(|cells|, n requires 0 <= n < |cells| => cells[n].next[l])
  }

  function Relinked(col: seq<nat>, prev: nat, node: nat): seq<nat>
    requires prev < |col| && node < |col|
  {
    col[node := col[prev]][prev := node]
  }

  /** On one column: linking node after chain[p] splices it into the chain. */
  lemma SpliceColumn(col: seq<nat>, chain: seq<nat>, p: nat, node: nat, r: seq<nat>)
    requires p < |chain| && node < |col| && r == Spliced(chain, p, node)
    requires forall i :: 0 <= i < |chain| ==>
      chain[i] < |col| && chain[i] != node && col[chain[i]] == Successor(chain, i)
    requires forall i :: 0 <= i < |chain| && i != p ==> chain[i] != chain[p]
    ensures forall i :: 0 <= i < |r| ==>
      r[i] < |col| && Relinked(col, chain[p], node)[r[i]] == Successor(r, i)
  {
    forall i | 0 <= i < |r|
      ensures r[i] < |col| && Relinked(col, chain[p], node)[r[i]] == Successor(r, i)
    {
      assert r[i] == if i <= p then chain[i] else if i == p + 1 then node else chain[i - 1];
    }
  }

  /** A link store touches one column only. */
  lemma LinkAfterSame(cells: seq<Cell>, prev: nat, node: nat, l: nat)
    requires prev < |cells| && node < |cells| && prev != node
    requires forall n :: 0 <= n < |cells| ==> l < |cells[n].next|
    ensures SameButLevel(cells, LinkAfter(cells, prev, node, l), l)
    ensures Column(LinkAfter(cells, prev, node, l), l) == Relinked(Column(cells, l), prev, node)
  {
    var c := LinkAfter(cells, prev, node, l);
    assert SameButLevel(cells, c, l);
    forall n | 0 <= n < |c|
      ensures c[n].next[l] == Relinked(Column(cells, l), prev, node)[n]
    {
    }
  }

  lemma SplicedSpells(cells: seq<Cell>, c: seq<Cell>, chain: seq<nat>, l: nat, node: nat, p: nat)
    requires l < MAX_HEIGHT && p < |chain| && Spells(cells, chain, l)
    requires 0 < node < |cells| && forall i :: 0 <= i < |chain| ==> chain[i] != node
    requires forall i :: 0 <= i < |chain| && i != p ==> chain[i] != chain[p]
    requires SameButLevel(cells, c, l) && Column(c, l) == Relinked(Column(cells, l), chain[p], node)
    ensures Spells(c, Spliced(chain, p, node), l)
  {
    SpliceColumn(Column(cells, l), chain, p, node, Spliced(chain, p, node));
  }

  lemma OrderedKept(a: seq<Cell>, b: seq<Cell>, l: nat, chain: seq<nat>)
    requires SameButLevel(a, b, l) && |chain| > 0
    requires (forall i :: 0 <= i < |chain| ==> chain[i] < |a|) && Ordered(a, chain)
    ensures Ordered(b, chain) && View(b, chain) == View(a, chain)
  {
    forall i, j | 1 <= i < j < |chain| ensures NodeBefore(b, chain[i], chain[j]) {
      assert NodeBefore(a, chain[i], chain[j]);
    }
  }

  /** Linking a new node after the last node below its key keeps the level sorted. */
  lemma LinkLevel(cells: seq<Cell>, chain: seq<nat>, l: nat, node: nat, p: nat)
    requires l < MAX_HEIGHT && Level(cells, chain, l) && FreshFor(cells, chain, node)
    requires p == PrevPos(cells, chain, KeyAt(cells, node), 0)
    ensures Level(LinkAfter(cells, chain[p], node, l), Spliced(chain, p, node), l)
    ensures SameButLevel(cells, LinkAfter(cells, chain[p], node, l), l)
  {
    LinkAfterSame(cells, chain[p], node, l);
    forall i | 0 <= i < |chain| && i != p ensures chain[i] != chain[p] {
      ChainDistinct(cells, chain, if i < p then i else p, if i < p then p else i);
    }
    SplicedSpells(cells, LinkAfter(cells, chain[p], node, l), chain, l, node, p);
    SplicedSorted(cells, chain, l, node, p);
    OrderedKept(cells, LinkAfter(cells, chain[p], node, l), l, Spliced(chain, p, node));
  }

  lemma {:induction false} OnLevelZero(levels: seq<seq<nat>>, l: nat, n: nat)
    requires |levels| == MAX_HEIGHT && l < MAX_HEIGHT && n in levels[l]
    requires forall m :: 0 < m < MAX_HEIGHT ==> NestedAt(levels, m)
    ensures n in levels[0]
  {
    if l > 0 {
      assert NestedAt(levels, l);
      OnLevelZero(levels, l - 1, n);
    }
  }

  lemma SplicedMembers(chain: seq<nat>, p: nat, node: nat)
    requires p < |chain|
    ensures forall n :: n in Spliced(chain, p, node) <==> n in chain || n == node
  {
    assert chain == chain[..p + 1] + chain[p + 1..];
  }

  /** The levels after node is linked at level l. */
  function Relevelled(cells: seq<Cell>, levels: seq<seq<nat>>, l: nat, node: nat): seq<seq<nat>>
    requires l < |levels| && node < |cells|
    requires |levels[l]| > 0 && forall i :: 0 <= i < |levels[l]| ==> levels[l][i] < |cells|
  {
    levels[l := Spliced(levels[l], PrevPos(cells, levels[l], KeyAt(cells, node), 0), node)]
  }

  /** Linking at level l, the lower levels first, keeps the whole structure. */
  lemma LinkStep(cells: seq<Cell>, levels: seq<seq<nat>>, l: nat, node: nat)
    requires Linked(cells, levels) && l < MAX_HEIGHT && Level(cells, levels[l], l) && FreshFor(cells, levels[l], node)
    requires l > 0 ==> node in levels[l - 1]
    ensures var prev := levels[l][PrevPos(cells, levels[l], KeyAt(cells, node), 0)];
      && prev != node
      && Linked(LinkAfter(cells, prev, node, l), Relevelled(cells, levels, l, node))
      && SameButLevel(cells, LinkAfter(cells, prev, node, l), l)
  {
    var chain := levels[l];
    var p := PrevPos(cells, chain, KeyAt(cells, node), 0);
    var cells', levels' := LinkAfter(cells, chain[p], node, l), Relevelled(cells, levels, l, node);
    LinkLevel(cells, chain, l, node, p);
    SplicedMembers(chain, p, node);
    forall m | 0 <= m < MAX_HEIGHT ensures Level(cells', levels'[m], m) {
      assert Level(cells, levels[m], m);
      if m != l {
        OtherLevelsKept(cells, cells', l, m, levels[m]);
      }
    }
    forall m | 0 < m < MAX_HEIGHT ensures NestedAt(levels', m) {
      assert NestedAt(levels, m);
    }
  }

  /** What linking does to the versions: at level 0 a sorted insertion, above it nothing. */
  lemma LinkStepView(cells: seq<Cell>, levels: seq<seq<nat>>, l: nat, node: nat)
    requires Linked(cells, levels) && l < MAX_HEIGHT && Level(cells, levels[l], l) && FreshFor(cells, levels[l], node)
    requires Level(cells, levels[0], 0)
    requires l > 0 ==> node in levels[l - 1]
    ensures var s := View(cells, levels[0]);
      var prev := levels[l][PrevPos(cells, levels[l], KeyAt(cells, node), 0)];
      && prev != node
      && var levels' := Relevelled(cells, levels, l, node);
      && |levels'[0]| > 0 && (forall i :: 0 <= i < |levels'[0]| ==> levels'[0][i] < |cells|)
      && View(LinkAfter(cells, prev, node, l), levels'[0])
         == if l == 0 then InsertAt(s, LowerBound(s, KeyAt(cells, node)), cells[node].version) else s
  {
    LinkStep(cells, levels, l, node);
    var k := KeyAt(cells, node);
    var p := PrevPos(cells, levels[l], k, 0);
    var cells' := LinkAfter(cells, levels[l][p], node, l);
    if l > 0 {
      OtherLevelsKept(cells, cells', l, 0, levels[0]);
    } else {
      PrevPosIsLowerBound(cells, levels[0], k);
      SplicedView(cells, cells', levels[0], p, node);
    }
  }

  lemma SplicedView(cells: seq<Cell>, cells': seq<Cell>, chain: seq<nat>, p: nat, node: nat)
    requires |cells'| == |cells| && node < |cells| && p < |chain|
    requires forall i :: 0 <= i < |chain| ==> chain[i] < |cells|
    requires forall n :: 0 <= n < |cells| ==> cells'[n].version == cells[n].version
    ensures forall i :: 0 <= i < |chain| + 1 ==> Spliced(chain, p, node)[i] < |cells'|
    ensures View(cells', Spliced(chain, p, node)) == InsertAt(View(cells, chain), p, cells[node].version)
  {
    var r := Spliced(chain, p, node);
    forall i | 0 <= i < |r| ensures r[i] == if i <= p then chain[i] else if i == p + 1 then node else chain[i - 1] {
    }
    var a, b := View(cells', r), InsertAt(View(cells, chain), p, cells[node].version);
    assert |a| == |b|;
    forall i | 0 <= i < |a| ensures a[i] == b[i] {
    }
  }

  // --------------------------------------------------------------- allocation

  /** A new cell at the end of the arena touches no level. */
  lemma AllocKeepsLevel(cells: seq<Cell>, cell: Cell, chain: seq<nat>, l: nat)
    requires l < MAX_HEIGHT && Level(cells, chain, l) && |cell.next| == MAX_HEIGHT
    ensures Level(cells + [cell], chain, l)
    ensures View(cells + [cell], chain) == View(cells, chain)
    ensures forall k :: PrevPos(cells + [cell], chain, k, 0) == PrevPos(cells, chain, k, 0)
  {
    var c := cells + [cell];
    forall i, j | 1 <= i < j < |chain| ensures NodeBefore(c, chain[i], chain[j]) {
      assert NodeBefore(cells, chain[i], chain[j]);
    }
    forall k ensures PrevPos(c, chain, k, 0) == PrevPos(cells, chain, k, 0) {
      PrevPosSame(cells, c, chain, k, 0);
    }
  }

  lemma {:induction false} PrevPosSame(a: seq<Cell>, b: seq<Cell>, chain: seq<nat>, k: MVCCKey, p: nat)
    requires p < |chain|
    requires forall i :: 0 <= i < |chain| ==>
      chain[i] < |a| && chain[i] < |b| && a[chain[i]].version == b[chain[i]].version
    ensures PrevPos(a, chain, k, p) == PrevPos(b, chain, k, p)
    decreases |chain| - p
  {
    if p + 1 < |chain| {
      PrevPosSame(a, b, chain, k, p + 1);
    }
  }

  lemma AllocKeepsLinked(cells: seq<Cell>, cell: Cell, levels: seq<seq<nat>>)
    requires Linked(cells, levels) && |cell.next| == MAX_HEIGHT
    ensures Linked(cells + [cell], levels)
  {
    forall l | 0 <= l < MAX_HEIGHT ensures Level(cells + [cell], levels[l], l) {
      AllocKeepsLevel(cells, cell, levels[l], l);
    }
  }

  /** A node just allocated is fresh for every level when its key is new, or its user key empty. */
  lemma NewNodeIsFresh(cells: seq<Cell>, cell: Cell, levels: seq<seq<nat>>, l: nat)
    requires Linked(cells, levels) && |cell.next| == MAX_HEIGHT && l < MAX_HEIGHT
    requires Level(cells, levels[0], 0) && Level(cells, levels[l], l) && |cells| > 0
    requires var s := View(cells, levels[0]); Has(s, cell.version.key) ==> cell.version.key.key == []
    ensures Level(cells + [cell], levels[l], l) && FreshFor(cells + [cell], levels[l], |cells|)
  {
    AllocKeepsLevel(cells, cell, levels[l], l);
    var k := cell.version.key;
    var s := View(cells, levels[0]);
    forall i | 1 <= i < |levels[l]| && KeyAt(cells, levels[l][i]) == k ensures k.key == [] {
      var n := levels[l][i];
      OnLevelZero(levels, l, n);
      var j :| 0 <= j < |levels[0]| && levels[0][j] == n;
      assert s[j - 1].key == k;
      ViewIsSorted(cells, levels[0], 0);
      HasMeansMember(s, k);
    }
  }
}
