/** The merge of sorted sources through a heap that is ordered by user key alone. */
module Merge {
  import opened Base
  import opened Keys

  /** An entry of a source: user key, commit timestamp and value. */
  datatype Item = Item(key: Bytes, ts: U64, value: Option<Bytes>)

  /** A source: what it still holds, and whether an error ends it. */
  datatype Source = Source(items: seq<Item>, fails: bool)

  /** The pairs by which entries are told apart. */
  function PairOf(x: Item): (Bytes, U64) {
    (x.key, x.ts)
  }

  ghost predicate SortedItems(items: seq<Item>) {
    forall i, j :: 0 <= i < j < |items| ==> Compare(items[i].key, items[j].key) <= 0
  }

  function PairsOf(items: seq<Item>): set<(Bytes, U64)> {
    set x <- items :: PairOf(x)
  }

  function ItemSet(items: seq<Item>): set<Item> {
    set x <- items
  }

  /** Every entry that some source still holds. */
  function ItemsIn(heap: seq<Source>): set<Item> {
    if heap == [] then {} else ItemsIn(heap[1..]) + ItemSet(heap[0].items)
  }

  function PairsIn(heap: seq<Source>): set<(Bytes, U64)> {
    if heap == [] then {} else PairsIn(heap[1..]) + PairsOf(heap[0].items)
  }

  function Total(heap: seq<Source>): nat {
    if heap == [] then 0 else Total(heap[1..]) + |heap[0].items|
  }

  /** Every source in the heap has an entry and is sorted; the first has the smallest key. */
  ghost predicate IsHeap(heap: seq<Source>) {
    && (forall s :: s in heap ==> s.items != [] && SortedItems(s.items))
    && forall s :: s in heap ==> Compare(heap[0].items[0].key, s.items[0].key) <= 0
  }

  /** No pair has a smaller key. */
  ghost predicate AllFrom(pairs: set<(Bytes, U64)>, key: Bytes) {
    forall p :: p in pairs ==> Compare(key, p.0) <= 0
  }

  lemma AllFromSubset(pairs: set<(Bytes, U64)>, more: set<(Bytes, U64)>, key: Bytes)
    requires AllFrom(more, key) && pairs <= more
    ensures AllFrom(pairs, key)
  {
  }

  lemma AllFromAt(pairs: set<(Bytes, U64)>, key: Bytes, p: (Bytes, U64))
    requires AllFrom(pairs, key) && p in pairs
    ensures Compare(key, p.0) <= 0
  {
  }

  lemma {:induction false} PairsInHas(heap: seq<Source>, s: Source)
    requires s in heap
    ensures PairsOf(s.items) <= PairsIn(heap) && ItemSet(s.items) <= ItemsIn(heap) && |s.items| <= Total(heap)
  {
    if s != heap[0] {
      PairsInHas(heap[1..], s);
    }
  }

  lemma {:induction false} PairsInFrom(heap: seq<Source>, p: (Bytes, U64)) returns (s: Source)
    requires p in PairsIn(heap)
    ensures s in heap && p in PairsOf(s.items)
  {
    if p in PairsOf(heap[0].items) {
      s := heap[0];
    } else {
      s := PairsInFrom(heap[1..], p);
    }
  }

  /** In a heap no pair has a key below that of the first source. */
  lemma HeadIsLeast(heap: seq<Source>)
    requires IsHeap(heap) && heap != []
    ensures AllFrom(PairsIn(heap), heap[0].items[0].key)
  {
    forall p | p in PairsIn(heap) ensures Compare(heap[0].items[0].key, p.0) <= 0 {
      var s := PairsInFrom(heap, p);
      var i :| 0 <= i < |s.items| && PairOf(s.items[i]) == p;
      CompareIsTotalOrder(heap[0].items[0].key, s.items[0].key, p.0);
      CompareZero(p.0, p.0);
    }
  }

  /** Some source with a smallest key comes first. Which one, among equal keys, and the order of
      the others, is up to the heap. */
  method Heapify(sources: seq<Source>) returns (heap: seq<Source>)
    requires forall s :: s in sources ==> s.items != [] && SortedItems(s.items)
    ensures IsHeap(heap) && PairsIn(heap) == PairsIn(sources) && ItemsIn(heap) == ItemsIn(sources)
    ensures Total(heap) == Total(sources)
  {
    if sources == [] {
      return [];
    }
    var best, rest := sources[0], sources[1..];
    var others: seq<Source> := [];
    CompareZero(best.items[0].key, best.items[0].key);
    while rest != []
      invariant forall s :: s in others || s in rest || s == best ==> s.items != [] && SortedItems(s.items)
      invariant forall s :: s in others ==> Compare(best.items[0].key, s.items[0].key) <= 0
      invariant PairsIn(sources) == PairsOf(best.items) + PairsIn(others) + PairsIn(rest)
      invariant ItemsIn(sources) == ItemSet(best.items) + ItemsIn(others) + ItemsIn(rest)
      invariant Total(sources) == |best.items| + Total(others) + Total(rest)
      decreases |rest|
    {
      var s := rest[0];
      rest := rest[1..];
      CompareIsTotalOrder(s.items[0].key, best.items[0].key, s.items[0].key);
      if Compare(s.items[0].key, best.items[0].key) < 0 {
        forall o | o in others ensures Compare(s.items[0].key, o.items[0].key) <= 0 {
          CompareIsTotalOrder(s.items[0].key, best.items[0].key, o.items[0].key);
        }
        PairsInCons(best, others);
        others := [best] + others;
        best := s;
      } else {
        PairsInCons(s, others);
        others := [s] + others;
      }
    }
    CompareZero(best.items[0].key, best.items[0].key);
    PairsInCons(best, others);
    return [best] + others;
  }

  lemma PairsInCons(s: Source, rest: seq<Source>)
    ensures PairsIn([s] + rest) == PairsOf(s.items) + PairsIn(rest) && Total([s] + rest) == |s.items| + Total(rest)
    ensures ItemsIn([s] + rest) == ItemSet(s.items) + ItemsIn(rest)
  {
    assert ([s] + rest)[1..] == rest;
  }

  lemma {:induction false} PairsInAppend(a: seq<Source>, s: Source)
    ensures PairsIn(a + [s]) == PairsIn(a) + PairsOf(s.items) && Total(a + [s]) == Total(a) + |s.items|
    ensures ItemsIn(a + [s]) == ItemsIn(a) + ItemSet(s.items)
  {
    if a == [] {
      PairsInCons(s, []);
      assert [s] + [] == [s] && [] + [s] == [s];
    } else {
      PairsInAppend(a[1..], s);
      assert (a + [s])[1..] == a[1..] + [s];
    }
  }

  lemma EmptyHeap(heap: seq<Source>)
    ensures heap == [] ==> PairsIn(heap) == {}
  {
  }

  lemma HeapEntries(heap: seq<Source>)
    requires IsHeap(heap)
    ensures heap != [] ==>
      heap[0].items != [] && PairOf(heap[0].items[0]) in PairsIn(heap) && heap[0].items[0] in ItemsIn(heap)
  {
    if heap != [] {
      PairsInHas(heap, heap[0]);
      assert heap[0].items[0] in heap[0].items;
    }
  }

  /** A source that moves on gives up one pair and stays sorted. */
  lemma AdvancedPairs(s: Source)
    requires s.items != [] && SortedItems(s.items)
    ensures PairsOf(s.items) == {PairOf(s.items[0])} + PairsOf(s.items[1..]) && SortedItems(s.items[1..])
    ensures ItemSet(s.items) == {s.items[0]} + ItemSet(s.items[1..])
    ensures |s.items| == 1 ==> PairsOf(s.items) == {PairOf(s.items[0])} && ItemSet(s.items) == {s.items[0]}
  {
    assert s.items == [s.items[0]] + s.items[1..];
  }

  class MergeIterator {
    var heap: seq<Source>
    var err: bool
    var key: Bytes
    var ts: U64
    var value: Option<Bytes>

    ghost predicate Valid()
      reads this
    {
      IsHeap(heap)
    }

    /** addSource for every source, then the heap. An empty source that fails is an error. */
    constructor (sources: seq<Source>)
      requires forall s :: s in sources ==> SortedItems(s.items)
      ensures Valid() && PairsIn(heap) == PairsIn(sources) && ItemsIn(heap) == ItemsIn(sources)
      ensures Total(heap) == Total(sources)
      ensures err <==> exists s :: s in sources && s.items == [] && s.fails
    {
      var live: seq<Source>, failed := [], false;
      for i := 0 to |sources|
        invariant forall s :: s in live ==> s.items != [] && SortedItems(s.items)
        invariant PairsIn(live) == PairsIn(sources[..i]) && ItemsIn(live) == ItemsIn(sources[..i])
        invariant Total(live) == Total(sources[..i])
        invariant failed <==> exists s :: s in sources[..i] && s.items == [] && s.fails
      {
        var s := sources[i];
        assert sources[..i + 1] == sources[..i] + [s];
        PairsInAppend(sources[..i], s);
        PairsInAppend(live, s);
        if s.items == [] {
          if s.fails {
            failed := true;
          }
        } else {
          live := live + [s];
        }
      }
      assert sources[..|sources|] == sources;
      var ordered := Heapify(live);
      heap := ordered;
      err := failed;
      key, ts, value := [], 0, None;
    }

    /** The first source gives up its current entry and goes back if it has another one. */
    method Advance() returns (ok: bool)
      requires Valid() && heap != []
      modifies this`heap, this`err
      ensures Valid() && Total(heap) == old(Total(heap)) - 1
      ensures PairsIn(heap) + {PairOf(old(heap)[0].items[0])} == old(PairsIn(heap))
      ensures ItemsIn(heap) + {old(heap)[0].items[0]} == old(ItemsIn(heap))
      ensures ok == !(|old(heap)[0].items| == 1 && old(heap)[0].fails) && err == (old(err) || !ok)
    {
      hide PairsIn, ItemsIn, Total, PairsOf, ItemSet, SortedItems, Compare;
      var hi := heap[0];
      var rest := heap[1..];
      AdvancedPairs(hi);
      PairsInCons(hi, rest);
      assert heap == [hi] + rest;
      if |hi.items| > 1 {
        var next := hi.(items := hi.items[1..]);
        PairsInCons(next, rest);
        assert forall s :: s in rest ==> s in heap;
        heap := Heapify([next] + rest);
      } else {
        heap := Heapify(rest);
        if hi.fails {
          err := true;
          return false;
        }
      }
      return true;
    }

    /** Next takes the first entry, and drops what repeats its pair at the head of the heap. */
    method Next() returns (more: bool)
      requires Valid()
      modifies this
      ensures Valid() && (old(err) ==> err && !more)
      ensures !more ==> err || heap == []
      ensures !more && !err ==> old(PairsIn(heap)) == {}
      ensures Total(heap) <= old(Total(heap)) && (more ==> !err && Total(heap) < old(Total(heap)))
      ensures more ==> PairsIn(heap) + {(key, ts)} == old(PairsIn(heap)) && AllFrom(PairsIn(heap), key)
      ensures more ==> old(heap) != [] && old(heap)[0].items != [] && Item(key, ts, value) == old(heap)[0].items[0]
      ensures more ==> (key, ts) in old(PairsIn(heap)) && Item(key, ts, value) in old(ItemsIn(heap))
      ensures ItemsIn(heap) <= old(ItemsIn(heap))
      ensures heap != [] ==> heap[0].items != []
      ensures more && heap != [] ==> PairOf(heap[0].items[0]) != (key, ts)
    {
      hide PairsIn, ItemsIn, Total, AllFrom, IsHeap, SortedItems;
      EmptyHeap(heap);
      HeapEntries(heap);
      if err || |heap| == 0 {
        return false;
      }
      ghost var before := PairsIn(heap);
      HeadIsLeast(heap);
      key, ts, value := heap[0].items[0].key, heap[0].items[0].ts, heap[0].items[0].value;
      var ok := Advance();
      AllFromSubset(PairsIn(heap), before, key);
      HeapEntries(heap);
      if !ok {
        return false;
      }
      while |heap| > 0 && heap[0].items[0].key == key && heap[0].items[0].ts == ts
        invariant Valid() && !err && Total(heap) < old(Total(heap)) && Item(key, ts, value) == old(heap)[0].items[0]
        invariant ItemsIn(heap) <= old(ItemsIn(heap))
        invariant PairsIn(heap) + {(key, ts)} == before && AllFrom(PairsIn(heap), key)
        invariant heap != [] ==> heap[0].items != []
        decreases Total(heap)
      {
        ok := Advance();
        AllFromSubset(PairsIn(heap), before, key);
        HeapEntries(heap);
        if !ok {
          return false;
        }
      }
      return true;
    }
  }

  ghost predicate KeysNeverDecrease(out: seq<Item>) {
    forall i :: 0 < i < |out| ==> Compare(out[i - 1].key, out[i].key) <= 0
  }

  ghost predicate NoPairTwiceInARow(out: seq<Item>) {
    forall i :: 0 < i < |out| ==> PairOf(out[i - 1]) != PairOf(out[i])
  }

  /** Draining the merge of sorted sources ends; without an error it yields exactly the pairs
      of all sources, in nondecreasing key order, and no pair twice in a row. */
  method Drain(sources: seq<Source>) returns (out: seq<Item>, failed: bool)
    requires forall s :: s in sources ==> SortedItems(s.items)
    ensures KeysNeverDecrease(out) && NoPairTwiceInARow(out) && ItemSet(out) <= ItemsIn(sources)
    ensures PairsOf(out) <= PairsIn(sources)
    ensures !failed ==> PairsOf(out) == PairsIn(sources)
  {
    hide PairsIn, ItemsIn, ItemSet, Total, AllFrom, IsHeap, SortedItems, KeysNeverDecrease, NoPairTwiceInARow, PairsOf,
      Compare;
    NothingOut();
    var mi := new MergeIterator(sources);
    out := [];
    var more := mi.Next();
    while more
      invariant mi.Valid() && KeysNeverDecrease(out) && NoPairTwiceInARow(out) && PairsOf(out) <= PairsIn(sources)
      invariant ItemSet(out) + (if more then {Item(mi.key, mi.ts, mi.value)} else {}) + ItemsIn(mi.heap)
        <= ItemsIn(sources)
      invariant out != [] && more ==>
        PairOf(out[|out| - 1]) != (mi.key, mi.ts) && Compare(out[|out| - 1].key, mi.key) <= 0
      invariant more ==>
        !mi.err && PairsOf(out) + {(mi.key, mi.ts)} + PairsIn(mi.heap) == PairsIn(sources)
          && AllFrom(PairsIn(mi.heap), mi.key)
      invariant mi.heap != [] ==> mi.heap[0].items != []
      invariant more && mi.heap != [] ==> PairOf(mi.heap[0].items[0]) != (mi.key, mi.ts)
      invariant !more && !mi.err ==> PairsOf(out) == PairsIn(sources)
      decreases Total(mi.heap) + if more then 1 else 0
    {
      ghost var head, pairs := (mi.key, mi.ts), PairsIn(mi.heap);
      OutGrows(out, Item(mi.key, mi.ts, mi.value));
      out := out + [Item(mi.key, mi.ts, mi.value)];
      more := mi.Next();
      if more {
        AllFromAt(pairs, head.0, (mi.key, mi.ts));
      }
    }
    failed := mi.err;
  }

  lemma NothingOut()
    ensures PairsOf([]) == {} && ItemSet([]) == {} && KeysNeverDecrease([]) && NoPairTwiceInARow([])
  {
  }

  lemma OutGrows(out: seq<Item>, x: Item)
    requires KeysNeverDecrease(out) && NoPairTwiceInARow(out)
    requires out != [] ==> PairOf(out[|out| - 1]) != PairOf(x) && Compare(out[|out| - 1].key, x.key) <= 0
    ensures KeysNeverDecrease(out + [x]) && NoPairTwiceInARow(out + [x])
    ensures PairsOf(out + [x]) == PairsOf(out) + {PairOf(x)}
    ensures ItemSet(out + [x]) == ItemSet(out) + {x}
  {
  }
}
