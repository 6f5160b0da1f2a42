/** The filter that turns a stream of versions into one live value per user key. */
module MvccIter {
  import opened Base

  /** An entry of the inner stream; key None is a nil key. */
  datatype Entry = Entry(key: Option<Bytes>, value: Option<Bytes>, deleted: bool)

  datatype KeyValue = KeyValue(key: Bytes, value: Bytes)

  /** Byte equality, which takes nil for empty. */
  predicate SameKey(a: Option<Bytes>, b: Option<Bytes>) {
    (if a.None? then [] else a.value) == (if b.None? then [] else b.value)
  }

  /** Where the versions of the key at i end. */
  function GroupEnd(items: seq<Entry>, i: nat, j: nat): (end: nat)
    requires i < j <= |items|
    ensures j <= end <= |items|
    decreases |items| - j
  {
    if j == |items| || !SameKey(items[j].key, items[i].key) then j else GroupEnd(items, i, j + 1)
  }

  /** What a group yields: the value of its last version, if that is live and not nil. */
  function Yield(items: seq<Entry>, i: nat, end: nat): (r: seq<KeyValue>)
    requires i < end <= |items| && items[i].key.Some?
    ensures |r| <= 1
  {
    var last := items[end - 1];
    if !last.deleted && last.value.Some? then [KeyValue(items[i].key.value, last.value.value)] else []
  }

  /** Everything the iterator yields from position i on. */
  function Filtered(items: seq<Entry>, i: nat): seq<KeyValue>
    requires i <= |items|
    decreases |items| - i
  {
    if i == |items| then []
    else if items[i].key.None? then Filtered(items, i + 1)
    else
      var end := GroupEnd(items, i, i + 1);
      Yield(items, i, end) + Filtered(items, end)
  }

  lemma FilteredEnds(items: seq<Entry>, i: nat)
    requires i <= |items|
    ensures i == |items| ==> Filtered(items, i) == []
    ensures i < |items| && items[i].key.None? ==> Filtered(items, i) == Filtered(items, i + 1)
  {
  }

  /** One group: what it yields, and what follows. */
  lemma FilteredStep(items: seq<Entry>, i: nat)
    requires i < |items| && items[i].key.Some?
    ensures var y, rest := Yield(items, i, GroupEnd(items, i, i + 1)), Filtered(items, GroupEnd(items, i, i + 1));
      && Filtered(items, i) == y + rest
      && (y == [] ==> Filtered(items, i) == rest)
      && (y != [] ==> Filtered(items, i)[0] == y[0] && Filtered(items, i)[1..] == rest)
      && (GroupEnd(items, i, i + 1) == |items| ==> rest == [])
  {
    var y, rest := Yield(items, i, GroupEnd(items, i, i + 1)), Filtered(items, GroupEnd(items, i, i + 1));
    assert y == [] ==> y + rest == rest;
  }

  /** The inner iterator: it stands on the entry before pos. */
  class Inner {
    const items: seq<Entry>
    var pos: nat

    ghost predicate Valid()
      reads this
    {
      pos <= |items|
    }

    constructor (items: seq<Entry>)
      ensures Valid() && this.items == items && pos == 0
    {
      this.items, pos := items, 0;
    }

    method Next() returns (more: bool)
      requires Valid()
      modifies this
      ensures Valid() && more == (old(pos) < |items|) && pos == old(pos) + if more then 1 else 0
    {
      more := pos < |items|;
      if more {
        pos := pos + 1;
      }
    }

    function Current(): Entry
      requires Valid() && pos > 0
      reads this
    {
      items[pos - 1]
    }
  }

  class MVCCIterator {
    const inner: Inner
    var key: Bytes
    var value: Bytes
    var ended: bool
    var peeked: bool

    ghost predicate Valid()
      reads this, inner
    {
      inner.Valid() && (peeked ==> inner.pos > 0)
    }

    /** Where the next group starts. */
    function Start(): (i: nat)
      requires Valid()
      reads this, inner
      ensures i <= |inner.items|
    {
      if peeked then inner.pos - 1 else inner.pos
    }

    /** What is still to come. */
    function Remaining(): seq<KeyValue>
      requires Valid()
      reads this, inner
    {
      if ended then [] else Filtered(inner.items, Start())
    }

    constructor (inner: Inner)
      requires inner.Valid()
      ensures Valid() && this.inner == inner && Remaining() == Filtered(inner.items, inner.pos)
    {
      this.inner := inner;
      key, value, ended, peeked := [], [], false, false;
    }

    /** Scans all versions of the current key: the last one decides. */
    method ScanGroup(ghost i: nat) returns (bestValue: Option<Bytes>, found: bool, hasTombstone: bool)
      requires Valid() && !ended && !peeked && inner.pos == i + 1 && inner.items[i].key.Some?
      modifies inner, this`ended, this`peeked
      ensures Valid() && (ended ==> !peeked && inner.pos == |inner.items| == GroupEnd(inner.items, i, i + 1))
      ensures !ended ==> peeked && Start() == GroupEnd(inner.items, i, i + 1)
      ensures found && !hasTombstone && bestValue.Some?
        <==> Yield(inner.items, i, GroupEnd(inner.items, i, i + 1)) != []
      ensures found && !hasTombstone && bestValue.Some? ==>
        Yield(inner.items, i, GroupEnd(inner.items, i, i + 1)) == [KeyValue(inner.items[i].key.value, bestValue.value)]
    {
      var currentKey := inner.Current().key;
      bestValue, found, hasTombstone := None, false, false;
      ghost var end := GroupEnd(inner.items, i, i + 1);
      while true
        invariant Valid() && !ended && !peeked && i < inner.pos <= |inner.items|
        invariant GroupEnd(inner.items, i, inner.pos) == end
        decreases |inner.items| - inner.pos
      {
        ghost var p := inner.pos;
        if inner.Current().deleted {
          hasTombstone := true;
        } else {
          bestValue, found, hasTombstone := inner.Current().value, true, false;
        }
        var more := inner.Next();
        if !more {
          ended := true;
          break;
        }
        if !SameKey(inner.Current().key, currentKey) {
          peeked := true;
          break;
        }
      }
    }

    /** Next yields the next live key. */
    method Next() returns (more: bool)
      requires Valid()
      modifies this, inner
      ensures Valid() && more == (old(Remaining()) != [])
      ensures more ==> KeyValue(key, value) == old(Remaining())[0] && Remaining() == old(Remaining())[1..]
      ensures !more ==> Remaining() == []
    {
      hide GroupEnd, Yield, Filtered;
      if ended {
        return false;
      }
      while true
        invariant Valid() && !ended && Remaining() == old(Remaining())
        decreases |inner.items| - Start()
      {
        ghost var i := Start();
        FilteredEnds(inner.items, i);
        if peeked {
          peeked := false;
        } else {
          var stepped := inner.Next();
          if !stepped {
            ended := true;
            return false;
          }
        }
        var currentKey := inner.Current().key;
        if currentKey.None? {
          continue;
        }
        FilteredStep(inner.items, i);
        var bestValue, found, hasTombstone := ScanGroup(i);
        if found && !hasTombstone && bestValue.Some? {
          key, value := currentKey.value, bestValue.value;
          return true;
        }
        if ended {
          var stepped := inner.Next();
          return false;
        }
      }
    }
  }

  // ------------------------------------------------------------------ what a sorted stream yields

  /** No key is nil, and equal keys stand together. */
  ghost predicate Grouped(items: seq<Entry>) {
    && (forall e :: e in items ==> e.key.Some?)
    && forall i, j, k :: 0 <= i < j < k < |items| && items[i].key == items[k].key ==> items[j].key == items[i].key
  }

  /** The last version of a key from position i on. */
  function LastOf(items: seq<Entry>, i: nat, key: Bytes): Option<Entry>
    requires i <= |items|
    decreases |items| - i
  {
    if i == |items| then None
    else
      var later := LastOf(items, i + 1, key);
      if later.Some? then later else if items[i].key == Some(key) then Some(items[i]) else None
  }

  lemma {:induction false} GroupEndIs(items: seq<Entry>, i: nat, j: nat)
    requires i < j <= |items| && (forall e :: e in items ==> e.key.Some?)
    requires forall k :: i <= k < j ==> items[k].key == items[i].key
    ensures var end := GroupEnd(items, i, j);
      (forall k :: i <= k < end ==> items[k].key == items[i].key) && (end < |items| ==> items[end].key != items[i].key)
    decreases |items| - j
  {
    if j < |items| && SameKey(items[j].key, items[i].key) {
      assert items[j] in items && items[i] in items;
      GroupEndIs(items, i, j + 1);
    } else if j < |items| {
      assert items[j] in items && items[i] in items;
    }
  }

  /** From i to end all entries have one key and none does later: the last version of that key is
      at end - 1, and the last version of any other key is found from end on. */
  lemma {:induction false} LastOfGroup(items: seq<Entry>, i: nat, end: nat, key: Bytes, g: Bytes)
    requires i < end <= |items| && (forall k :: i <= k < end ==> items[k].key == Some(g))
    requires forall k :: end <= k < |items| ==> items[k].key != Some(g)
    ensures LastOf(items, i, key) == if key == g then Some(items[end - 1]) else LastOf(items, end, key)
    decreases end - i
  {
    if i + 1 < end {
      LastOfGroup(items, i + 1, end, key, g);
    } else {
      NoneLater(items, end, g);
    }
  }

  lemma {:induction false} NoneLater(items: seq<Entry>, i: nat, g: Bytes)
    requires i <= |items| && forall k :: i <= k < |items| ==> items[k].key != Some(g)
    ensures LastOf(items, i, g) == None
    decreases |items| - i
  {
    if i < |items| {
      NoneLater(items, i + 1, g);
    }
  }

  /** Whether kv is what the last version of its key says. */
  predicate IsLive(last: Option<Entry>, value: Bytes) {
    last.Some? && !last.value.deleted && last.value.value == Some(value)
  }

  /** A grouped stream yields exactly the keys whose last version is live, with its value. */
  lemma {:induction false} YieldsLiveKeys(items: seq<Entry>, i: nat, kv: KeyValue)
    requires Grouped(items) && i <= |items|
    ensures kv in Filtered(items, i) <==> IsLive(LastOf(items, i, kv.key), kv.value)
    decreases |items| - i
  {
    hide Filtered, LastOf, GroupEnd;
    FilteredEnds(items, i);
    if i == |items| {
      NoneLater(items, i, kv.key);
    } else {
      assert items[i] in items;
      var g, end := items[i].key.value, GroupEnd(items, i, i + 1);
      GroupEndIs(items, i, i + 1);
      forall k | end <= k < |items| ensures items[k].key != Some(g) {
        assert items[i].key == Some(g);
      }
      LastOfGroup(items, i, end, kv.key, g);
      YieldsLiveKeys(items, end, kv);
      NoneLater(items, end, g);
      FilteredStep(items, i);
    }
  }

  /** It yields every key once. */
  lemma {:induction false} YieldsEachKeyOnce(items: seq<Entry>, i: nat)
    requires Grouped(items) && i <= |items|
    ensures var r := Filtered(items, i); forall a, b :: 0 <= a < b < |r| ==> r[a].key != r[b].key
    decreases |items| - i
  {
    hide Filtered;
    FilteredEnds(items, i);
    if i < |items| {
      assert items[i] in items;
      var g, end := items[i].key.value, GroupEnd(items, i, i + 1);
      GroupEndIs(items, i, i + 1);
      YieldsEachKeyOnce(items, end);
      forall k | end <= k < |items| ensures items[k].key != Some(g) {
        assert items[i].key == Some(g);
      }
      NoneLater(items, end, g);
      FilteredStep(items, i);
      var r, rest := Filtered(items, i), Filtered(items, end);
      forall a, b | 0 <= a < b < |r| ensures r[a].key != r[b].key {
        if Yield(items, i, end) != [] {
          assert r[b] == rest[b - 1];
          YieldsLiveKeys(items, end, rest[b - 1]);
          if a > 0 {
            assert r[a] == rest[a - 1];
          }
        }
      }
    }
  }
}
