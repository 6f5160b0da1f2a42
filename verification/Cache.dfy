/** The bounded cache of last commit timestamps, with least-recently-used eviction. */
module Cache {
  import opened Base

  const MAX_ENTRIES: nat := 10_000

  /** The sequence without k. */
  function Without(s: seq<Bytes>, k: Bytes): seq<Bytes> {
    if s == [] then [] else if s[0] == k then Without(s[1..], k) else [s[0]] + Without(s[1..], k)
  }

  /** The distinct keys of a history of touches, the most recently touched first. */
  function Recent(touches: seq<Bytes>): seq<Bytes> {
    if touches == [] then []
    else
      var k := touches[|touches| - 1];
      [k] + Without(Recent(touches[..|touches| - 1]), k)
  }

  function Take(s: seq<Bytes>, n: nat): (r: seq<Bytes>)
    ensures |r| <= n && r <= s
  {
    if |s| <= n then s else s[..n]
  }

  ghost predicate NoDuplicates(s: seq<Bytes>) {
    forall i, j :: 0 <= i < j < |s| ==> s[i] != s[j]
  }

  /** The cache as a value: at most cap keys, the most recently used first, each with its entry. */
  datatype Lru = Lru(cap: nat, order: seq<Bytes>, entries: map<Bytes, U64>)
  {
    ghost predicate Valid() {
      NoDuplicates(order) && (forall k :: k in order <==> k in entries) && |order| <= cap
    }

    function Evicted(): Lru {
      var kept := Take(order, cap);
      Lru(cap, kept, map k | k in entries && k in kept :: entries[k])
    }

    function Updated(key: Bytes, ts: U64): Lru {
      if key in entries then Lru(cap, [key] + Without(order, key), entries[key := ts])
      else Lru(cap, [key] + order, entries[key := ts]).Evicted()
    }

    function Touched(key: Bytes): Lru {
      if key in entries then this.(order := [key] + Without(order, key)) else this
    }

    /** A conflict check: the entry of the key decides, and without one the timestamp that the
        store reports, which is then cached. */
    function Checked(key: Bytes, startTS: U64, latest: U64): (bool, Lru) {
      if key in entries then (entries[key] > startTS, Touched(key))
      else (latest > startTS, if latest > 0 then Updated(key, latest) else this)
    }
  }

  function EmptyCache(cap: nat): Lru {
    Lru(cap, [], map[])
  }

  lemma {:induction false} WithoutMember(s: seq<Bytes>, k: Bytes, x: Bytes)
    ensures x in Without(s, k) <==> x in s && x != k
  {
    if s != [] {
      WithoutMember(s[1..], k, x);
    }
  }

  lemma {:induction false} WithoutAbsent(s: seq<Bytes>, k: Bytes)
    requires k !in s
    ensures Without(s, k) == s
  {
    if s != [] {
      WithoutAbsent(s[1..], k);
    }
  }

  lemma {:induction false} WithoutIsDistinct(s: seq<Bytes>, k: Bytes)
    requires NoDuplicates(s)
    ensures NoDuplicates(Without(s, k)) && |Without(s, k)| == |s| - (if k in s then 1 else 0)
  {
    if s != [] {
      WithoutIsDistinct(s[1..], k);
      WithoutMember(s[1..], k, s[0]);
      if s[0] != k {
        var r := Without(s[1..], k);
        forall x | x in r ensures x != s[0] {
          WithoutMember(s[1..], k, x);
        }
      }
    }
  }

  lemma WithoutMembers(s: seq<Bytes>, k: Bytes)
    requires NoDuplicates(s)
    ensures forall x :: x in Without(s, k) <==> x in s && x != k
    ensures NoDuplicates(Without(s, k)) && |Without(s, k)| == |s| - (if k in s then 1 else 0)
    ensures k !in s ==> Without(s, k) == s
  {
    WithoutIsDistinct(s, k);
    forall x ensures x in Without(s, k) <==> x in s && x != k {
      WithoutMember(s, k, x);
    }
    if k !in s {
      WithoutAbsent(s, k);
    }
  }

  lemma {:induction false} RecentIsDistinct(touches: seq<Bytes>)
    ensures NoDuplicates(Recent(touches))
  {
    if touches != [] {
      var init, k := touches[..|touches| - 1], touches[|touches| - 1];
      RecentIsDistinct(init);
      WithoutMembers(Recent(init), k);
    }
  }

  /** Removing k from the first n keys and from all of them agree up to n - 1 keys. */
  lemma {:induction false} WithoutOfTake(s: seq<Bytes>, k: Bytes, n: nat)
    requires NoDuplicates(s) && n > 0
    ensures Take(Without(Take(s, n), k), n - 1) == Take(Without(s, k), n - 1)
  {
    if s != [] && |s| > n {
      var t := s[..n];
      if s[0] == k {
        assert t[1..] == s[1..][..n - 1];
        assert k !in s[1..] && k !in t[1..];
        WithoutMembers(s[1..], k);
        WithoutMembers(t[1..], k);
      } else if n > 1 {
        WithoutOfTake(s[1..], k, n - 1);
        assert t[1..] == s[1..][..n - 1];
        TakeCons(s[0], Without(s[1..], k), n - 1);
        TakeCons(s[0], Without(t[1..], k), n - 1);
      }
    }
  }

  lemma TakeCons(x: Bytes, s: seq<Bytes>, n: nat)
    requires n > 0
    ensures Take([x] + s, n) == [x] + Take(s, n - 1)
  {
  }

  /** The inclusion property of LRU: a bounded list that is touched stays the first n of the
      unbounded one. */
  lemma TouchKeepsFirst(touches: seq<Bytes>, k: Bytes, n: nat)
    requires n > 0
    ensures Take([k] + Without(Take(Recent(touches), n), k), n) == Take(Recent(touches + [k]), n)
  {
    var s := Recent(touches);
    RecentIsDistinct(touches);
    WithoutOfTake(s, k, n);
    assert (touches + [k])[..|touches|] == touches;
    TakeCons(k, Without(Take(s, n), k), n);
    TakeCons(k, Without(s, k), n);
  }

  lemma DropLast(s: seq<Bytes>, n: nat)
    requires NoDuplicates(s) && 0 < n <= |s|
    ensures s[..n][..n - 1] == s[..n - 1]
    ensures forall k :: k in s[..n - 1] <==> k in s[..n] && k != s[n - 1]
  {
    forall k | k in s[..n] && k != s[n - 1] ensures k in s[..n - 1] {
      var i :| 0 <= i < n && s[i] == k;
      assert s[..n - 1][i] == k;
    }
  }

  /** An update caches its key and keeps the other entries, apart from the coldest one when a
      new key comes to a full cache. */
  lemma UpdatedMembers(c: Lru, key: Bytes, ts: U64)
    requires c.Valid() && c.cap > 0
    ensures var r := c.Updated(key, ts);
      && r.Valid() && r.cap == c.cap && key in r.entries && r.entries[key] == ts
      && (forall k :: k in r.entries && k != key ==> k in c.entries && r.entries[k] == c.entries[k])
      && (key in c.entries || |c.order| < c.cap ==> forall k :: k in c.entries ==> k in r.entries)
  {
    WithoutMembers(c.order, key);
    var kept := Take([key] + c.order, c.cap);
    assert kept[0] == key;
    assert forall k :: k in kept ==> k == key || k in c.order;
    assert |c.order| < c.cap ==> kept == [key] + c.order;
  }

  /** The order afterwards. */
  lemma UpdatedOrder(c: Lru, key: Bytes, ts: U64)
    requires c.Valid() && c.cap > 0
    ensures c.Updated(key, ts).order == Take([key] + Without(c.order, key), c.cap)
  {
    WithoutMembers(c.order, key);
    if key in c.entries {
      assert key in c.order;
      assert |[key] + Without(c.order, key)| <= c.cap;
    } else {
      assert Without(c.order, key) == c.order;
    }
  }

  /** Which entry a full cache loses. */
  lemma UpdatedLoses(c: Lru, key: Bytes, ts: U64)
    requires c.Valid() && c.cap > 0
    ensures forall k :: k in c.entries && k !in c.Updated(key, ts).entries ==>
      |c.order| == c.cap && k == c.order[c.cap - 1] && k != key
  {
    hide Without;
    if key !in c.entries && |c.order| == c.cap {
      KeptOrder(c.order, key, c.cap);
    } else if key !in c.entries {
      assert Take([key] + c.order, c.cap) == [key] + c.order;
    }
  }

  lemma KeptOrder(order: seq<Bytes>, key: Bytes, cap: nat)
    requires |order| == cap && cap > 0
    ensures key in Take([key] + order, cap)
    ensures forall k :: k in order && k != order[cap - 1] ==> k in Take([key] + order, cap)
  {
    var kept := ([key] + order)[..cap];
    assert kept[0] == key;
    forall k | k in order && k != order[cap - 1] ensures k in kept {
      var i :| 0 <= i < cap && order[i] == k;
      assert kept[i + 1] == k;
    }
  }

  lemma TouchedMembers(c: Lru, key: Bytes)
    requires c.Valid()
    ensures c.Touched(key).Valid() && c.Touched(key).entries == c.entries && c.Touched(key).cap == c.cap
  {
    WithoutMembers(c.order, key);
  }

  lemma ValidParts(c: Lru, key: Bytes)
    requires c.Valid()
    ensures NoDuplicates(c.order) && |c.order| <= c.cap && forall k :: k in c.order <==> k in c.entries
    ensures key !in c.entries ==> NoDuplicates([key] + c.order)
  {
  }

  /** What the eviction loop leaves. */
  lemma EvictedIs(c: Lru, order: seq<Bytes>, entries: map<Bytes, U64>)
    requires order == Take(c.order, c.cap) && forall k :: k in order <==> k in entries
    requires forall k :: k in entries ==> k in c.entries && entries[k] == c.entries[k]
    ensures c.Evicted() == Lru(c.cap, order, entries)
  {
  }

  class LastCommitCache {
    /** The list, most recently used first, and the map from each key to its entry. */
    var lru: seq<Bytes>
    var entries: map<Bytes, U64>
    /** Every touch so far: hits and updates. */
    ghost var touches: seq<Bytes>

    ghost function Abs(): Lru
      reads this
    {
      Lru(MAX_ENTRIES, lru, entries)
    }

    /** List and map hold the same keys without duplicates; they are the most recently touched ones. */
    ghost predicate Valid()
      reads this
    {
      Abs().Valid() && lru == Take(Recent(touches), MAX_ENTRIES)
    }

    constructor ()
      ensures Valid() && Abs() == EmptyCache(MAX_ENTRIES) && touches == []
    {
      lru, entries, touches := [], map[], [];
    }

    /** Records a commit: the key moves to the front, and the coldest key goes over the limit. */
    method Update(key: Bytes, commitTS: U64)
      requires Valid()
      modifies this
      ensures Valid() && touches == old(touches) + [key] && Abs() == old(Abs()).Updated(key, commitTS)
      ensures key in entries && entries[key] == commitTS
      ensures forall k :: k in entries && k != key ==> k in old(entries) && entries[k] == old(entries)[k]
      ensures forall k :: k in old(entries) && k !in entries ==>
        old(|lru|) == MAX_ENTRIES && k == old(lru)[MAX_ENTRIES - 1] && k != key
    {
      hide Recent, Without, Lru.Valid, Take;
      UpdatedMembers(Abs(), key, commitTS);
      UpdatedOrder(Abs(), key, commitTS);
      UpdatedLoses(Abs(), key, commitTS);
      ValidParts(Abs(), key);
      TouchKeepsFirst(touches, key, MAX_ENTRIES);
      if key in entries {
        entries := entries[key := commitTS];
        lru := [key] + Without(lru, key);
        touches := touches + [key];
        return;
      }
      lru := [key] + lru;
      entries := entries[key := commitTS];
      touches := touches + [key];
      Evict();
    }

    /** Removes from the back what is over the limit. */
    method Evict()
      requires NoDuplicates(lru) && (forall k :: k in lru <==> k in entries) && |lru| <= MAX_ENTRIES + 1
      modifies this`lru, this`entries
      ensures lru == Take(old(lru), MAX_ENTRIES) && forall k :: k in lru <==> k in entries
      ensures Abs() == old(Abs()).Evicted()
      ensures forall k :: k in entries ==> k in old(entries) && entries[k] == old(entries)[k]
      ensures forall k :: k in old(entries) && k !in entries ==> |old(lru)| > MAX_ENTRIES && k == old(lru)[MAX_ENTRIES]
    {
      ghost var all, full := lru, entries;
      while |lru| > MAX_ENTRIES
        invariant |lru| == |all| || |lru| == MAX_ENTRIES
        invariant |lru| <= |all| && lru == all[..|lru|] && forall k :: k in lru <==> k in entries
        invariant forall k :: k in entries ==> k in full && entries[k] == full[k]
        invariant forall k :: k in full && k !in entries ==> |lru| < |all| && k == all[MAX_ENTRIES]
      {
        var oldest := lru[|lru| - 1];
        DropLast(all, |lru|);
        lru := lru[..|lru| - 1];
        entries := entries - {oldest};
      }
      EvictedIs(Lru(MAX_ENTRIES, all, full), lru, entries);
    }

    /** A hit moves its key to the front. */
    method Get(key: Bytes) returns (ts: U64, ok: bool)
      requires Valid()
      modifies this
      ensures Valid() && Abs() == old(Abs()).Touched(key)
      ensures entries == old(entries) && ok == (key in entries) && (ok ==> ts == entries[key])
      ensures touches == if ok then old(touches) + [key] else old(touches)
    {
      if key !in entries {
        return 0, false;
      }
      TouchKeepsFirst(touches, key, MAX_ENTRIES);
      WithoutMembers(lru, key);
      lru := [key] + Without(lru, key);
      touches := touches + [key];
      return entries[key], true;
    }

    /** Whether key was committed after startTS; latest is what the store reports for the key
        on a miss, 0 for none. */
    method CheckConflict(key: Bytes, startTS: U64, latest: U64) returns (conflict: bool)
      requires Valid()
      modifies this
      ensures Valid() && (conflict, Abs()) == old(Abs()).Checked(key, startTS, latest)
      ensures conflict == ((if key in old(entries) then old(entries)[key] else latest) > startTS)
      ensures key !in old(entries) && latest > 0 ==> key in entries
      ensures forall k :: k in entries ==>
        if k in old(entries) then entries[k] == old(entries)[k] else k == key && entries[k] == latest > 0
    {
      hide Recent, Lru.Valid, Lru.Updated, Lru.Touched, Without, Take;
      var lastTS, ok := Get(key);
      if ok {
        return lastTS > startTS;
      }
      if latest > startTS {
        Update(key, latest);
        return true;
      }
      if latest > 0 {
        Update(key, latest);
      }
      return false;
    }
  }
}
