/** Compaction of level 0: which versions the retention loop keeps, and what snapshots then read. */
module Compaction {
  import opened Base
  import opened Bloom
  import opened Format
  import opened Keys
  import opened Mvcc
  import opened Sorting
  import opened TableIter
  import opened Values
  import opened Writer

  /** User key ascending, then the inverted timestamp ascending: newest versions first. */
  predicate NewerFirst(a: Pair, b: Pair) {
    var cmp := Compare(a.key.key, b.key.key);
    cmp < 0 || (cmp == 0 && a.key.ts < b.key.ts)
  }

  lemma NewerFirstIsOrder()
    ensures WeakOrder(NewerFirst)
  {
    forall a: Pair, b: Pair, c: Pair
      ensures NewerFirst(a, b) ==> !NewerFirst(b, a)
      ensures !NewerFirst(b, a) && !NewerFirst(c, b) ==> !NewerFirst(c, a)
    {
      CompareIsTotalOrder(a.key.key, b.key.key, c.key.key);
      CompareIsTotalOrder(b.key.key, c.key.key, a.key.key);
      CompareIsTotalOrder(c.key.key, a.key.key, b.key.key);
    }
  }

  /** The i-th version is the first, so the newest, of its user key. */
  predicate IsNewest(all: seq<Pair>, i: nat)
    requires i < |all|
  {
    i == 0 || all[i - 1].key.key != all[i].key.key
  }

  /** The minimum open snapshot, which the loop reads anew at every version. */
  type Watermarks = nat -> U64

  /** The retention rule at a watermark: empty values go; of the others the newest version of a
      key stays, and older ones at or below the watermark. */
  predicate Keeps(all: seq<Pair>, i: nat, marks: Watermarks)
    requires i < |all|
  {
    all[i].val != [] && (IsNewest(all, i) || (marks(i) != 0 && all[i].key.CommitTS() <= marks(i)))
  }

  /** What the loop has written after the first n versions. */
  function Kept(all: seq<Pair>, n: nat, marks: Watermarks): seq<Pair>
    requires n <= |all|
  {
    if n == 0 then []
    else Kept(all, n - 1, marks) + if Keeps(all, n - 1, marks) then [all[n - 1]] else []
  }

  function EntryOf(p: Pair): RawEntry {
    RawEntry(p.key, Some(p.val), false)
  }

  function EntriesOf(ps: seq<Pair>): (es: seq<RawEntry>)
    ensures |es| == |ps|
  {
    seq(|ps|, i requires 0 <= i < |ps| => EntryOf(ps[i]))
  }

  lemma EntriesOfAppend(ps: seq<Pair>, p: Pair)
    ensures EntriesOf(ps + [p]) == EntriesOf(ps) + [EntryOf(p)]
  {
  }

  /** The range of what was written so far; nothing was written when it is empty. */
  ghost predicate Range(es: seq<RawEntry>, min: Option<Bytes>, max: Option<Bytes>) {
    IsMin(es, min) && IsMax(es, max)
  }

  lemma RangeGrows(es: seq<RawEntry>, e: RawEntry, min: Option<Bytes>, max: Option<Bytes>)
    requires Range(es, min, max)
    ensures min.None? <==> es == []
    ensures max.None? <==> es == []
    ensures Range(es + [e], if min.None? || Compare(e.key.key, min.value) < 0 then Some(e.key.key) else min,
                  if max.None? || Compare(e.key.key, max.value) > 0 then Some(e.key.key) else max)
  {
    BoundsGrow(es, e, min, max);
  }

  /** The versions of the user key at lo, and where the next user key starts. */
  method CollectVersions(sorted: seq<Pair>, lo: nat) returns (versions: seq<Pair>, next: nat)
    requires lo < |sorted| && IsNewest(sorted, lo)
    ensures lo < next <= |sorted| && versions == sorted[lo..next]
    ensures forall i :: lo <= i < next ==> sorted[i].key.key == sorted[lo].key.key && (IsNewest(sorted, i) <==> i == lo)
    ensures next == |sorted| || IsNewest(sorted, next)
  {
    var userKey := sorted[lo].key.key;
    versions, next := [], lo;
    while next < |sorted| && sorted[next].key.key == userKey
      invariant lo <= next <= |sorted| && versions == sorted[lo..next]
      invariant forall i :: lo <= i < next ==> sorted[i].key.key == userKey
    {
      versions := versions + [sorted[next]];
      next := next + 1;
    }
  }

  /** The retention loop over the versions of one user key, newest first. */
  method RetainVersions(versions: seq<Pair>, marks: Watermarks, writer: TableWriter, min0: Option<Bytes>,
                        max0: Option<Bytes>, lo: nat, ghost all: seq<Pair>)
    returns (min: Option<Bytes>, max: Option<Bytes>, written: nat)
    requires writer.Valid() && lo + |versions| <= |all| && versions == all[lo..lo + |versions|]
    requires forall i :: lo <= i < lo + |versions| ==> (IsNewest(all, i) <==> i == lo)
    requires writer.entries == EntriesOf(Kept(all, lo, marks)) && Range(writer.entries, min0, max0)
    modifies writer, writer.bloom
    ensures writer.Valid() && writer.entries == EntriesOf(Kept(all, lo + |versions|, marks))
    ensures Range(writer.entries, min, max) && written == |writer.entries| - old(|writer.entries|)
  {
    hide Range, IsNewest, EntriesOf, Kept;
    min, max, written := min0, max0, 0;
    for j := 0 to |versions|
      invariant writer.Valid() && writer.entries == EntriesOf(Kept(all, lo + j, marks))
      invariant Range(writer.entries, min, max) && written == |writer.entries| - old(|writer.entries|)
    {
      var kv := versions[j];
      var curMin := marks(lo + j);
      assert kv == all[lo + j];
      KeptStep(all, lo + j, marks);
      if j == 0 {
        if |kv.val| == 0 {
          continue;
        }
      } else {
        if curMin == 0 || kv.key.CommitTS() > curMin {
          continue;
        }
        if |kv.val| == 0 {
          continue;
        }
      }
      RangeGrows(writer.entries, EntryOf(kv), min, max);
      EntriesOfAppend(Kept(all, lo + j, marks), kv);
      if min.None? {
        min, max := Some(kv.key.key), Some(kv.key.key);
      } else {
        if Compare(kv.key.key, min.value) < 0 {
          min := Some(kv.key.key);
        }
        if Compare(kv.key.key, max.value) > 0 {
          max := Some(kv.key.key);
        }
      }
      writer.Append(kv.key, Some(kv.val));
      written := written + 1;
    }
  }

  method SortNewestFirst(pairs: seq<Pair>) returns (sorted: seq<Pair>)
    ensures SortedBy(sorted, NewerFirst) && multiset(sorted) == multiset(pairs)
  {
    NewerFirstIsOrder();
    sorted := SortSlice(pairs, NewerFirst);
  }

  /** The loop over the user keys of the sorted versions. */
  method RetainSorted(sorted: seq<Pair>, marks: Watermarks, writer: TableWriter)
    returns (min: Option<Bytes>, max: Option<Bytes>, writtenKeys: nat)
    requires writer.Valid() && writer.entries == []
    modifies writer, writer.bloom
    ensures writer.Valid() && Range(writer.entries, min, max)
    ensures writer.entries == EntriesOf(Kept(sorted, |sorted|, marks)) && writtenKeys == |writer.entries|
  {
    hide Contains, EntriesOf, IsNewest, Kept, Range, TableWriter.Valid;
    min, max, writtenKeys := None, None, 0;
    NothingKept(sorted, marks);
    var i := 0;
    while i < |sorted|
      invariant i <= |sorted| && writer.Valid() && (i < |sorted| ==> IsNewest(sorted, i))
      invariant writer.entries == EntriesOf(Kept(sorted, i, marks)) && writtenKeys == |writer.entries|
      invariant Range(writer.entries, min, max)
    {
      var versions, next := CollectVersions(sorted, i);
      var written;
      min, max, written := RetainVersions(versions, marks, writer, min, max, i, sorted);
      writtenKeys := writtenKeys + written;
      i := next;
    }
  }

  /** Sorting, grouping by user key, and the retention loop. */
  method CompactLevel0(pairs: seq<Pair>, marks: Watermarks, writer: TableWriter)
    returns (min: Option<Bytes>, max: Option<Bytes>, writtenKeys: nat, ghost all: seq<Pair>)
    requires writer.Valid() && writer.entries == []
    modifies writer, writer.bloom
    ensures writer.Valid() && SortedBy(all, NewerFirst) && multiset(all) == multiset(pairs)
    ensures writer.entries == EntriesOf(Kept(all, |all|, marks)) && writtenKeys == |writer.entries|
    ensures IsMin(writer.entries, min) && IsMax(writer.entries, max)
  {
    hide NewerFirst, IsMin, IsMax, Contains, Kept, EntriesOf;
    var sorted := SortNewestFirst(pairs);
    all := sorted;
    min, max, writtenKeys := RetainSorted(sorted, marks, writer);
  }

  lemma KeptStep(all: seq<Pair>, n: nat, marks: Watermarks)
    requires n < |all|
    ensures Kept(all, n + 1, marks)
      == if Keeps(all, n, marks) then Kept(all, n, marks) + [all[n]] else Kept(all, n, marks)
  {
  }

  lemma NothingKept(all: seq<Pair>, marks: Watermarks)
    ensures EntriesOf(Kept(all, 0, marks)) == [] && Range([], None, None) && (all != [] ==> IsNewest(all, 0))
  {
  }

  // ------------------------------------------------------------------ what is read

  predicate Matches(p: Pair, key: Bytes, snapshot: U64) {
    p.key.key == key && p.key.CommitTS() <= snapshot
  }

  /** The first of the first n versions that the snapshot sees: in sorted order, the newest. */
  function Seen(ps: seq<Pair>, n: nat, key: Bytes, snapshot: U64): Option<Pair>
    requires n <= |ps|
  {
    if n == 0 then None
    else
      var before := Seen(ps, n - 1, key, snapshot);
      if before.Some? then before else if Matches(ps[n - 1], key, snapshot) then Some(ps[n - 1]) else None
  }

  lemma {:induction false} SeenIsNewest(ps: seq<Pair>, n: nat, key: Bytes, snapshot: U64, i: nat)
    requires SortedBy(ps, NewerFirst) && i < n <= |ps| && Matches(ps[i], key, snapshot)
    ensures var r := Seen(ps, n, key, snapshot);
      r.Some? && r.value in ps && Matches(r.value, key, snapshot) && ps[i].key.CommitTS() <= r.value.key.CommitTS()
  {
    if i < n - 1 {
      SeenIsNewest(ps, n - 1, key, snapshot, i);
    } else {
      SeenMember(ps, n - 1, key, snapshot);
      var r := Seen(ps, n - 1, key, snapshot);
      if r.Some? {
        var j :| 0 <= j < n - 1 && ps[j] == r.value;
        CompareZero(key, key);
        assert !NewerFirst(ps[i], ps[j]);
      }
    }
  }

  lemma {:induction false} SeenMember(ps: seq<Pair>, n: nat, key: Bytes, snapshot: U64)
    requires n <= |ps|
    ensures var r := Seen(ps, n, key, snapshot);
      r.Some? ==> Matches(r.value, key, snapshot) && exists j :: 0 <= j < n && ps[j] == r.value
  {
    if n > 0 {
      SeenMember(ps, n - 1, key, snapshot);
    }
  }

  /** The first kept version that the snapshot sees. */
  function SeenKept(all: seq<Pair>, n: nat, marks: Watermarks, key: Bytes, snapshot: U64): Option<Pair>
    requires n <= |all|
  {
    if n == 0 then None
    else
      var before := SeenKept(all, n - 1, marks, key, snapshot);
      if before.Some? then before
      else if Keeps(all, n - 1, marks) && Matches(all[n - 1], key, snapshot) then Some(all[n - 1])
      else None
  }

  /** Where the version a snapshot sees stands. */
  lemma {:induction false} SeenAt(all: seq<Pair>, n: nat, key: Bytes, snapshot: U64) returns (i: nat)
    requires n <= |all| && Seen(all, n, key, snapshot).Some?
    ensures i < n && Seen(all, n, key, snapshot) == Some(all[i]) && Matches(all[i], key, snapshot)
    ensures forall j :: 0 <= j < i ==> !Matches(all[j], key, snapshot)
  {
    if Seen(all, n - 1, key, snapshot).Some? {
      i := SeenAt(all, n - 1, key, snapshot);
    } else {
      i := n - 1;
      NoneSeen(all, n - 1, key, snapshot);
    }
  }

  lemma {:induction false} NoneSeen(all: seq<Pair>, n: nat, key: Bytes, snapshot: U64)
    requires n <= |all| && Seen(all, n, key, snapshot).None?
    ensures forall j :: 0 <= j < n ==> !Matches(all[j], key, snapshot)
  {
    if n > 0 {
      NoneSeen(all, n - 1, key, snapshot);
    }
  }

  lemma {:induction false} SeenKeptFrom(all: seq<Pair>, n: nat, marks: Watermarks, key: Bytes, snapshot: U64, i: nat)
    requires n <= |all| && i <= n && forall j :: 0 <= j < i ==> !Matches(all[j], key, snapshot)
    ensures var r := SeenKept(all, n, marks, key, snapshot);
      && (i < n && Matches(all[i], key, snapshot) && Keeps(all, i, marks) ==> r == Some(all[i]))
      && (r.Some? ==>
            exists j :: i <= j < n && all[j] == r.value && Keeps(all, j, marks) && Matches(all[j], key, snapshot))
  {
    if n > 0 {
      if i < n {
        SeenKeptFrom(all, n - 1, marks, key, snapshot, i);
      } else {
        SeenKeptFrom(all, n - 1, marks, key, snapshot, n - 1);
      }
    }
  }

  /** A key and timestamp that the tables hold more than once has the same value every time. */
  ghost predicate SamePairs(all: seq<Pair>) {
    forall i, j :: 0 <= i < |all| && 0 <= j < |all| && all[i].key == all[j].key ==> all[i] == all[j]
  }

  /** Copies stand together. */
  lemma CopiesBetween(all: seq<Pair>, i: nat, m: nat, k: nat)
    requires SortedBy(all, NewerFirst) && SamePairs(all) && i <= m <= k < |all| && all[i] == all[k]
    ensures all[m] == all[i]
  {
    var a, b := all[i].key, all[m].key;
    CompareIsTotalOrder(a.key, b.key, a.key);
    CompareZero(a.key, b.key);
    CompareZero(b.key, a.key);
    if i < m < k {
      assert !NewerFirst(all[m], all[i]) && !NewerFirst(all[k], all[m]);
    }
  }

  /** When a copy of the version that a snapshot sees is kept, that is what it goes on seeing. */
  lemma {:induction false} KeptCopy(all: seq<Pair>, n: nat, marks: Watermarks, key: Bytes, snapshot: U64, i: nat,
                                    k: nat)
    requires i <= k < n <= |all| && Matches(all[i], key, snapshot) && Keeps(all, k, marks)
    requires forall j :: 0 <= j < i ==> !Matches(all[j], key, snapshot)
    requires forall m :: i <= m <= k ==> all[m] == all[i]
    ensures SeenKept(all, n, marks, key, snapshot) == Some(all[i])
  {
    hide Keeps, Matches;
    if k < n - 1 {
      KeptCopy(all, n - 1, marks, key, snapshot, i, k);
    } else {
      SeenKeptFrom(all, n - 1, marks, key, snapshot, i);
    }
  }

  lemma CopyIsRead(all: seq<Pair>, marks: Watermarks, key: Bytes, snapshot: U64, i: nat, k: nat)
    requires SortedBy(all, NewerFirst) && SamePairs(all)
    requires i < |all| && k < |all| && all[k] == all[i] && Matches(all[i], key, snapshot) && Keeps(all, k, marks)
    requires forall j :: 0 <= j < i ==> !Matches(all[j], key, snapshot)
    ensures SeenKept(all, |all|, marks, key, snapshot) == Some(all[i])
  {
    hide NewerFirst, Keeps, SeenKept;
    forall m | i <= m <= k ensures all[m] == all[i] {
      CopiesBetween(all, i, m, k);
    }
    KeptCopy(all, |all|, marks, key, snapshot, i, k);
  }

  /** The loop meets only the first copy of a version as the newest of its key. */
  lemma CopyIsNotNewest(all: seq<Pair>, i: nat, k: nat)
    requires SortedBy(all, NewerFirst) && SamePairs(all) && i < k < |all| && all[k] == all[i]
    ensures !IsNewest(all, k)
  {
    CopiesBetween(all, i, k - 1, k);
  }

  lemma {:induction false} KeptLive(all: seq<Pair>, n: nat, marks: Watermarks, key: Bytes, snapshot: U64)
    requires n <= |all|
    ensures var r := SeenKept(all, n, marks, key, snapshot); r.Some? ==> r.value.val != []
  {
    if n > 0 {
      KeptLive(all, n - 1, marks, key, snapshot);
    }
  }

  /** In sorted order the first version of a key is the one that no other is newer than; a copy of
      the version before it is not the first. */
  lemma NewestIsFirst(all: seq<Pair>, i: nat)
    requires SortedBy(all, NewerFirst) && SamePairs(all) && i < |all| && (i > 0 ==> all[i - 1] != all[i])
    ensures IsNewest(all, i)
      <==> forall p :: p in all && p.key.key == all[i].key.key ==> p.key.CommitTS() <= all[i].key.CommitTS()
  {
    var key := all[i].key.key;
    CompareZero(key, key);
    if IsNewest(all, i) {
      forall p | p in all && p.key.key == key ensures p.key.CommitTS() <= all[i].key.CommitTS() {
        var k :| 0 <= k < |all| && all[k] == p;
        if k < i {
          CompareIsTotalOrder(key, all[i - 1].key.key, key);
          CompareIsTotalOrder(all[i - 1].key.key, key, key);
        } else if i < k {
          assert !NewerFirst(all[k], all[i]);
        }
      }
    } else {
      assert all[i - 1] in all && all[i - 1].key != all[i].key && !NewerFirst(all[i], all[i - 1]);
    }
  }

  /** The output invents nothing: it is made of input versions, each at most once. */
  lemma {:induction false} KeptIsFromInput(all: seq<Pair>, n: nat, marks: Watermarks)
    requires n <= |all|
    ensures multiset(Kept(all, n, marks)) <= multiset(all[..n])
  {
    hide Kept, Keeps;
    if n == 0 {
      NothingKept(all, marks);
      assert Kept(all, 0, marks) == [];
    } else {
      KeptIsFromInput(all, n - 1, marks);
      KeptStep(all, n - 1, marks);
      assert all[..n] == all[..n - 1] + [all[n - 1]];
      OneMore(all[..n - 1], all[n - 1]);
      OneMore(Kept(all, n - 1, marks), all[n - 1]);
    }
  }

  lemma OneMore(ps: seq<Pair>, p: Pair)
    ensures multiset(ps + [p]) == multiset(ps) + multiset{p}
  {
  }

  // ------------------------------------------------------------------ stored entries before and after

  /** The table entries ins, in any order, are sorted newest first into all. An entry may be there
      more than once: a restart replays the whole log, so it flushes what earlier tables hold. */
  ghost predicate Collected(ins: seq<RawEntry>, all: seq<Pair>) {
    Copies(ins) && SortedBy(all, NewerFirst) && multiset(all) == multiset(PairsOf(ins))
  }

  /** A sorted table of these entries. */
  ghost predicate TableOf(sorted: seq<RawEntry>, es: seq<RawEntry>) {
    SortedEntries(sorted) && multiset(sorted) == multiset(es)
  }

  function PairOf(e: RawEntry): Pair {
    Pair(e.key, StripTag(Stored(e)))
  }

  lemma CollectedMembers(ins: seq<RawEntry>, all: seq<Pair>)
    requires Collected(ins, all)
    ensures SamePairs(all)
    ensures forall p :: p in all ==> exists e :: e in ins && p == PairOf(e)
    ensures forall e :: e in ins ==> PairOf(e) in all
  {
    hide StripTag, Stored, NewerFirst;
    SameElements(all, PairsOf(ins));
    forall p | p in all ensures exists e :: e in ins && p == PairOf(e) {
      var i :| 0 <= i < |ins| && PairsOf(ins)[i] == p;
      assert ins[i] in ins;
    }
    forall e | e in ins ensures PairOf(e) in all {
      var i :| 0 <= i < |ins| && ins[i] == e;
      assert PairsOf(ins)[i] in PairsOf(ins);
    }
    forall i, j | 0 <= i < |all| && 0 <= j < |all| && all[i].key == all[j].key ensures all[i] == all[j] {
      assert all[i] in all && all[j] in all;
      var e :| e in ins && all[i] == PairOf(e);
      var f :| f in ins && all[j] == PairOf(f);
      SamePair(e, f);
    }
  }

  lemma SamePair(a: RawEntry, b: RawEntry)
    requires a.key == b.key && Payload(a) == Payload(b)
    ensures PairOf(a) == PairOf(b)
  {
    hide StripTag, Stored, IsTombstone;
    TombstoneIsEmpty(a);
    TombstoneIsEmpty(b);
  }

  /** Before: the version that a snapshot sees among the sorted pairs is the newest stored entry. */
  lemma SeenIsNewestEntry(ins: seq<RawEntry>, all: seq<Pair>, key: Bytes, snapshot: U64)
    requires Collected(ins, all)
    ensures match Newest(ins, key, snapshot)
      case None => Seen(all, |all|, key, snapshot).None?
      case Some(u) => Seen(all, |all|, key, snapshot) == Some(PairOf(u))
  {
    hide Seen, Newest, NewerFirst, StripTag, Stored;
    CollectedMembers(ins, all);
    NewestIsMember(ins, key, snapshot);
    SeenMember(all, |all|, key, snapshot);
    var u, p := Newest(ins, key, snapshot), Seen(all, |all|, key, snapshot);
    if u.Some? {
      var i :| 0 <= i < |all| && all[i] == PairOf(u.value);
      SeenIsNewest(all, |all|, key, snapshot, i);
    }
    if p.Some? {
      assert p.value in all;
      var e :| e in ins && p.value == PairOf(e);
      NewestIsNewest(ins, key, snapshot, e);
      SameCommit(e.key, u.value.key);
      SamePair(e, u.value);
    }
  }

  lemma NewestAppend(es: seq<RawEntry>, e: RawEntry, key: Bytes, snapshot: U64)
    ensures var rest := Newest(es, key, snapshot);
      Newest(es + [e], key, snapshot)
      == if !(e.key.key == key && e.key.CommitTS() <= snapshot) then rest
         else if rest.None? || rest.value.key.CommitTS() < e.key.CommitTS() then Some(e)
         else rest
  {
    assert (es + [e])[..|es|] == es;
  }

  /** In sorted order no later version of a key is newer. */
  lemma LaterIsOlder(all: seq<Pair>, i: nat, j: nat)
    requires SortedBy(all, NewerFirst) && i < j < |all| && all[i].key.key == all[j].key.key
    ensures all[j].key.CommitTS() <= all[i].key.CommitTS()
  {
    CompareZero(all[i].key.key, all[j].key.key);
    assert !NewerFirst(all[j], all[i]);
  }

  /** After: it is the first kept pair that the snapshot sees. */
  lemma {:induction false} NewestKept(all: seq<Pair>, n: nat, marks: Watermarks, key: Bytes, snapshot: U64)
    requires SortedBy(all, NewerFirst) && n <= |all|
    ensures Newest(EntriesOf(Kept(all, n, marks)), key, snapshot) == match SeenKept(all, n, marks, key, snapshot)
      case None => None
      case Some(p) => Some(EntryOf(p))
  {
    hide Keeps, EntriesOf, NewerFirst, Newest, Kept;
    if n == 0 {
      NothingKept(all, marks);
      NothingNewest(key, snapshot);
    } else {
      NewestKept(all, n - 1, marks, key, snapshot);
      SeenKeptFrom(all, n - 1, marks, key, snapshot, 0);
      KeptStep(all, n - 1, marks);
      EntriesOfAppend(Kept(all, n - 1, marks), all[n - 1]);
      NewestAppend(EntriesOf(Kept(all, n - 1, marks)), EntryOf(all[n - 1]), key, snapshot);
      var r := SeenKept(all, n - 1, marks, key, snapshot);
      if r.Some? && Matches(all[n - 1], key, snapshot) {
        var j :| 0 <= j < n - 1 && all[j] == r.value && Matches(all[j], key, snapshot);
        LaterIsOlder(all, j, n - 1);
      }
    }
  }

  lemma NothingNewest(key: Bytes, snapshot: U64)
    ensures Newest([], key, snapshot) == None
  {
  }

  /** Of two copies of a version the first is kept as the newest and the second by the watermark. */
  lemma CopyIsKeptTwice(p: Pair, marks: Watermarks)
    requires p.val != []
    ensures Kept([p, p], 2, marks) == if marks(1) > 0 && p.key.CommitTS() <= marks(1) then [p, p] else [p]
  {
    assert Kept([p, p], 0, marks) == [] && Kept([p, p], 1, marks) == [p];
    KeepsMeans([p, p], 1, marks);
  }

  /** The output of a compaction holds copies only of what it was made from. */
  lemma {:induction false} KeptCopies(all: seq<Pair>, marks: Watermarks)
    requires SamePairs(all)
    ensures Copies(EntriesOf(Kept(all, |all|, marks)))
  {
    hide Kept, Payload;
    var kept := Kept(all, |all|, marks);
    KeptIsFromInput(all, |all|, marks);
    assert all[..|all|] == all;
    forall a, b | a in EntriesOf(kept) && b in EntriesOf(kept) && a.key == b.key ensures a == b {
      var i, j :| 0 <= i < |kept| && 0 <= j < |kept| && EntryOf(kept[i]) == a && EntryOf(kept[j]) == b;
      assert kept[i] in multiset(kept) && kept[j] in multiset(kept);
      assert kept[i] in all && kept[j] in all;
    }
  }

  /** What the snapshot reads before, and what it reads after. */
  lemma ReadsBeforeAndAfter(ins: seq<RawEntry>, all: seq<Pair>, before: seq<RawEntry>, after: seq<RawEntry>,
                            marks: Watermarks, key: Bytes, snapshot: U64)
    requires Collected(ins, all) && TableOf(before, ins) && TableOf(after, EntriesOf(Kept(all, |all|, marks)))
    ensures Read(VersionsOf(before), key, snapshot) == NewestPayload(ins, key, snapshot)
    ensures var r := SeenKept(all, |all|, marks, key, snapshot);
      Read(VersionsOf(after), key, snapshot) == if r.None? then None else Some(r.value.val)
  {
    hide Read, Kept, SeenKept, Newest, SortedEntries, NewerFirst, EntriesOf, Keeps;
    CollectedMembers(ins, all);
    ReadIsNewest(before, ins, key, snapshot);
    KeptCopies(all, marks);
    ReadIsNewest(after, EntriesOf(Kept(all, |all|, marks)), key, snapshot);
    NewestKept(all, |all|, marks, key, snapshot);
    var r := SeenKept(all, |all|, marks, key, snapshot);
    if r.Some? {
      assert Stored(EntryOf(r.value))[1..] == r.value.val;
    }
  }

  /** The entry is among the kept ones. */
  ghost predicate IsKept(all: seq<Pair>, marks: Watermarks, e: RawEntry) {
    exists i :: 0 <= i < |all| && all[i] == PairOf(e) && Keeps(all, i, marks)
  }

  /** Exactly which reads survive. A read that finds nothing does, and so does the read of an
      entry that is kept. Of the others, the read of a tombstone survives when nothing kept lies
      below it, and the read of a value when what is kept below has by chance the same payload. */
  lemma ReadSurvives(ins: seq<RawEntry>, all: seq<Pair>, before: seq<RawEntry>, after: seq<RawEntry>, marks: Watermarks,
                     key: Bytes, snapshot: U64)
    requires Collected(ins, all) && TableOf(before, ins) && TableOf(after, EntriesOf(Kept(all, |all|, marks)))
    ensures Read(VersionsOf(after), key, snapshot) == Read(VersionsOf(before), key, snapshot)
      <==> var below := SeenKept(all, |all|, marks, key, snapshot);
        match Newest(ins, key, snapshot)
        case None => true
        case Some(u) =>
          || IsKept(all, marks, u)
          || (IsTombstone(Stored(u)) && below.None?)
          || (!IsTombstone(Stored(u)) && below.Some? && below.value.val == StripTag(Stored(u)))
  {
    hide Read, Kept, SeenKept, Newest, NewerFirst, EntriesOf, Keeps, Seen, SortedEntries, Stored, StripTag, IsTombstone;
    ReadsBeforeAndAfter(ins, all, before, after, marks, key, snapshot);
    SeenIsNewestEntry(ins, all, key, snapshot);
    CollectedMembers(ins, all);
    var u := Newest(ins, key, snapshot);
    if u.None? {
      NoneSeen(all, |all|, key, snapshot);
      SeenKeptFrom(all, |all|, marks, key, snapshot, |all|);
    } else if IsKept(all, marks, u.value) {
      KeptIsRead(all, marks, u.value, key, snapshot);
      TombstoneIsEmpty(u.value);
    }
  }

  /** A kept version is read, and it is not empty. */
  lemma KeptIsRead(all: seq<Pair>, marks: Watermarks, u: RawEntry, key: Bytes, snapshot: U64)
    requires SortedBy(all, NewerFirst) && SamePairs(all) && IsKept(all, marks, u)
    requires Seen(all, |all|, key, snapshot) == Some(PairOf(u))
    ensures SeenKept(all, |all|, marks, key, snapshot) == Some(PairOf(u)) && PairOf(u).val != []
  {
    hide PairOf, Matches, NewerFirst, SeenKept, Seen;
    var i := SeenAt(all, |all|, key, snapshot);
    var k :| 0 <= k < |all| && all[k] == PairOf(u) && Keeps(all, k, marks);
    CopyIsRead(all, marks, key, snapshot, i, k);
  }

  lemma TombstoneIsEmpty(e: RawEntry)
    ensures IsTombstone(Stored(e)) ==> StripTag(Stored(e)) == []
  {
  }

  /** An empty value that is not a tombstone does not come through: the loop takes it for one. A
      read that found it finds nothing afterwards, or an older value. */
  lemma EmptyValueIsLost(ins: seq<RawEntry>, all: seq<Pair>, before: seq<RawEntry>, after: seq<RawEntry>,
                         marks: Watermarks, key: Bytes, snapshot: U64)
    requires Collected(ins, all) && TableOf(before, ins) && TableOf(after, EntriesOf(Kept(all, |all|, marks)))
    ensures Read(VersionsOf(before), key, snapshot) == Some([]) ==> Read(VersionsOf(after), key, snapshot) != Some([])
  {
    hide Read, Kept, Newest, SortedEntries, NewerFirst, EntriesOf, Keeps, Matches;
    ReadsBeforeAndAfter(ins, all, before, after, marks, key, snapshot);
    KeptLive(all, |all|, marks, key, snapshot);
  }

  /** A put of the empty value at 1 is found before a compaction and gone after it. */
  lemma EmptyPutDisappears(marks: Watermarks)
    ensures var key: Bytes := [7]; var put := RawEntry(NewMVCCKey(key, 1), Some(TagInline([])), true);
      && Collected([put], [PairOf(put)]) && Kept([PairOf(put)], 1, marks) == []
      && Read(VersionsOf([put]), key, 1) == Some([]) && Read(VersionsOf([]), key, 1) == None
  {
    var put := RawEntry(NewMVCCKey([7], 1), Some(TagInline([])), true);
    assert PairsOf([put]) == [PairOf(put)];
    assert Kept([PairOf(put)], 0, marks) == [];
    assert VersionsOf([put]) == [VersionOf(put)];
  }

  /** The versions of a key of which none is empty: a snapshot goes on seeing the same version
      exactly when that is the newest or not above the watermark at which the loop met it. So it
      reads the same up to every watermark, and from the newest commit on. */
  lemma LiveKeySurvives(all: seq<Pair>, marks: Watermarks, key: Bytes, snapshot: U64)
    requires SortedBy(all, NewerFirst) && SamePairs(all)
    requires forall p :: p in all && p.key.key == key ==> p.val != []
    ensures SeenKept(all, |all|, marks, key, snapshot) == Seen(all, |all|, key, snapshot)
      <==> var u := Seen(all, |all|, key, snapshot);
        || u.None?
        || (forall p :: p in all && p.key.key == key ==> p.key.CommitTS() <= u.value.key.CommitTS())
        || exists i :: 0 <= i < |all| && all[i] == u.value && NotAbove(u.value, marks(i))
    ensures (forall i :: 0 <= i < |all| ==> marks(i) > 0 && snapshot <= marks(i)) ==>
      SeenKept(all, |all|, marks, key, snapshot) == Seen(all, |all|, key, snapshot)
    ensures (forall p :: p in all && p.key.key == key ==> p.key.CommitTS() <= snapshot) ==>
      SeenKept(all, |all|, marks, key, snapshot) == Seen(all, |all|, key, snapshot)
  {
    hide SeenKept, NewerFirst, Seen, Keeps;
    var u := Seen(all, |all|, key, snapshot);
    if u.None? {
      NoneSeen(all, |all|, key, snapshot);
      SeenKeptFrom(all, |all|, marks, key, snapshot, |all|);
    } else {
      var i := SeenAt(all, |all|, key, snapshot);
      SeenKeptFrom(all, |all|, marks, key, snapshot, i);
      KeepsMeans(all, i, marks);
      NewestIsFirst(all, i);
      forall k | 0 <= k < |all| && all[k] == all[i]
        ensures k != i ==> !IsNewest(all, k)
        ensures Keeps(all, k, marks) <==> IsNewest(all, k) || NotAbove(all[k], marks(k))
        ensures Keeps(all, k, marks) ==> SeenKept(all, |all|, marks, key, snapshot) == Some(all[i])
      {
        KeepsMeans(all, k, marks);
        if k != i {
          CopyIsNotNewest(all, i, k);
        }
        if Keeps(all, k, marks) {
          CopyIsRead(all, marks, key, snapshot, i, k);
        }
      }
      forall p | p in all && p.key.key == key && p.key.CommitTS() <= snapshot
        ensures p.key.CommitTS() <= all[i].key.CommitTS()
      {
        var k :| 0 <= k < |all| && all[k] == p;
        SeenIsNewest(all, |all|, key, snapshot, k);
      }
    }
  }

  /** So a key of which no version is empty reads the same before and after, at every snapshot up
      to the watermarks and at every snapshot from its newest commit on. */
  lemma LiveKeyReads(ins: seq<RawEntry>, all: seq<Pair>, before: seq<RawEntry>, after: seq<RawEntry>, marks: Watermarks,
                     key: Bytes, snapshot: U64)
    requires Collected(ins, all) && TableOf(before, ins) && TableOf(after, EntriesOf(Kept(all, |all|, marks)))
    requires forall p :: p in all && p.key.key == key ==> p.val != []
    requires (forall i :: 0 <= i < |all| ==> marks(i) > 0 && snapshot <= marks(i))
      || forall p :: p in all && p.key.key == key ==> p.key.CommitTS() <= snapshot
    ensures Read(VersionsOf(after), key, snapshot) == Read(VersionsOf(before), key, snapshot)
  {
    hide Read, Kept, SeenKept, Newest, NewerFirst, EntriesOf, Seen, SortedEntries, Stored, StripTag, IsTombstone;
    CollectedMembers(ins, all);
    LiveKeySurvives(all, marks, key, snapshot);
    ReadsBeforeAndAfter(ins, all, before, after, marks, key, snapshot);
    SeenIsNewestEntry(ins, all, key, snapshot);
    NewestIsMember(ins, key, snapshot);
    var u := Newest(ins, key, snapshot);
    if u.Some? {
      TombstoneIsEmpty(u.value);
      assert PairOf(u.value) in all;
    }
  }

  predicate NotAbove(p: Pair, mark: U64) {
    mark > 0 && p.key.CommitTS() <= mark
  }

  lemma KeepsMeans(all: seq<Pair>, i: nat, marks: Watermarks)
    requires i < |all|
    ensures Keeps(all, i, marks) <==> all[i].val != [] && (IsNewest(all, i) || NotAbove(all[i], marks(i)))
  {
  }

  /** A tombstone is dropped and an older value that the watermark keeps comes back. */
  lemma TombstoneResurrects(marks: Watermarks)
    requires marks(1) == 1
    ensures var key: Bytes := [7];
      var dead, live := RawEntry(NewMVCCKey(key, 2), None, false), RawEntry(NewMVCCKey(key, 1), Some([5]), false);
      && Collected([dead, live], [PairOf(dead), PairOf(live)])
      && EntriesOf(Kept([PairOf(dead), PairOf(live)], 2, marks)) == [live]
      && Read(VersionsOf([live, dead]), key, 2) == None && Read(VersionsOf([live]), key, 2) == Some([5])
  {
    var key: Bytes := [7];
    var dead, live := RawEntry(NewMVCCKey(key, 2), None, false), RawEntry(NewMVCCKey(key, 1), Some([5]), false);
    var all := [PairOf(dead), PairOf(live)];
    CompareZero(key, key);
    assert PairsOf([dead, live]) == all;
    assert Stored(live)[1..] == [5];
    assert Kept(all, 0, marks) == [] && Kept(all, 1, marks) == [];
    assert Kept(all, 2, marks) == [all[1]];
    assert VersionsOf([live, dead])[1] == VersionOf(dead);
    assert VersionsOf([live])[0] == VersionOf(live);
  }

  /** The iterator takes the tag off and the append puts an inline tag on: of the entries that are
      kept, the stored value comes through as it was exactly when it was inline. A value pointer
      does not. */
  lemma CompactionRetags(all: seq<Pair>, i: nat, marks: Watermarks, e: RawEntry)
    requires i < |all| && all[i] == PairOf(e) && Keeps(all, i, marks)
    requires Stored(e) != [] && IsValidTag(Stored(e)[0])
    ensures Stored(EntryOf(all[i])) == Stored(e) <==> Stored(e)[0] == TYPE_INLINE
    ensures StripTag(Stored(EntryOf(all[i]))) == StripTag(Stored(e))
  {
    var stored, after := Stored(e), Stored(EntryOf(all[i]));
    assert after[0] == TYPE_INLINE && after[1..] == stored[1..];
    assert stored == [stored[0]] + stored[1..];
  }
}
