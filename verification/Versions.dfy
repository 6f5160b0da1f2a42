/** What a memtable means: the sequence of its versions in key order, and what each
    operation does to that sequence. The skip list is proved to implement this. */
module Versions {
  import opened Base
  import opened Keys
  import opened Mvcc

  /** value None is Go's nil slice; a deleted version is a tombstone. */
  datatype Version = Version(key: MVCCKey, value: Option<Bytes>, deleted: bool)

  /** The value a reader sees in a version: nil once it is deleted. */
  function ValueOf(v: Version): Option<Bytes> {
    if v.deleted then None else v.value
  }

  /** The key of a tombstone version, with no value of its own. */
  function Tombstone(k: MVCCKey): Version {
    Version(k, None, true)
  }

  /** Sorted by key. Only versions of the empty user key may repeat a key: the exact-match
      search never finds them, so a delete inserts another one. */
  ghost predicate Sorted(s: seq<Version>) {
    forall i, j :: 0 <= i < j < |s| ==>
      NodeKeyLess(s[i].key, s[j].key) || (s[i].key == s[j].key && s[i].key.key == [])
  }

  /** Never decreasing: a key may stand there more than once. */
  ghost predicate NonDecreasing(s: seq<Version>) {
    forall i, j :: 0 <= i < j < |s| ==> !NodeKeyLess(s[j].key, s[i].key)
  }

  lemma SortedIsOrdered(s: seq<Version>)
    requires Sorted(s)
    ensures NonDecreasing(s)
  {
    forall i, j | 0 <= i < j < |s| ensures !NodeKeyLess(s[j].key, s[i].key) {
      NodeKeyLessIsStrictTotalOrder(s[i].key, s[j].key, s[i].key);
    }
  }

  ghost predicate StrictlySorted(s: seq<Version>) {
    forall i, j :: 0 <= i < j < |s| ==> NodeKeyLess(s[i].key, s[j].key)
  }

  /** The linear scan: how many leading versions are below k. */
  function LowerBound(s: seq<Version>, k: MVCCKey): (p: nat)
    ensures p <= |s|
  {
    if s != [] && NodeKeyLess(s[0].key, k) then 1 + LowerBound(s[1..], k) else 0
  }

  lemma {:induction false} LowerBoundSplits(s: seq<Version>, k: MVCCKey)
    ensures forall i :: 0 <= i < LowerBound(s, k) ==> NodeKeyLess(s[i].key, k)
    ensures LowerBound(s, k) < |s| ==> !NodeKeyLess(s[LowerBound(s, k)].key, k)
  {
    if s != [] && NodeKeyLess(s[0].key, k) {
      LowerBoundSplits(s[1..], k);
    }
  }

  lemma {:induction false} LowerBoundIs(s: seq<Version>, k: MVCCKey, p: nat)
    requires p <= |s|
    requires forall i :: 0 <= i < p ==> NodeKeyLess(s[i].key, k)
    requires p < |s| ==> !NodeKeyLess(s[p].key, k)
    ensures LowerBound(s, k) == p
  {
    if p > 0 {
      LowerBoundIs(s[1..], k, p - 1);
    }
  }

  function InsertAt(s: seq<Version>, p: nat, v: Version): seq<Version>
    requires p <= |s|
  {
    s[..p] + [v] + s[p..]
  }

  /** Whether Put finds a version with exactly this key. */
  predicate Has(s: seq<Version>, k: MVCCKey) {
    var p := LowerBound(s, k);
    p < |s| && s[p].key == k
  }

  /** Whether findExact finds it: a node with an empty user key has a nil key and is
      always taken for the head. */
  predicate HasExact(s: seq<Version>, k: MVCCKey) {
    Has(s, k) && k.key != []
  }

  function PutInto(s: seq<Version>, k: MVCCKey, value: Option<Bytes>): seq<Version> {
    if Has(s, k) then s else InsertAt(s, LowerBound(s, k), Version(k, value, false))
  }

  function MarkDeleted(s: seq<Version>, k: MVCCKey): seq<Version>
    requires Has(s, k)
  {
    var p := LowerBound(s, k);
    s[p := s[p].(deleted := true)]
  }

  /** A tombstone at k: an existing version is marked, otherwise one is inserted. */
  function DeleteInto(s: seq<Version>, k: MVCCKey): seq<Version> {
    if HasExact(s, k) then MarkDeleted(s, k) else InsertAt(s, LowerBound(s, k), Tombstone(k))
  }

  /** The number of versions that are not tombstones. */
  function LiveCount(s: seq<Version>): nat {
    if s == [] then 0 else LiveCount(s[1..]) + (if s[0].deleted then 0 else 1)
  }

  function LiveFrom(s: seq<Version>, i: nat): seq<Version>
    requires i <= |s|
    decreases |s| - i
  {
    if i == |s| then []
    else if s[i].deleted then LiveFrom(s, i + 1)
    else [s[i]] + LiveFrom(s, i + 1)
  }

  /** The live versions in order: what an iterator yields. */
  function Live(s: seq<Version>): seq<Version> {
    LiveFrom(s, 0)
  }

  lemma {:induction false} LiveFromLength(s: seq<Version>, i: nat)
    requires i <= |s|
    ensures |LiveFrom(s, i)| == LiveCount(s[i..])
    decreases |s| - i
  {
    if i < |s| {
      LiveFromLength(s, i + 1);
    }
  }

  /** Live keeps exactly the versions that are not tombstones. */
  lemma {:induction false} LiveMembers(s: seq<Version>, i: nat, v: Version)
    requires i <= |s|
    ensures v in LiveFrom(s, i) <==> v in s[i..] && !v.deleted
    decreases |s| - i
  {
    if i < |s| {
      LiveMembers(s, i + 1, v);
      assert s[i..] == [s[i]] + s[i + 1..];
    }
  }

  // ------------------------------------------------------------------ reads

  predicate Visible(v: Version, key: Bytes, snapshot: U64) {
    v.key.key == key && v.key.CommitTS() <= snapshot
  }

  /** The last version of key, in order, committed at or before the snapshot. */
  function LastVisible(s: seq<Version>, key: Bytes, snapshot: U64): (r: Option<Version>)
    ensures r.Some? ==> r.value in s && Visible(r.value, key, snapshot)
    ensures r.None? ==> forall v :: v in s ==> !Visible(v, key, snapshot)
  {
    if s == [] then None
    else if Visible(s[|s| - 1], key, snapshot) then Some(s[|s| - 1])
    else LastVisible(s[..|s| - 1], key, snapshot)
  }

  /** A read at a snapshot: Some(value) when the key is found, with a nil value allowed. */
  function SnapshotRead(s: seq<Version>, key: Bytes, snapshot: U64): Option<Option<Bytes>> {
    if key == [] then None
    else match LastVisible(s, key, snapshot)
      case Some(v) => if v.deleted then None else Some(v.value)
      case None => None
  }

  /** In key order the last visible version is the newest one: nothing visible is newer. */
  lemma LastVisibleIsNewest(s: seq<Version>, key: Bytes, snapshot: U64, v: Version)
    requires Sorted(s) && v in s && Visible(v, key, snapshot)
    ensures var r := LastVisible(s, key, snapshot);
      r.Some? && v.key.CommitTS() <= r.value.key.CommitTS()
  {
    SortedIsOrdered(s);
    LastInOrderIsNewest(s, key, snapshot, v);
  }

  lemma {:induction false} LastInOrderIsNewest(s: seq<Version>, key: Bytes, snapshot: U64, v: Version)
    requires NonDecreasing(s) && v in s && Visible(v, key, snapshot)
    ensures var r := LastVisible(s, key, snapshot);
      r.Some? && v.key.CommitTS() <= r.value.key.CommitTS()
  {
    var n := |s| - 1;
    if Visible(s[n], key, snapshot) {
      var i :| 0 <= i < |s| && s[i] == v;
      NodeKeyLessIsStrictTotalOrder(s[n].key, v.key, v.key);
    } else {
      LastInOrderIsNewest(s[..n], key, snapshot, v);
    }
  }

  /** Where the last visible version sits. */
  lemma {:induction false} LastVisibleIs(s: seq<Version>, key: Bytes, snapshot: U64, p: nat)
    requires p < |s| && Visible(s[p], key, snapshot)
    requires forall i :: p < i < |s| ==> !Visible(s[i], key, snapshot)
    ensures LastVisible(s, key, snapshot) == Some(s[p])
  {
    if p < |s| - 1 {
      LastVisibleIs(s[..|s| - 1], key, snapshot, p);
    }
  }

  // ------------------------------------------------------------- the map view

  function KeysOf(s: seq<Version>): set<MVCCKey> {
    set v <- s :: v.key
  }

  /** The contents as a partial map: the version stored under exactly this key. */
  function At(s: seq<Version>, k: MVCCKey): Option<Version> {
    if HasExact(s, k) then Some(s[LowerBound(s, k)]) else None
  }

  lemma HasMeansMember(s: seq<Version>, k: MVCCKey)
    requires Sorted(s)
    ensures Has(s, k) <==> k in KeysOf(s)
  {
    OrderLaws();
    LowerBoundSplits(s, k);
    if k in KeysOf(s) {
      var i :| 0 <= i < |s| && s[i].key == k;
      assert LowerBound(s, k) <= i;
    }
  }

  /** Insertion at the lower bound keeps the order. */
  lemma InsertSorted(s: seq<Version>, v: Version)
    requires Sorted(s)
    requires Has(s, v.key) ==> v.key.key == []
    ensures Sorted(InsertAt(s, LowerBound(s, v.key), v))
  {
    hide NodeKeyLess, LowerBound;
    var p := LowerBound(s, v.key);
    var r := InsertAt(s, p, v);
    forall i | 0 <= i < |s|
      ensures i < p ==> NodeKeyLess(s[i].key, v.key)
      ensures i >= p ==> NodeKeyLess(v.key, s[i].key) || (v.key == s[i].key && v.key.key == [])
    {
      AroundBound(s, v.key, i);
    }
    forall i, j | 0 <= i < j < |r|
      ensures NodeKeyLess(r[i].key, r[j].key) || (r[i].key == r[j].key && r[i].key.key == [])
    {
      assert i != p ==> r[i] == s[if i < p then i else i - 1];
      assert j != p ==> r[j] == s[if j < p then j else j - 1];
    }
  }

  /** What lies on either side of the lower bound. */
  lemma AroundBound(s: seq<Version>, k: MVCCKey, i: nat)
    requires Sorted(s) && i < |s| && (Has(s, k) ==> k.key == [])
    ensures i < LowerBound(s, k) ==> NodeKeyLess(s[i].key, k)
    ensures i >= LowerBound(s, k) ==> NodeKeyLess(k, s[i].key) || (k == s[i].key && k.key == [])
  {
    LowerBoundSplits(s, k);
    var p := LowerBound(s, k);
    if i >= p {
      NodeKeyLessIsStrictTotalOrder(k, s[p].key, s[i].key);
    }
  }

  lemma {:induction false} LiveCountInsert(s: seq<Version>, p: nat, v: Version)
    requires p <= |s|
    ensures LiveCount(InsertAt(s, p, v)) == LiveCount(s) + if v.deleted then 0 else 1
  {
    var r := InsertAt(s, p, v);
    if p > 0 {
      LiveCountInsert(s[1..], p - 1, v);
      assert r[1..] == InsertAt(s[1..], p - 1, v);
    } else {
      assert r[1..] == s;
    }
  }

  lemma {:induction false} LiveCountMark(s: seq<Version>, p: nat)
    requires p < |s| && !s[p].deleted
    ensures LiveCount(s[p := s[p].(deleted := true)]) == LiveCount(s) - 1
  {
    var r := s[p := s[p].(deleted := true)];
    if p > 0 {
      LiveCountMark(s[1..], p - 1);
      assert r[1..] == s[1..][p - 1 := s[p].(deleted := true)];
    } else {
      assert r[1..] == s[1..];
    }
  }

  // ------------------------------------------------- the versions of one user key

  /** The oldest version of a user key has the greatest inverted timestamp: nothing of the
      key lies before the lower bound of that timestamp. */
  lemma GroupStart(s: seq<Version>, key: Bytes, start: nat)
    requires start == LowerBound(s, MVCCKey(key, MAX_U64))
    ensures forall i :: 0 <= i < start ==> s[i].key.key != key
  {
    LowerBoundSplits(s, MVCCKey(key, MAX_U64));
    forall i | 0 <= i < start ensures s[i].key.key != key {
      CompareZero(key, key);
      assert NodeKeyLess(s[i].key, MVCCKey(key, MAX_U64));
    }
  }

  /** A key past the group of key, and everything after it. */
  lemma PastGroup(key: Bytes, a: MVCCKey, b: MVCCKey)
    requires !NodeKeyLess(a, MVCCKey(key, MAX_U64)) && a.key != key
    requires NodeKeyLess(a, b) || a == b
    ensures b.key != key
  {
    CompareIsTotalOrder(a.key, key, a.key);
    CompareIsTotalOrder(key, a.key, b.key);
    CompareIsTotalOrder(key, b.key, b.key);
  }

  /** Nothing from the lower bound on is below it. */
  lemma FromLowerBound(s: seq<Version>, k: MVCCKey, i: nat)
    requires Sorted(s) && LowerBound(s, k) <= i < |s|
    ensures !NodeKeyLess(s[i].key, k)
  {
    LowerBoundSplits(s, k);
    NodeKeyLessIsStrictTotalOrder(s[LowerBound(s, k)].key, s[i].key, k);
  }

  /** Past the lower bound, the first version of another user key ends the group. */
  lemma GroupEnd(s: seq<Version>, key: Bytes, i: nat)
    requires Sorted(s) && LowerBound(s, MVCCKey(key, MAX_U64)) <= i < |s| && s[i].key.key != key
    ensures forall j :: i <= j < |s| ==> s[j].key.key != key
  {
    FromLowerBound(s, MVCCKey(key, MAX_U64), i);
    forall j | i <= j < |s| ensures s[j].key.key != key {
      PastGroup(key, s[i].key, s[j].key);
    }
  }

  /** A version past the snapshot hides nothing older: all later versions are past it too. */
  lemma LaterInvisible(s: seq<Version>, i: nat, key: Bytes, snapshot: U64)
    requires Sorted(s) && i < |s| && s[i].key.key == key && s[i].key.CommitTS() > snapshot
    ensures forall j :: i <= j < |s| ==> !Visible(s[j], key, snapshot)
  {
    forall j | i < j < |s| ensures !Visible(s[j], key, snapshot) {
      NodeKeyLessIsStrictTotalOrder(s[i].key, s[j].key, s[j].key);
    }
  }

  // ------------------------------------------------------- what operations mean

  /** Every operation keeps the order. */
  lemma OperationsKeepSorted(s: seq<Version>, k: MVCCKey, value: Option<Bytes>)
    requires Sorted(s)
    ensures Sorted(PutInto(s, k, value)) && Sorted(DeleteInto(s, k))
    ensures Has(s, k) ==> Sorted(MarkDeleted(s, k))
  {
    if !Has(s, k) {
      InsertSorted(s, Version(k, value, false));
    }
    if !HasExact(s, k) {
      InsertSorted(s, Tombstone(k));
    }
  }

  /** Keys stay unique exactly when a delete does not meet its own key as the empty user key. */
  lemma DeleteKeepsKeysUnique(s: seq<Version>, k: MVCCKey)
    requires StrictlySorted(s)
    ensures StrictlySorted(DeleteInto(s, k)) <==> !(Has(s, k) && k.key == [])
  {
    OperationsKeepSorted(s, k, None);
    var p, r := LowerBound(s, k), DeleteInto(s, k);
    NodeKeyLessIsStrictTotalOrder(k, k, k);
    if Has(s, k) && k.key == [] {
      assert r[p].key == r[p + 1].key == k;
    } else if !Has(s, k) {
      forall i, j | 0 <= i < j < |r| ensures NodeKeyLess(r[i].key, r[j].key) {
        if r[i].key == r[j].key {
          assert i != p ==> r[i] == s[if i < p then i else i - 1];
          assert j != p ==> r[j] == s[if j < p then j else j - 1];
          assert forall q :: 0 <= q < |s| && s[q].key == k ==> k in KeysOf(s);
          HasMeansMember(s, k);
        }
      }
    }
  }

  /** Every version of a non-empty user key is found under its own key. */
  lemma AtIndex(s: seq<Version>, i: nat)
    requires Sorted(s) && i < |s| && s[i].key.key != []
    ensures LowerBound(s, s[i].key) == i && At(s, s[i].key) == Some(s[i])
  {
    var k := s[i].key;
    NodeKeyLessIsStrictTotalOrder(k, k, k);
    LowerBoundIs(s, k, i);
  }

  lemma AtAfterInsert(s: seq<Version>, v: Version, k: MVCCKey)
    requires Sorted(s) && !HasExact(s, v.key) && k.key != []
    ensures At(InsertAt(s, LowerBound(s, v.key), v), k) == if k == v.key then Some(v) else At(s, k)
  {
    var p := LowerBound(s, v.key);
    var r := InsertAt(s, p, v);
    InsertSorted(s, v);
    if k == v.key {
      assert r[p] == v;
      AtIndex(r, p);
    } else if HasExact(s, k) {
      var i := LowerBound(s, k);
      var i' := if i < p then i else i + 1;
      assert r[i'] == s[i];
      AtIndex(r, i');
    } else {
      InsertMembers(s, p, v);
      HasMeansMember(s, k);
      HasMeansMember(r, k);
    }
  }

  /** As a map: a put stores a live version under a new key and never overwrites one. */
  lemma AtAfterPut(s: seq<Version>, k: MVCCKey, value: Option<Bytes>, k': MVCCKey)
    requires Sorted(s) && k'.key != []
    ensures At(PutInto(s, k, value), k')
      == if k' == k && At(s, k) == None then Some(Version(k, value, false)) else At(s, k')
  {
    if !Has(s, k) {
      AtAfterInsert(s, Version(k, value, false), k');
    }
  }

  /** As a map: a delete leaves a tombstone under its key and touches no other key. */
  lemma AtAfterDelete(s: seq<Version>, k: MVCCKey, k': MVCCKey)
    requires Sorted(s) && k'.key != []
    ensures var r := At(DeleteInto(s, k), k');
      if k' == k then r.Some? && r.value.deleted else r == At(s, k')
  {
    if !HasExact(s, k) {
      AtAfterInsert(s, Tombstone(k), k');
    } else {
      AtAfterMark(s, k, k');
    }
  }

  lemma AtAfterMark(s: seq<Version>, k: MVCCKey, k': MVCCKey)
    requires Sorted(s) && HasExact(s, k) && k'.key != []
    ensures At(MarkDeleted(s, k), k') == if k' == k then Some(At(s, k).value.(deleted := true)) else At(s, k')
  {
    var p, r := LowerBound(s, k), MarkDeleted(s, k);
    LowerBoundSplits(s, k');
    var q := LowerBound(s, k');
    forall i | 0 <= i < q ensures NodeKeyLess(r[i].key, k') {
      assert r[i].key == s[i].key;
    }
    LowerBoundIs(r, k', q);
  }

  /** A visible version that no visible version is newer than is the one a read finds. */
  lemma NewestIsLastVisible(s: seq<Version>, key: Bytes, snapshot: U64, v: Version)
    requires Sorted(s) && key != [] && v in s && Visible(v, key, snapshot)
    requires forall u :: u in s && Visible(u, key, snapshot) ==> u.key.CommitTS() <= v.key.CommitTS()
    ensures LastVisible(s, key, snapshot) == Some(v)
  {
    LastVisibleIsNewest(s, key, snapshot, v);
    var u := LastVisible(s, key, snapshot).value;
    assert u.key == v.key;
    var i :| 0 <= i < |s| && s[i] == v;
    var j :| 0 <= j < |s| && s[j] == u;
    AtIndex(s, i);
    AtIndex(s, j);
  }

  /** Whether a version at k is what a read of key at the snapshot now finds. */
  predicate TakesOver(s: seq<Version>, k: MVCCKey, key: Bytes, snapshot: U64) {
    && k.key == key && k.CommitTS() <= snapshot
    && match LastVisible(s, key, snapshot)
       case Some(v) => v.key.CommitTS() <= k.CommitTS()
       case None => true
  }

  lemma LastVisibleAfterInsert(s: seq<Version>, v: Version, key: Bytes, snapshot: U64)
    requires Sorted(s) && !HasExact(s, v.key) && key != []
    ensures LastVisible(InsertAt(s, LowerBound(s, v.key), v), key, snapshot)
      == if TakesOver(s, v.key, key, snapshot) then Some(v) else LastVisible(s, key, snapshot)
  {
    var p := LowerBound(s, v.key);
    var r := InsertAt(s, p, v);
    InsertSorted(s, v);
    InsertMembers(s, p, v);
    var newest := LastVisible(s, key, snapshot);
    forall u | u in s && Visible(u, key, snapshot) ensures u.key.CommitTS() <= newest.value.key.CommitTS() {
      LastVisibleIsNewest(s, key, snapshot, u);
    }
    if TakesOver(s, v.key, key, snapshot) {
      NewestIsLastVisible(r, key, snapshot, v);
    } else if newest.Some? {
      NewestIsLastVisible(r, key, snapshot, newest.value);
    }
  }

  lemma InsertMembers(s: seq<Version>, p: nat, v: Version)
    requires p <= |s|
    ensures forall u :: u in InsertAt(s, p, v) <==> u in s || u == v
  {
    assert s == s[..p] + s[p..];
  }

  /** A put is seen by exactly the snapshots it takes over: all others read as before. */
  lemma ReadAfterPut(s: seq<Version>, k: MVCCKey, value: Option<Bytes>, key: Bytes, snapshot: U64)
    requires Sorted(s)
    ensures SnapshotRead(PutInto(s, k, value), key, snapshot)
      == if !Has(s, k) && key != [] && TakesOver(s, k, key, snapshot) then Some(value)
         else SnapshotRead(s, key, snapshot)
  {
    if !Has(s, k) && key != [] {
      LastVisibleAfterInsert(s, Version(k, value, false), key, snapshot);
    }
  }

  /** A delete hides the key from exactly the snapshots it takes over. */
  lemma ReadAfterDelete(s: seq<Version>, k: MVCCKey, key: Bytes, snapshot: U64)
    requires Sorted(s)
    ensures SnapshotRead(DeleteInto(s, k), key, snapshot)
      == if TakesOver(s, k, key, snapshot) then None else SnapshotRead(s, key, snapshot)
  {
    if key != [] {
      if !HasExact(s, k) {
        LastVisibleAfterInsert(s, Tombstone(k), key, snapshot);
      } else {
        LastVisibleAfterMark(s, k, key, snapshot);
      }
    }
  }

  lemma LastVisibleAfterMark(s: seq<Version>, k: MVCCKey, key: Bytes, snapshot: U64)
    requires Sorted(s) && HasExact(s, k) && key != []
    ensures LastVisible(MarkDeleted(s, k), key, snapshot)
      == if TakesOver(s, k, key, snapshot) then Some(s[LowerBound(s, k)].(deleted := true))
          else LastVisible(s, key, snapshot)
  {
    var p, r := LowerBound(s, k), MarkDeleted(s, k);
    OperationsKeepSorted(s, k, None);
    assert forall i :: 0 <= i < |s| ==> r[i].key == s[i].key && (i != p ==> r[i] == s[i]);
    var newest := LastVisible(s, key, snapshot);
    forall u | u in r && Visible(u, key, snapshot)
      ensures newest.Some? && u.key.CommitTS() <= newest.value.key.CommitTS()
    {
      var i :| 0 <= i < |r| && r[i] == u;
      LastVisibleIsNewest(s, key, snapshot, s[i]);
    }
    if TakesOver(s, k, key, snapshot) {
      NewestIsLastVisible(r, key, snapshot, r[p]);
    } else if newest.Some? {
      var i :| 0 <= i < |s| && s[i] == newest.value;
      assert r[i] == s[i];
      NewestIsLastVisible(r, key, snapshot, newest.value);
    }
  }

  // ------------------------------------------------------------- the latest version

  /** The last version of key that is not a tombstone. */
  function LastLive(s: seq<Version>, key: Bytes): (r: Option<Version>)
    ensures r.Some? ==> r.value in s && r.value.key.key == key && !r.value.deleted
    ensures r.None? ==> forall v :: v in s && v.key.key == key ==> v.deleted
  {
    if s == [] then None
    else if s[|s| - 1].key.key == key && !s[|s| - 1].deleted then Some(s[|s| - 1])
    else LastLive(s[..|s| - 1], key)
  }

  datatype Latest = Latest(value: Option<Bytes>, ts: U64, found: bool)

  /** What GetLatest answers: a live version hides every tombstone, even a newer one. */
  function LatestOf(s: seq<Version>, key: Bytes): Latest {
    match LastLive(s, key)
    case Some(v) => Latest(v.value, v.key.CommitTS(), true)
    case None =>
      match LastVisible(s, key, MAX_U64)
      case Some(v) => Latest(None, v.key.CommitTS(), false)
      case None => Latest(None, 0, false)
  }

  /** The commit timestamp of the newest version of key, 0 when there is none. */
  function LastCommit(s: seq<Version>, key: Bytes): U64 {
    match LastVisible(s, key, MAX_U64)
    case Some(v) => v.key.CommitTS()
    case None => 0
  }

  /** GetLatest reports the last commit of a key exactly when the newest version is live or
      no version is: after a delete of a live key it reports the older, live version. */
  lemma LatestIsLastCommit(s: seq<Version>, key: Bytes)
    requires Sorted(s) && key != []
    ensures LatestOf(s, key).ts == LastCommit(s, key)
      <==> LastLive(s, key).None? || !LastVisible(s, key, MAX_U64).value.deleted
  {
    var newest, live := LastVisible(s, key, MAX_U64), LastLive(s, key);
    if live.Some? {
      LastVisibleIsNewest(s, key, MAX_U64, live.value);
      if !newest.value.deleted {
        LastLiveIsNewest(s, key, newest.value);
      }
      if live.value.key.CommitTS() == newest.value.key.CommitTS() {
        NewestIsUnique(s, key, live.value);
      }
    }
  }

  lemma NewestIsUnique(s: seq<Version>, key: Bytes, v: Version)
    requires Sorted(s) && key != [] && v in s && v.key.key == key
    requires var r := LastVisible(s, key, MAX_U64); r.Some? && r.value.key.CommitTS() == v.key.CommitTS()
    ensures LastVisible(s, key, MAX_U64) == Some(v)
  {
    forall u | u in s && Visible(u, key, MAX_U64) ensures u.key.CommitTS() <= v.key.CommitTS() {
      LastVisibleIsNewest(s, key, MAX_U64, u);
    }
    NewestIsLastVisible(s, key, MAX_U64, v);
  }

  lemma {:induction false} LastLiveIsNewest(s: seq<Version>, key: Bytes, v: Version)
    requires Sorted(s) && v in s && v.key.key == key && !v.deleted
    ensures LastLive(s, key).Some? && v.key.CommitTS() <= LastLive(s, key).value.key.CommitTS()
  {
    var n := |s| - 1;
    if s[n].key.key == key && !s[n].deleted {
      var i :| 0 <= i < |s| && s[i] == v;
      NodeKeyLessIsStrictTotalOrder(v.key, s[n].key, s[n].key);
    } else {
      LastLiveIsNewest(s[..n], key, v);
    }
  }

  /** GetLatest finds a key exactly when some version of it is live, and then answers with the value
      of a live version that no other live one is newer than. Of a key that it does not find it
      reports the last commit, and no value. */
  lemma LatestIsNewestLive(s: seq<Version>, key: Bytes)
    requires Sorted(s)
    ensures var r := LatestOf(s, key);
      && (r.found <==> exists v :: v in s && v.key.key == key && !v.deleted)
      && (r.found ==>
            && Version(NewMVCCKey(key, r.ts), r.value, false) in s
            && forall v :: v in s && v.key.key == key && !v.deleted ==> v.key.CommitTS() <= r.ts)
      && (!r.found ==> r.value == None && r.ts == LastCommit(s, key))
  {
    var live := LastLive(s, key);
    forall v | v in s && v.key.key == key && !v.deleted
      ensures live.Some? && v.key.CommitTS() <= live.value.key.CommitTS()
    {
      LastLiveIsNewest(s, key, v);
    }
    if live.Some? {
      assert live.value == Version(NewMVCCKey(key, live.value.key.CommitTS()), live.value.value, false);
    }
  }

  /** Put at 1, delete at 2: GetLatest still answers 1, so a conflict check that asks it
      about a transaction begun at 1 misses the delete. */
  lemma LatestMissesDelete()
    ensures var key: Bytes := [7];
      var s := DeleteInto(PutInto([], NewMVCCKey(key, 1), Some([1])), NewMVCCKey(key, 2));
      LastCommit(s, key) == 2 && LatestOf(s, key).ts == 1
  {
    var key: Bytes := [7];
    var k1, k2 := NewMVCCKey(key, 1), NewMVCCKey(key, 2);
    NodeKeyLessIsStrictTotalOrder(k1, k2, k2);
    var s1 := PutInto([], k1, Some([1]));
    assert s1 == [Version(k1, Some([1]), false)];
    LowerBoundIs(s1, k2, 1);
    var s := DeleteInto(s1, k2);
    assert s == [Version(k1, Some([1]), false), Tombstone(k2)];
    assert s[..1] == s1 && s1[..0] == [];
    LastVisibleIs(s, key, MAX_U64, 1);
  }
}
