/** The conflict check of a commit: the bounded cache first, and on a miss what the memtable
    reports as the latest version. When the check is right, and when it is not. */
module Conflict {
  import opened Base
  import opened Cache
  import opened Mvcc
  import opened Versions

  /** The timestamp that a check of the key goes by. */
  function Reported(c: Lru, s: seq<Version>, key: Bytes): U64 {
    if key in c.entries then c.entries[key] else LatestOf(s, key).ts
  }

  /** Checks the keys in their order up to the first conflict. */
  function CheckAll(c: Lru, s: seq<Version>, keys: seq<Bytes>, startTS: U64): (bool, Lru) {
    if keys == [] then (false, c)
    else
      var r, key := CheckAll(c, s, keys[..|keys| - 1], startTS), keys[|keys| - 1];
      if r.0 then r else r.1.Checked(key, startTS, LatestOf(s, key).ts)
  }

  /** Some key was committed after startTS. */
  ghost predicate Conflicting(s: seq<Version>, keys: seq<Bytes>, startTS: U64) {
    exists k :: k in keys && LastCommit(s, k) > startTS
  }

  /** No entry of the cache is ahead of the last commit of its key. */
  ghost predicate NotAhead(c: Lru, s: seq<Version>) {
    c.Valid() && c.cap > 0 && forall k :: k in c.entries ==> c.entries[k] <= LastCommit(s, k)
  }

  /** Every entry of the cache is the last commit of its key. */
  ghost predicate Agrees(c: Lru, s: seq<Version>) {
    c.Valid() && c.cap > 0 && forall k :: k in c.entries ==> c.entries[k] == LastCommit(s, k)
  }

  /** The condition under which a check goes wrong. */
  predicate Stale(c: Lru, s: seq<Version>, key: Bytes, startTS: U64) {
    Reported(c, s, key) <= startTS < LastCommit(s, key)
  }

  /** What the memtable reports is never ahead of the last commit. */
  lemma LatestNotAhead(s: seq<Version>, key: Bytes)
    requires Sorted(s)
    ensures LatestOf(s, key).ts <= LastCommit(s, key)
  {
    var live := LastLive(s, key);
    if live.Some? {
      LastVisibleIsNewest(s, key, MAX_U64, live.value);
    }
  }

  /** A check answers by the reported timestamp, keeps what is cached about other keys, and caches
      what was reported, in front, and no more. */
  lemma CheckedReports(c: Lru, s: seq<Version>, key: Bytes, startTS: U64)
    requires c.Valid() && c.cap > 0
    ensures var r := c.Checked(key, startTS, LatestOf(s, key).ts);
      && r.0 == (Reported(c, s, key) > startTS) && r.1.Valid() && r.1.cap == c.cap
      && (forall k :: k in r.1.entries && k != key ==> k in c.entries && r.1.entries[k] == c.entries[k])
      && (key in r.1.entries ==> r.1.entries[key] == Reported(c, s, key))
      && (key in c.entries || Reported(c, s, key) > 0 ==> key in r.1.entries && r.1.order != [] && r.1.order[0] == key)
      && (key in c.entries || LatestOf(s, key).ts == 0 || |c.order| < c.cap ==>
            forall k :: k in c.entries ==> k in r.1.entries)
  {
    hide LatestOf;
    TouchedMembers(c, key);
    UpdatedMembers(c, key, LatestOf(s, key).ts);
  }

  /** The exact condition for one key. A check never raises a false alarm, and it misses a
      commit exactly when what is reported is at or below the start and the last commit is not.
      With a right cache that takes an uncached key whose newest version is a tombstone over an
      older version that is live. */
  lemma CheckIsWrongIff(c: Lru, s: seq<Version>, key: Bytes, startTS: U64)
    requires Sorted(s) && NotAhead(c, s)
    ensures var found := c.Checked(key, startTS, LatestOf(s, key).ts).0;
      && (found ==> LastCommit(s, key) > startTS)
      && (found != (LastCommit(s, key) > startTS) <==> Stale(c, s, key, startTS))
    ensures Agrees(c, s) ==>
      (Stale(c, s, key, startTS) <==> key !in c.entries && LatestOf(s, key).ts <= startTS < LastCommit(s, key))
    ensures Agrees(c, s) && key != [] && Stale(c, s, key, startTS) ==>
      LastLive(s, key).Some? && LastVisible(s, key, MAX_U64).Some? && LastVisible(s, key, MAX_U64).value.deleted
  {
    hide LatestOf, LastCommit;
    CheckedReports(c, s, key, startTS);
    LatestNotAhead(s, key);
    if key != [] {
      LatestIsLastCommit(s, key);
      NoneIsZero(s, key);
    }
  }

  lemma NoneIsZero(s: seq<Version>, key: Bytes)
    ensures LastVisible(s, key, MAX_U64).None? ==> LastCommit(s, key) == 0
  {
  }

  lemma CheckedNotAhead(c: Lru, s: seq<Version>, key: Bytes, startTS: U64)
    requires Sorted(s) && NotAhead(c, s)
    ensures NotAhead(c.Checked(key, startTS, LatestOf(s, key).ts).1, s)
  {
    hide LatestOf, LastCommit;
    CheckedReports(c, s, key, startTS);
    LatestNotAhead(s, key);
  }

  lemma {:induction false} CheckAllNotAhead(c: Lru, s: seq<Version>, keys: seq<Bytes>, startTS: U64)
    requires Sorted(s) && NotAhead(c, s)
    ensures NotAhead(CheckAll(c, s, keys, startTS).1, s) && CheckAll(c, s, keys, startTS).1.cap == c.cap
  {
    hide NotAhead, LatestOf;
    if keys != [] {
      var init, key := keys[..|keys| - 1], keys[|keys| - 1];
      CheckAllNotAhead(c, s, init, startTS);
      var r := CheckAll(c, s, init, startTS);
      CheckedNotAhead(r.1, s, key, startTS);
      NotAheadIsValid(r.1, s);
      CheckedReports(r.1, s, key, startTS);
    }
  }

  lemma NotAheadIsValid(c: Lru, s: seq<Version>)
    requires NotAhead(c, s)
    ensures c.Valid() && c.cap > 0
  {
  }

  /** Some key was stale at the moment it was checked. */
  ghost predicate Missed(c: Lru, s: seq<Version>, keys: seq<Bytes>, startTS: U64) {
    exists n :: 0 <= n < |keys| && StaleAt(c, s, keys, startTS, n)
  }

  predicate StaleAt(c: Lru, s: seq<Version>, keys: seq<Bytes>, startTS: U64, n: nat)
    requires n < |keys|
  {
    Stale(CheckAll(c, s, keys[..n], startTS).1, s, keys[n], startTS)
  }

  /** Both halves for all keys: a reported conflict is one, and when none is reported there is
      one exactly when a key was missed. */
  lemma {:induction false} CheckAllIff(c: Lru, s: seq<Version>, keys: seq<Bytes>, startTS: U64)
    requires Sorted(s) && NotAhead(c, s)
    ensures CheckAll(c, s, keys, startTS).0 ==> Conflicting(s, keys, startTS)
    ensures !CheckAll(c, s, keys, startTS).0 ==> (Conflicting(s, keys, startTS) <==> Missed(c, s, keys, startTS))
  {
    hide LastCommit, NotAhead, Reported, Stale, LatestOf;
    if keys != [] {
      var n := |keys| - 1;
      var init, key := keys[..n], keys[n];
      CheckAllIff(c, s, init, startTS);
      CheckAllNotAhead(c, s, init, startTS);
      CheckIsWrongIff(CheckAll(c, s, init, startTS).1, s, key, startTS);
      MissedLast(c, s, keys, startTS);
      assert forall k :: k in keys <==> k in init || k == key by {
        assert keys == init + [key];
      }
    }
  }

  lemma MissedLast(c: Lru, s: seq<Version>, keys: seq<Bytes>, startTS: U64)
    requires keys != []
    ensures var n := |keys| - 1;
      Missed(c, s, keys, startTS) <==> Missed(c, s, keys[..n], startTS) || StaleAt(c, s, keys, startTS, n)
  {
    hide Stale, CheckAll;
    var n := |keys| - 1;
    var init := keys[..n];
    forall m | 0 <= m < n ensures StaleAt(c, s, init, startTS, m) == StaleAt(c, s, keys, startTS, m) {
      assert init[..m] == keys[..m];
    }
    if Missed(c, s, keys, startTS) {
      var m :| 0 <= m < |keys| && StaleAt(c, s, keys, startTS, m);
      assert m < n ==> StaleAt(c, s, init, startTS, m);
    }
    if Missed(c, s, init, startTS) {
      var m :| 0 <= m < |init| && StaleAt(c, s, init, startTS, m);
      assert StaleAt(c, s, keys, startTS, m);
    }
  }

  // ------------------------------------------------------------------ after a write

  /** The cache after a batch that writes the keys in their order at one timestamp. */
  function CacheAfter(c: Lru, keys: seq<Bytes>, ts: U64): Lru {
    if keys == [] then c else CacheAfter(c, keys[..|keys| - 1], ts).Updated(keys[|keys| - 1], ts)
  }

  lemma {:induction false} CacheAfterMembers(c: Lru, keys: seq<Bytes>, ts: U64)
    requires c.Valid() && c.cap > 0
    ensures var r := CacheAfter(c, keys, ts);
      && r.Valid() && r.cap == c.cap
      && forall k :: k in r.entries ==>
           if k in keys then r.entries[k] == ts else k in c.entries && r.entries[k] == c.entries[k]
  {
    if keys != [] {
      var init, key := keys[..|keys| - 1], keys[|keys| - 1];
      CacheAfterMembers(c, init, ts);
      UpdatedMembers(CacheAfter(c, init, ts), key, ts);
      assert keys == init + [key];
    }
  }

  /** One of the keys is reported above startTS, once the checks before it have left their marks on
      the cache. */
  ghost predicate SomeReportedAbove(c: Lru, s: seq<Version>, keys: seq<Bytes>, startTS: U64) {
    exists n :: 0 <= n < |keys| && ReportedAboveAt(c, s, keys, startTS, n)
  }

  predicate ReportedAboveAt(c: Lru, s: seq<Version>, keys: seq<Bytes>, startTS: U64, n: nat)
    requires n < |keys|
  {
    Reported(CheckAll(c, s, keys[..n], startTS).1, s, keys[n]) > startTS
  }

  /** The loop finds a conflict exactly when one of the keys is reported above the start. */
  lemma {:induction false} CheckAllReports(c: Lru, s: seq<Version>, keys: seq<Bytes>, startTS: U64)
    requires c.Valid() && c.cap > 0
    ensures CheckAll(c, s, keys, startTS).1.Valid() && CheckAll(c, s, keys, startTS).1.cap == c.cap
    ensures CheckAll(c, s, keys, startTS).0 <==> SomeReportedAbove(c, s, keys, startTS)
  {
    hide LatestOf, Lru.Checked, Reported, Lru.Valid;
    if keys != [] {
      var n := |keys| - 1;
      var init := keys[..n];
      CheckAllReports(c, s, init, startTS);
      var r := CheckAll(c, s, init, startTS);
      CheckedReports(r.1, s, keys[n], startTS);
      forall i | 0 <= i < n
        ensures ReportedAboveAt(c, s, keys, startTS, i) == ReportedAboveAt(c, s, init, startTS, i)
      {
        assert keys[..i] == init[..i];
      }
      if r.0 {
        var i :| 0 <= i < n && ReportedAboveAt(c, s, init, startTS, i);
        assert ReportedAboveAt(c, s, keys, startTS, i);
      } else {
        assert forall i :: 0 <= i < n ==> !ReportedAboveAt(c, s, init, startTS, i);
        assert CheckAll(c, s, keys, startTS).0 == ReportedAboveAt(c, s, keys, startTS, n);
      }
    }
  }
}
