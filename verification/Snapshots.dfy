/** The registry of open snapshots and its minimum, the watermark of compaction. */
module Snapshots {
  import opened Base

  /** How often each timestamp is open, and the minimum kept beside the counts; 0 is none. */
  datatype Registry = Registry(counts: map<U64, nat>, min: U64)
  {
    ghost predicate Valid() {
      forall t :: t in counts ==> counts[t] > 0
    }

    /** The minimum is right. */
    ghost predicate Exact() {
      if counts == map[] then min == 0 else min in counts && forall t :: t in counts ==> min <= t
    }
  }

  const NO_SNAPSHOTS := Registry(map[], 0)

  function CountIn(r: Registry, t: U64): nat {
    if t in r.counts then r.counts[t] else 0
  }

  function Registered(r: Registry, t: U64): Registry {
    Registry(r.counts[t := CountIn(r, t) + 1], if r.min == 0 || t < r.min then t else r.min)
  }

  /** The counts without one holder of t. */
  function Dropped(r: Registry, t: U64): map<U64, nat> {
    if CountIn(r, t) > 1 then r.counts[t := r.counts[t] - 1] else r.counts - {t}
  }

  /** The smallest open timestamp, 0 when none is open. */
  ghost function MinOf(counts: map<U64, nat>): (m: U64)
    ensures Registry(counts, m).Exact()
  {
    if counts == map[] then 0
    else
      SmallestExists(counts.Keys);
      var m :| m in counts && forall t :: t in counts ==> m <= t;
      m
  }

  lemma {:induction false} SmallestExists(s: set<U64>)
    requires s != {}
    ensures exists m :: m in s && forall t :: t in s ==> m <= t
  {
    var m := Smallest(s);
  }

  lemma {:induction false} Smallest(s: set<U64>) returns (m: U64)
    requires s != {}
    ensures m in s && forall t :: t in s ==> m <= t
  {
    m :| m in s;
    var rest := s - {m};
    assert forall t :: t in s ==> t == m || t in rest;
    if rest != {} {
      var y := Smallest(rest);
      if y < m {
        m := y;
      }
    }
  }

  /** One holder of t is gone and the minimum recomputed; a timestamp that is not open is left alone. */
  ghost function Unregistered(r: Registry, t: U64): Registry {
    if t !in r.counts then r else Registry(Dropped(r, t), MinOf(Dropped(r, t)))
  }

  class SnapshotRegistry {
    var counts: map<U64, nat>
    var min: U64

    function Abs(): Registry
      reads this
    {
      Registry(counts, min)
    }

    constructor ()
      ensures Abs() == NO_SNAPSHOTS
    {
      counts, min := map[], 0;
    }

    method RegisterSnapshot(snapshotTS: U64)
      requires Abs().Valid()
      modifies this
      ensures Abs() == Registered(old(Abs()), snapshotTS) && Abs().Valid()
    {
      counts := counts[snapshotTS := (if snapshotTS in counts then counts[snapshotTS] else 0) + 1];
      if min == 0 || snapshotTS < min {
        min := snapshotTS;
      }
    }

    /** A timestamp that is not open is left alone. */
    method UnregisterSnapshot(snapshotTS: U64)
      requires Abs().Valid()
      modifies this
      ensures Abs() == Unregistered(old(Abs()), snapshotTS) && Abs().Valid()
    {
      if snapshotTS !in counts {
        return;
      }
      if counts[snapshotTS] > 1 {
        counts := counts[snapshotTS := counts[snapshotTS] - 1];
      } else {
        counts := counts - {snapshotTS};
      }
      RecomputeMin();
    }

    /** The minimum over the keys, which come in any order. */
    method RecomputeMin()
      modifies this`min
      ensures Abs().Exact()
    {
      if |counts| == 0 {
        min := 0;
        return;
      }
      var newMin, first := 0, true;
      var rest := counts.Keys;
      while rest != {}
        invariant rest <= counts.Keys
        invariant first <==> rest == counts.Keys
        invariant !first ==> newMin in counts && forall t :: t in counts && t !in rest ==> newMin <= t
        decreases |rest|
      {
        var ts :| ts in rest;
        if first || ts < newMin {
          newMin := ts;
          first := false;
        }
        rest := rest - {ts};
      }
      min := newMin;
    }
  }

  /** Registering keeps the minimum exact, unless a snapshot at 0 is open beside the new one:
      a minimum of 0 reads as no snapshot at all. */
  lemma RegisterKeepsExact(r: Registry, t: U64)
    requires r.Valid() && r.Exact()
    ensures Registered(r, t).Valid()
    ensures Registered(r, t).Exact() <==> !(0 in r.counts && t > 0)
  {
    var after := Registered(r, t);
    assert t in after.counts;
    if 0 in r.counts && t > 0 {
      assert 0 in after.counts;
    }
  }

  /** A snapshot that is closed lowers its own count only, and leaves an exact minimum. */
  lemma UnregisterCounts(r: Registry, t: U64, u: U64)
    requires r.Valid() && r.Exact()
    ensures Unregistered(r, t).Valid() && Unregistered(r, t).Exact()
    ensures CountIn(Unregistered(r, t), u) == if u == t && CountIn(r, t) > 0 then CountIn(r, t) - 1 else CountIn(r, u)
  {
  }
}
