/** Versioned keys: a user key with its inverted commit timestamp, and their order. */
module Mvcc {
  import opened Base
  import opened Keys

  /** ts is stored inverted: MAX_U64 minus the commit timestamp. */
  datatype MVCCKey = MVCCKey(key: Bytes, ts: U64)
  {
    function CommitTS(): (commitTS: U64)
      ensures NewMVCCKey(key, commitTS) == this
    {
      MAX_U64 - ts
    }
  }

  function NewMVCCKey(key: Bytes, commitTS: U64): MVCCKey {
    MVCCKey(key, MAX_U64 - commitTS)
  }

  /** The order of the skip list and of the SSTable: user key ascending, then the inverted
      timestamp descending, which runs the versions of one key from oldest to newest. */
  predicate NodeKeyLess(a: MVCCKey, b: MVCCKey) {
    var cmp := Compare(a.key, b.key);
    cmp < 0 || (cmp == 0 && a.ts > b.ts)
  }

  /** NodeKeyLess is a strict total order, and within one user key it is commit order. */
  lemma NodeKeyLessIsStrictTotalOrder(a: MVCCKey, b: MVCCKey, c: MVCCKey)
    ensures !NodeKeyLess(a, a)
    ensures NodeKeyLess(a, b) ==> !NodeKeyLess(b, a)
    ensures NodeKeyLess(a, b) && NodeKeyLess(b, c) ==> NodeKeyLess(a, c)
    ensures NodeKeyLess(a, b) || NodeKeyLess(b, a) || a == b
    ensures a.key == b.key ==> (NodeKeyLess(a, b) <==> a.CommitTS() < b.CommitTS())
  {
    CompareIsTotalOrder(a.key, b.key, c.key);
    CompareZero(a.key, a.key);
    CompareZero(b.key, c.key);
  }

  /** The same laws for all keys at once, for proofs about sorted sequences. */
  lemma OrderLaws()
    ensures forall a: MVCCKey :: !NodeKeyLess(a, a)
    ensures forall a, b :: NodeKeyLess(a, b) ==> !NodeKeyLess(b, a)
    ensures forall a, b, c :: NodeKeyLess(a, b) && NodeKeyLess(b, c) ==> NodeKeyLess(a, c)
    ensures forall a, b :: NodeKeyLess(a, b) || NodeKeyLess(b, a) || a == b
  {
    forall a: MVCCKey, b: MVCCKey, c: MVCCKey
      ensures !NodeKeyLess(a, a)
      ensures NodeKeyLess(a, b) ==> !NodeKeyLess(b, a)
      ensures NodeKeyLess(a, b) && NodeKeyLess(b, c) ==> NodeKeyLess(a, c)
      ensures NodeKeyLess(a, b) || NodeKeyLess(b, a) || a == b
    {
      NodeKeyLessIsStrictTotalOrder(a, b, c);
    }
  }
}
