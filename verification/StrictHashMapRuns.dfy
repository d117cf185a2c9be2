/** Whole runs on a StrictHashMap of PHP values: any sequence of operations from the empty map. */
module StrictHashMapRuns {
  import opened AssocList
  import opened ByteStrings
  import opened CompactionCost
  import opened StrictHashMaps
  import opened StrictHashes
  import opened Zvals

  /** One operation; `ok` is false when the process ends because the map may not grow. */
  method Perform<K(!new), V>(m: StrictHashMap<K, V>, op: Op<K, V>) returns (ok: bool)
    requires m.Reachable()
    modifies m, m.arData, m.arHash
    ensures m.Reachable() && (m.arData == old(m.arData) || fresh(m.arData))
    ensures m.arHash == old(m.arHash) || fresh(m.arHash)
    ensures m.history == if ok then old(m.history) + [op] else old(m.history)
    ensures ok ==> m.Contents() == Apply(m.keys, old(m.Contents()), op)
    ensures !ok ==> m.Contents() == old(m.Contents())
    ensures !ok ==> op.Insert? && m.Exhausted() && !Has(m.keys, m.Contents(), op.key)
    ensures !ok ==> |m.Contents()| + |m.Contents()| / 32 >= m.maxPairs / 2
  {
    hide StrictHashMap.Reachable, StrictHashMap.Valid, StrictHashMap.Contents, Put, Del, Has;
    ok := true;
    match op
    case Insert(key, value) =>
      ok := m.OffsetSet(key, value);
    case Remove(key) =>
      m.OffsetUnset(key);
    case Clear =>
      m.ClearAll();
  }

  /**
   Performs the operations one by one. The map is then the list that the operations performed describe, and
   it stops early only at a new key for which there is no room.
   */
  method RunOps<V>(stringHash: Bytes -> UInt64, maxPairs: nat, ops: seq<Op<Zval, V>>)
    returns (m: StrictHashMap<Zval, V>, ran: nat)
    requires 16 <= maxPairs <= 0x4000_0000
    ensures fresh(m) && m.Reachable() && m.keys == ZvalKeys(stringHash) && m.maxPairs == maxPairs
    ensures ran <= |ops| && m.history == ops[..ran]
    ensures Chronicles(m.keys, ops[..ran], m.Contents()) && |m.Contents()| < maxPairs
    ensures ran < |ops| ==> ops[ran].Insert? && m.Exhausted() && !Has(m.keys, m.Contents(), ops[ran].key)
    ensures (forall i :: 0 <= i <= |ops| ==>
               var n := |Run(ZvalKeys(stringHash), ops[..i])|;
               n + n / 32 < maxPairs / 2) ==> ran == |ops|
    ensures m.walked <= Allowance(ops[..ran]) <= 31 * ran
  {
    ZvalKeysAreLawful(stringHash);
    hide *;
    m := new StrictHashMap(ZvalKeys(stringHash), maxPairs);
    ran := 0;
    while ran < |ops|
      invariant fresh(m) && fresh(m.arData) && fresh(m.arHash)
      invariant m.Reachable() && m.keys == ZvalKeys(stringHash) && m.maxPairs == maxPairs
      invariant ran <= |ops| && m.history == ops[..ran]
    {
      var ok := Perform(m, ops[ran]);
      if !ok {
        break;
      }
      ran := ran + 1;
    }
    m.ReachableIsRun();
    m.ReachableIsChronicled();
    m.WalkedIsLinear();
  }
}
