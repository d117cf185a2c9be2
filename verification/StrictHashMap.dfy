/**
 Teds\StrictHashMap: an insertion-ordered hash table with index-linked collision chains, tombstones,
 a tight used window, in-place compaction and growth by doubling, proved to be an association list.
 */
module StrictHashMaps {
  import opened Wrappers
  import opened AssocList
  import opened Bitwise
  import opened CompactionCost
  import opened HashSlots

  class StrictHashMap<K(!new), V> {
    const keys: Keys<K>
    /** The limit on the number of pairs of generic values; a multiple of two, at most 2^30. */
    const maxPairs: nat

    var arData: array<Entry<K, V>>
    var arHash: array<nat>
    var nNumOfElements: nat
    var nTableSize: nat
    var nNumUsed: nat
    var nFirstUsed: nat

    /** The operations performed so far through the public interface. */
    ghost var history: seq<Op<K, V>>
    /** The slots walked so far by all compactions and doublings. */
    ghost var walked: nat

    /**
     In every reachable state the table is sound and spells the list its whole history describes, and the
     history has paid for the walks so far and for what is saved up for the next one.
     */
    ghost predicate Reachable()
      reads this, arData, arHash
    {
      && Valid()
      && Contents() == Run(keys, history)
      && walked + Saved() <= Allowance(history)
    }

    ghost function Saved(): int
      reads this
    {
      Savings(nTableSize, nNumUsed, nNumOfElements)
    }

    /** What a reachable map holds, told from its history alone. */
    lemma ReachableIsChronicled()
      requires Reachable()
      ensures Chronicles(keys, history, Contents())
    {
      RunIsChronicled(keys, history);
      hide *;
    }

    lemma ReachableIsRun()
      requires Reachable()
      ensures Contents() == Run(keys, history) && |Contents()| < maxPairs
    {
      NoMoreThanUsed();
      hide Linked, HashesOk, Distinct, IsPow2, Pairs;
    }

    /** Amortised, compaction and growth walk a constant number of slots for each operation. */
    lemma WalkedIsLinear()
      requires Reachable()
      ensures walked <= Allowance(history) <= 31 * |history|
    {
      AllowanceIsLinear(history);
      NoMoreThanUsed();
      hide Allowance, Valid, Run;
    }

    lemma NoMoreThanUsed()
      requires Valid()
      ensures nNumOfElements <= nNumUsed && Saved() >= 0
    {
      NoMorePairs(Rep().d[..Rep().used]);
      hide Linked, HashesOk, Distinct, IsPow2, Pairs;
    }

    ghost predicate Valid()
      reads this, arData, arHash
    {
      && keys.Lawful() && 16 <= maxPairs <= 0x4000_0000
      && nTableSize == arData.Length && nTableSize < maxPairs
      && Ok(keys, Rep())
    }

    ghost function Rep(): Table<K, V>
      reads this, arData, arHash
    {
      Table(arData[..], arHash[..], nNumUsed, nFirstUsed, nNumOfElements)
    }

    /** The map as its users see it. */
    ghost function Contents(): seq<Pair<K, V>>
      reads this, arData, arHash
      requires Valid()
    {
      View(Rep())
    }

    /** No free slot, too few gaps to compact, and doubling would pass the limit. */
    predicate Exhausted()
      reads this
    {
      nNumUsed == nTableSize >= maxPairs / 2 && nNumUsed <= nNumOfElements + nNumOfElements / 32
    }

    /** The live entries alone come near half of the limit. */
    predicate NearLimit()
      reads this
    {
      nNumOfElements + nNumOfElements / 32 >= maxPairs / 2
    }

    lemma ContentsNearLimit()
      requires Valid() && NearLimit()
      ensures |Contents()| + |Contents()| / 32 >= maxPairs / 2
    {
      hide Linked, HashesOk, Distinct, IsPow2, Pairs;
    }

    constructor (keys: Keys<K>, maxPairs: nat)
      requires keys.Lawful() && 16 <= maxPairs <= 0x4000_0000
      ensures Reachable() && Contents() == [] && history == [] && fresh(arData) && fresh(arHash)
      ensures this.keys == keys && this.maxPairs == maxPairs
    {
      this.keys, this.maxPairs := keys, maxPairs;
      arData := new Entry<K, V>[0];
      arHash := new nat[0];
      nNumOfElements, nTableSize, nNumUsed, nFirstUsed := 0, 0, 0, 0;
      history, walked := [], 0;
    }

    // ----- Public interface -----

    /** `$map[$key] = $value` */
    method OffsetSet(key: K, value: V) returns (ok: bool)
      requires Reachable()
      modifies this, arData, arHash
      ensures Reachable() && (arData == old(arData) || fresh(arData)) && (arHash == old(arHash) || fresh(arHash))
      ensures history == if ok then old(history) + [Op.Insert(key, value)] else old(history)
      ensures ok ==> Contents() == Put(keys, old(Contents()), key, value)
      ensures !ok <==> old(Exhausted()) && !Has(keys, old(Contents()), key)
      ensures !ok ==> Exhausted() && Contents() == old(Contents())
      ensures !ok ==> |Contents()| + |Contents()| / 32 >= maxPairs / 2
    {
      HistoryExtends(keys, history, Op.Insert(key, value));
      hide Ok, View, Run, Allowance, Savings, Keys.Lawful, Put, Has, Exhausted;
      var outcome := Insert(key, value, false);
      ok := outcome != CapacityExceeded;
      if !ok {
        ContentsNearLimit();
      }
      history := if ok then history + [Op.Insert(key, value)] else history;
    }

    /** `unset($map[$key])`; an absent key is ignored. */
    method OffsetUnset(key: K)
      requires Reachable()
      modifies this, arData, arHash
      ensures Reachable() && arData == old(arData) && arHash == old(arHash)
      ensures history == old(history) + [Op<K, V>.Remove(key)]
      ensures Contents() == Del(keys, old(Contents()), key)
    {
      HistoryExtends(keys, history, Op<K, V>.Remove(key));
      hide Ok, View, Run, Allowance, Savings, Keys.Lawful, Del;
      var _ := RemoveKey(key);
      history := history + [Op<K, V>.Remove(key)];
    }

    method ClearAll()
      requires Reachable()
      modifies this
      ensures Reachable() && (arData == old(arData) || fresh(arData)) && (arHash == old(arHash) || fresh(arHash))
      ensures history == old(history) + [Op<K, V>.Clear] && Contents() == []
    {
      NoMoreThanUsed();
      HistoryExtends(keys, history, Op<K, V>.Clear);
      hide Ok, View, Run, Allowance, Savings, Keys.Lawful;
      Clear();
      history := history + [Op<K, V>.Clear];
    }

    /** Looks a key up; `None` is the missing-key exception. */
    method Get(key: K) returns (value: Option<V>)
      requires Valid()
      ensures value == var i := IndexOf(keys, Contents(), key); if i >= 0 then Some(Contents()[i].value) else None
    {
      if nNumOfElements == 0 {
        return None;
      }
      var p := FindBucket(key, keys.hash(key));
      if p == INVALID_INDEX {
        return None;
      }
      RankOfLive(arData[..nNumUsed], p);
      return Some(arData[p].kv.value.value);
    }

    /** Nothing is listed before the first used slot. */
    lemma LeadingGap()
      requires Valid()
      ensures nFirstUsed <= nNumUsed <= arData.Length
      ensures Pairs(arData[..nNumUsed][..nFirstUsed]) == [] && Pairs(arData[..nNumUsed]) == Contents()
    {
      hide Linked, HashesOk, Distinct, IsPow2;
      PairsOfDead(arData[..nNumUsed][..nFirstUsed]);
    }

    method ToPairs() returns (list: seq<Pair<K, V>>)
      requires Valid()
      ensures list == Contents()
    {
      LeadingGap();
      list := ListLive();
    }

    /** Walks the buckets from the first used slot, skipping gaps. */
    method ListLive() returns (list: seq<Pair<K, V>>)
      requires nFirstUsed <= nNumUsed <= arData.Length && Pairs(arData[..nNumUsed][..nFirstUsed]) == []
      ensures list == Pairs(arData[..nNumUsed])
    {
      hide *;
      ghost var d := arData[..nNumUsed];
      list := [];
      var p := nFirstUsed;
      while p < nNumUsed
        invariant nFirstUsed <= p <= nNumUsed
        invariant list == Pairs(d[..p])
      {
        PairsStep(d, p);
        if arData[p].kv.Some? {
          list := list + [arData[p].kv.value];
        }
        p := p + 1;
      }
      assert d[..nNumUsed] == d;
    }

    // ----- The table -----

    /** Frees the storage and starts over with the shared empty list. */
    method Clear()
      requires Valid()
      modifies this
      ensures history == old(history) && walked == old(walked) && Saved() == 0
      ensures Valid() && Contents() == []
      ensures arData == old(arData) || fresh(arData)
      ensures arHash == old(arHash) || fresh(arHash)
    {
      hide Ok, Pairs, Keys.Lawful;
      if nTableSize == 0 {
        EmptyTable(keys, Rep());
        NothingUsed(keys, Rep());
        return;
      }
      arData := new Entry<K, V>[0];
      arHash := new nat[0];
      nNumOfElements, nTableSize, nNumUsed, nFirstUsed := 0, 0, 0, 0;
      EmptyTable(keys, Rep());
    }

    /** Follows one chain. The links strictly decrease, so the walk ends. */
    method FindBucket(key: K, h: nat) returns (idx: nat)
      requires Valid() && nTableSize > 0 && h == keys.hash(key)
      ensures idx == INVALID_INDEX ==> !Has(keys, Contents(), key)
      ensures idx != INVALID_INDEX ==> idx < nNumUsed && arData[idx].kv.Some? && arData[idx].h == h
      ensures idx != INVALID_INDEX ==> Rank(arData[..nNumUsed], idx) == IndexOf(keys, Contents(), key)
    {
      ghost var d := arData[..];
      var b := Head(h, nTableSize);
      assert IsTop(d, nNumUsed, b, nTableSize, arHash[b]);
      idx := arHash[b];
      SkipTo(keys, d, nNumUsed, nNumUsed, nTableSize, idx, key);
      while idx != INVALID_INDEX
        invariant idx == INVALID_INDEX || (idx < nNumUsed && OnChain(d[idx], b, nTableSize))
        invariant MissedAbove(keys, d, nNumUsed, idx, key)
        decreases if idx == INVALID_INDEX then 0 else idx + 1
      {
        if arData[idx].h == h && keys.same(arData[idx].kv.value.key, key) {
          FoundAt(keys, arData[..nNumUsed], idx, key);
          return;
        }
        assert IsTop(d, idx, b, nTableSize, d[idx].next);
        SkipTo(keys, d, nNumUsed, idx, nTableSize, d[idx].next, key);
        idx := arData[idx].next;
      }
      NotFound(keys, arData[..nNumUsed], key);
    }

    /** Adds or overwrites. `addNew` says that the caller knows the key to be absent, which skips the lookup. */
    method Insert(key: K, value: V, addNew: bool) returns (outcome: InsertOutcome)
      requires Valid()
      requires addNew ==> !Has(keys, Contents(), key)
      modifies this, arData, arHash
      ensures history == old(history)
      ensures Valid()
      ensures arData == old(arData) || fresh(arData)
      ensures arHash == old(arHash) || fresh(arHash)
      ensures outcome == Updated <==> Has(keys, old(Contents()), key)
      ensures outcome == CapacityExceeded <==> old(Exhausted()) && !Has(keys, old(Contents()), key)
      ensures outcome == CapacityExceeded ==> Exhausted() && NearLimit() && Contents() == old(Contents())
      ensures outcome != CapacityExceeded ==> Contents() == Put(keys, old(Contents()), key, value)
      ensures walked + Saved() <= old(walked + Saved()) + if outcome == Added then PER_INSERT else 0
    {
      if nTableSize == 0 {
        EmptyTable(keys, Rep());
      }
      PutIs(keys, Contents(), key, value);
      hide *;
      var h := keys.hash(key);
      if nTableSize > 0 && !addNew {
        var found := UpdateExisting(key, value, h);
        if found {
          return Updated;
        }
      }
      var ok := InsertNew(key, value, h);
      return if ok then Added else CapacityExceeded;
    }

    /** Overwrites the value of the key if it is there. */
    method UpdateExisting(key: K, value: V, h: nat) returns (found: bool)
      requires Valid() && nTableSize > 0 && h == keys.hash(key)
      modifies arData
      ensures Valid() && found == Has(keys, old(Contents()), key)
      ensures Contents() == if found then Put(keys, old(Contents()), key, value) else old(Contents())
    {
      PutIs(keys, Contents(), key, value);
      hide *;
      var p := FindBucket(key, h);
      found := p != INVALID_INDEX;
      if found {
        Overwrite(p, value);
      }
    }

    /** Adds a key known to be absent, after making room for it. */
    method InsertNew(key: K, value: V, h: nat) returns (ok: bool)
      requires Valid() && !Has(keys, Contents(), key) && h == keys.hash(key)
      modifies this, arData, arHash
      ensures history == old(history)
      ensures Valid()
      ensures arData == old(arData) || fresh(arData)
      ensures arHash == old(arHash) || fresh(arHash)
      ensures !ok <==> old(Exhausted())
      ensures !ok ==> Exhausted() && NearLimit() && Contents() == old(Contents())
      ensures ok ==> Contents() == old(Contents()) + [Pair(key, value)]
      ensures walked + Saved() <= old(walked + Saved()) + if ok then PER_INSERT else 0
    {
      if nTableSize == 0 {
        NothingUsed(keys, Rep());
      }
      assert nNumUsed <= nTableSize;
      hide Ok, View, Pairs, Distinct, Keys.Lawful, Has;
      if nTableSize == 0 {
        SetCapacity(MIN_CAPACITY);
      } else if nNumUsed >= nTableSize {
        ok := Grow();
        if !ok {
          return;
        }
      }
      Append(key, value, h);
      ok := true;
    }

    /** Replaces the value in a live slot; the old key stays. */
    method Overwrite(idx: nat, value: V)
      requires Valid() && idx < nNumUsed && arData[idx].kv.Some?
      modifies arData
      ensures Valid()
      ensures var r, m := Rank(old(arData[..nNumUsed]), idx), old(Contents());
              r < |m| && Contents() == m[r := Pair(m[r].key, value)]
    {
      ghost var t := Rep();
      arData[idx] := arData[idx].(kv := Some(Pair(arData[idx].kv.value.key, value)));
      OverwriteOk(keys, t, idx, value, Rep());
    }

    /** First allocation: every chain is empty. */
    method SetCapacity(newCapacity: nat)
      requires Valid() && nTableSize == 0
      requires IsPow2(newCapacity) && MIN_CAPACITY <= newCapacity < maxPairs
      modifies this
      ensures history == old(history) && walked == old(walked)
      ensures Valid() && nTableSize == newCapacity && nNumUsed == nFirstUsed == nNumOfElements == 0
      ensures fresh(arData) && fresh(arHash)
      ensures Contents() == old(Contents())
    {
      arData := new Entry<K, V>[newCapacity](_ => Entry(None, 0, 0));
      arHash := new nat[2 * newCapacity](_ => INVALID_INDEX);
      nTableSize := newCapacity;
      NothingLinked(arData[..], arHash[..], newCapacity);
    }

    /**
     Makes room for one more slot: compacts when more than one slot in 33 is a gap, otherwise doubles.
     Exceeding the limit on pairs is a fatal error in the source; here it is reported.
     */
    method Grow() returns (ok: bool)
      requires Valid() && nNumUsed == nTableSize
      modifies this, arData, arHash
      ensures history == old(history)
      ensures Valid() && Contents() == old(Contents())
      ensures arData == old(arData) || fresh(arData)
      ensures arHash == old(arHash) || fresh(arHash)
      ensures ok ==> nNumUsed == nNumOfElements && nFirstUsed == 0 && nNumUsed < nTableSize
      ensures ok && old(nTableSize) == nTableSize > 0 ==> nTableSize - nNumUsed > nNumOfElements / 32
      ensures ok && nTableSize != old(nTableSize) ==>
                nTableSize == if old(nTableSize) == 0 then 8 else 2 * old(nTableSize)
      ensures ok && old(nTableSize) > 0 ==>
                (nTableSize == old(nTableSize) <==> old(nNumUsed) > old(nNumOfElements) + old(nNumOfElements) / 32)
      ensures !ok <==> old(Exhausted())
      ensures !ok ==> Exhausted() && NearLimit()
      ensures walked + Saved() <= old(walked + Saved())
    {
      NoMoreThanUsed();
      if nTableSize == 0 {
        SetCapacity(MIN_CAPACITY);
        return true;
      }
      assert nNumUsed == nTableSize && MIN_CAPACITY <= nTableSize && nNumOfElements <= nNumUsed;
      hide Ok, View, Pairs, Savings, Keys.Lawful, Valid;
      if nNumUsed > nNumOfElements {
        if nNumUsed > nNumOfElements + nNumOfElements / 32 {
          CompactionPays(nTableSize, nNumOfElements);
          RehashInplace();
          return true;
        }
      }
      if nTableSize >= maxPairs / 2 {
        return false;
      }
      DoublingPays(nTableSize, nNumOfElements);
      Double();
      return true;
    }

    /** Stable compaction within the same storage, rebuilding every chain. */
    method RehashInplace()
      requires Valid() && 0 < nNumUsed
      modifies this`nNumUsed, this`nFirstUsed, this`walked, arData, arHash
      ensures Valid() && Contents() == old(Contents())
      ensures walked == old(walked) + old(nNumUsed)
      ensures nFirstUsed == 0 && nNumUsed == nNumOfElements
      ensures forall i :: 0 <= i < nNumUsed ==> arData[i].kv.Some?
    {
      hide Packed, HashesOk, Linked, WindowIsTight, Pairs, Distinct, IsPow2, Unread;
      ghost var t := Rep();
      ResetHeads();
      CompactionStarts(keys, t, arHash[..]);
      RelinkAll(arData[..nNumUsed]);
      nFirstUsed := 0;
      PackedOk(keys, t, Rep());
      assert forall i :: 0 <= i < nNumUsed ==> arData[i] == Rep().d[i];
      walked := walked + t.used;
    }

    /** Empties every chain. */
    method ResetHeads()
      modifies arHash
      ensures forall b :: 0 <= b < arHash.Length ==> arHash[b] == INVALID_INDEX
    {
      forall b | 0 <= b < arHash.Length {
        arHash[b] := INVALID_INDEX;
      }
    }

    /** Relinks the slots before the first gap where they are, then packs the rest. */
    method RelinkAll(ghost orig: seq<Entry<K, V>>)
      requires nTableSize == arData.Length && 2 * nTableSize == arHash.Length
      requires 0 < nNumUsed == |orig| && HashesOk(keys, orig, |orig|)
      requires Packed(keys, orig, arData[..], arHash[..], 0, 0, nTableSize) && Unread(orig, arData[..], 0)
      requires orig[0].kv.None? ==> 0 < nFirstUsed < |orig| && forall x :: 0 <= x < nFirstUsed ==> orig[x].kv.None?
      modifies this`nNumUsed, arData, arHash
      ensures nNumUsed <= |orig| && Packed(keys, orig, arData[..], arHash[..], |orig|, nNumUsed, nTableSize)
    {
      hide Linked, HashesOk, Pairs;
      var i: nat := 0;
      while i < nNumUsed
        invariant i <= nNumUsed == |orig|
        invariant Packed(keys, orig, arData[..], arHash[..], i, i, nTableSize) && Unread(orig, arData[..], i)
      {
        if arData[i].kv.None? {
          PackRest(i, orig);
          return;
        }
        PackLive(keys, orig, arData[..], arHash[..], i, i, nTableSize);
        Place(arData, arHash, i, arData[i]);
        i := i + 1;
      }
    }

    /** From the first gap on: moves the remaining live slots down over it. */
    method PackRest(gap: nat, ghost orig: seq<Entry<K, V>>)
      requires nTableSize == arData.Length && 2 * nTableSize == arHash.Length
      requires gap < nNumUsed == |orig| && orig[gap].kv.None? && HashesOk(keys, orig, |orig|)
      requires Packed(keys, orig, arData[..], arHash[..], gap, gap, nTableSize) && Unread(orig, arData[..], gap)
      requires gap == 0 ==> 0 < nFirstUsed < |orig| && forall x :: 0 <= x < nFirstUsed ==> orig[x].kv.None?
      modifies this`nNumUsed, arData, arHash
      ensures nNumUsed <= |orig| && Packed(keys, orig, arData[..], arHash[..], |orig|, nNumUsed, nTableSize)
    {
      hide Linked, HashesOk, Pairs;
      // The slots before the first used one are all gaps: skip them at once.
      var i: nat := if gap == 0 then nFirstUsed else gap + 1;
      var j: nat := gap;
      PackGap(keys, orig, arData[..], arHash[..], gap, i, nTableSize);
      while i < nNumUsed
        invariant j < i <= nNumUsed == |orig|
        invariant Packed(keys, orig, arData[..], arHash[..], i, j, nTableSize) && Unread(orig, arData[..], i)
      {
        if arData[i].kv.Some? {
          PackLive(keys, orig, arData[..], arHash[..], i, j, nTableSize);
          Place(arData, arHash, j, arData[i]);
          j := j + 1;
        } else {
          PackDead(keys, orig, arData[..], arHash[..], i, j, nTableSize);
        }
        i := i + 1;
      }
      nNumUsed := j;
    }

    /** Stores an entry in slot `j` and pushes it onto its chain. */
    method Place(entries: array<Entry<K, V>>, heads: array<nat>, j: nat, e: Entry<K, V>)
      requires IsPow2(entries.Length) && entries.Length <= 0x8000_0000 && heads.Length == 2 * entries.Length
      requires j < entries.Length && e.h < U32_LIMIT
      modifies entries, heads
      ensures var b := Head(e.h, entries.Length);
              && entries[..] == old(entries[..])[j := e.(next := old(heads[b]))]
              && heads[..] == old(heads[..])[b := j]
    {
      var b := Head(e.h, entries.Length);
      entries[j] := e.(next := heads[b]);
      heads[b] := j;
    }

    /** Copies the live slots, in order, into storage of twice the size. */
    method Double()
      requires Valid() && 0 < nTableSize < maxPairs / 2
      modifies this
      ensures history == old(history) && nNumOfElements == old(nNumOfElements)
      ensures walked == old(walked) + old(nNumUsed)
      ensures Valid() && Contents() == old(Contents())
      ensures fresh(arData) && fresh(arHash)
      ensures nTableSize == 2 * old(nTableSize)
      ensures nFirstUsed == 0 && nNumUsed == nNumOfElements <= old(nNumUsed)
    {
      hide Packed, HashesOk, Linked, Pairs, Distinct, IsPow2;
      ghost var t, orig := Rep(), arData[..nNumUsed];
      UsedHashesOk(keys, t);
      var newCapacity := nTableSize * 2;
      Pow2Twice(nTableSize);
      var newEntries := new Entry<K, V>[newCapacity](_ => Entry(None, 0, 0));
      var newHash := new nat[2 * newCapacity](_ => INVALID_INDEX);
      PackStart(keys, orig, newEntries[..], newHash[..], newCapacity);
      var i := CopyLive(orig, newEntries, newHash);
      arData, arHash := newEntries, newHash;
      nNumUsed, nTableSize, nFirstUsed := nNumOfElements, newCapacity, 0;
      PackDone(keys, orig, arData[..], arHash[..], i, nTableSize);
      PackedOk(keys, t, Rep());
      walked := walked + t.used;
    }

    /** Walks the live slots of the used window and places each in the next slot of the new storage. */
    method CopyLive(ghost orig: seq<Entry<K, V>>, entries: array<Entry<K, V>>, heads: array<nat>) returns (i: nat)
      requires nFirstUsed <= nNumUsed == |orig| <= arData.Length && orig == arData[..nNumUsed]
      requires forall x :: 0 <= x < nFirstUsed ==> orig[x].kv.None?
      requires HashesOk(keys, orig, |orig|)
      requires arData != entries
      requires Packed(keys, orig, entries[..], heads[..], 0, 0, entries.Length)
      modifies entries, heads
      ensures i <= |orig| && Packed(keys, orig, entries[..], heads[..], |orig|, i, entries.Length)
    {
      hide HashesOk, Linked, Pairs;
      PackGap(keys, orig, entries[..], heads[..], 0, nFirstUsed, entries.Length);
      var p := nFirstUsed;
      i := 0;
      while p < nNumUsed
        invariant i <= p <= nNumUsed
        invariant Packed(keys, orig, entries[..], heads[..], p, i, entries.Length)
      {
        if arData[p].kv.Some? {
          PackLive(keys, orig, entries[..], heads[..], p, i, entries.Length);
          Place(entries, heads, i, arData[p]);
          i := i + 1;
        } else {
          PackDead(keys, orig, entries[..], heads[..], p, i, entries.Length);
        }
        p := p + 1;
      }
    }

    /** Writes the slot after the last used one and pushes it onto its chain. */
    method Append(key: K, value: V, h: nat)
      requires Valid() && nNumUsed < nTableSize && h == keys.hash(key)
      requires !Has(keys, Contents(), key)
      modifies this, arData, arHash
      ensures history == old(history) && walked == old(walked) && Saved() <= old(Saved()) + PER_INSERT
      ensures Valid() && arData == old(arData) && arHash == old(arHash)
      ensures Contents() == old(Contents()) + [Pair(key, value)]
    {
      ghost var t := Rep();
      var idx := nNumUsed;
      nNumUsed := nNumUsed + 1;
      nNumOfElements := nNumOfElements + 1;
      Place(arData, arHash, idx, Entry(Some(Pair(key, value)), h, INVALID_INDEX));
      AppendOk(keys, t, key, value, Rep());
    }

    /** Removes a key, leaving a gap, and keeps both ends of the used window on live slots. */
    method RemoveKey(key: K) returns (removed: bool)
      requires Valid()
      modifies this, arData, arHash
      ensures history == old(history) && walked == old(walked) && Saved() <= old(Saved()) + PER_GAP
      ensures Valid() && arData == old(arData) && arHash == old(arHash)
      ensures removed == Has(keys, old(Contents()), key)
      ensures Contents() == Del(keys, old(Contents()), key)
    {
      DelIs(keys, Contents(), key);
      if nTableSize == 0 {
        NothingUsed(keys, Rep());
      }
      assert |Contents()| == nNumOfElements;
      assert Rep().d[..nNumUsed] == arData[..nNumUsed];
      hide *;
      if nNumOfElements == 0 {
        return false;
      }
      var h := keys.hash(key);
      var idx := FindBucket(key, h);
      if idx == INVALID_INDEX {
        return false;
      }
      RemoveAt(idx, h);
      return true;
    }

    method RemoveAt(idx: nat, h: nat)
      requires Valid() && idx < nNumUsed && arData[idx].kv.Some? && h == arData[idx].h < U32_LIMIT
      modifies this`nNumOfElements, this`nNumUsed, this`nFirstUsed, arData, arHash
      ensures Valid() && Saved() <= old(Saved()) + PER_GAP
      ensures var m, r := old(Contents()), old(Rank(Rep().d[..nNumUsed], idx));
              r < |m| && Contents() == m[..r] + m[r + 1..]
    {
      hide Linked, HashesOk, Pairs, Distinct, IsPow2, Rank, EndPulledIn, StartPushedOn;
      ghost var t := Rep();
      RankOfLive(t.d[..t.used], idx);
      Unlink(idx, Head(h, nTableSize));
      ghost var d := arData[..];
      assert forall i :: 0 <= i < |d| ==> d[i].kv == t.d[i].kv;
      hide Unlinked, Head;
      nNumOfElements := nNumOfElements - 1;
      Tighten(idx, t);
      arData[idx] := Kill(arData[idx]);
      assert Rep().d == d[idx := Kill(d[idx])];
      RemoveOk(keys, t, idx, d, Rep());
    }

    /** Pulls in whichever ends of the window slot `idx` was. The slot itself is cleared afterwards. */
    method Tighten(idx: nat, ghost t: Table<K, V>)
      requires idx < t.used == nNumUsed <= |t.d| == arData.Length && t.first == nFirstUsed
      requires WindowIsTight(t.d, t.first, t.used) && t.d[idx].kv.Some?
      requires t.count == |View(t)| == nNumOfElements + 1
      requires forall i :: 0 <= i < |t.d| ==> arData[i].kv == t.d[i].kv
      modifies this`nNumUsed, this`nFirstUsed
      ensures nNumUsed <= t.used && EndPulledIn(t, idx, nNumUsed) && StartPushedOn(t, idx, nNumUsed, nFirstUsed)
    {
      hide EndPulledIn, StartPushedOn, Pairs;
      if nNumUsed - 1 == idx {
        PullEnd(t);
      } else {
        EndStays(t, idx);
      }
      if nFirstUsed == idx {
        PushStart(t);
      } else {
        StartStays(t, idx, nNumUsed);
      }
    }

    /** Takes slot `idx` off its chain, whether the head or another entry points at it. */
    method Unlink(idx: nat, b: nat)
      requires Valid() && idx < nNumUsed && arData[idx].kv.Some? && arData[idx].h < U32_LIMIT
      requires b == Head(arData[idx].h, nTableSize)
      modifies arData, arHash
      ensures Unlinked(old(Rep()), arData[..], arHash[..], idx)
    {
      hide Linked, Head, IsPow2, Pairs, Distinct, HashesOk, WindowIsTight, Unlinked;
      ghost var t := Rep();
      var i := arHash[b];
      ChainReaches(keys, t, idx, b, t.used, i);
      if i == idx {
        UnlinkedAtHead(keys, t, idx, b);
        arHash[b] := arData[idx].next;
        assert arData[..] == t.d && arHash[..] == t.heads[b := t.d[idx].next];
        return;
      }
      while arData[i].next != idx
        invariant idx < i < nNumUsed && OnChain(t.d[i], b, nTableSize)
        decreases i
        modifies {}
      {
        ChainReaches(keys, t, idx, b, i, t.d[i].next);
        i := arData[i].next;
      }
      UnlinkedAfter(keys, t, idx, i);
      arData[i] := arData[i].(next := arData[idx].next);
      assert arHash[..] == t.heads && arData[..] == t.d[i := t.d[i].(next := t.d[idx].next)];
    }

    /** Moves the end of the window down to just after the last live slot below it. */
    method PullEnd(ghost t: Table<K, V>)
      requires t.used == nNumUsed <= |t.d| == arData.Length && nNumUsed > 0
      requires forall i :: 0 <= i < |t.d| ==> arData[i].kv == t.d[i].kv
      modifies this`nNumUsed
      ensures nNumUsed < t.used && EndPulledIn(t, t.used - 1, nNumUsed)
    {
      nNumUsed := nNumUsed - 1;
      while nNumUsed > 0 && arData[nNumUsed - 1].kv.None?
        invariant nNumUsed < t.used
        invariant forall i :: nNumUsed <= i < t.used - 1 ==> t.d[i].kv.None?
      {
        nNumUsed := nNumUsed - 1;
      }
    }

    /** Moves the start of the window up to the next live slot, or back to 0 in an empty map. */
    method PushStart(ghost t: Table<K, V>)
      requires t.used <= |t.d| == arData.Length && t.first == nFirstUsed < t.used && WindowIsTight(t.d, t.first, t.used)
      requires nNumUsed <= t.used && EndPulledIn(t, t.first, nNumUsed)
      requires t.count == |View(t)| == nNumOfElements + 1
      requires forall i :: 0 <= i < |t.d| ==> arData[i].kv == t.d[i].kv
      modifies this`nFirstUsed
      ensures StartPushedOn(t, t.first, nNumUsed, nFirstUsed)
    {
      if nNumOfElements == 0 {
        nFirstUsed := 0;
        return;
      }
      AnotherLiveSlot(t, nFirstUsed);
      nFirstUsed := nFirstUsed + 1;
      while nFirstUsed < nNumUsed && arData[nFirstUsed].kv.None?
        invariant t.first < nFirstUsed <= nNumUsed - 1
        invariant forall i :: t.first < i < nFirstUsed ==> t.d[i].kv.None?
      {
        nFirstUsed := nFirstUsed + 1;
      }
    }
  }

  /** A run of dead slots packs into nothing: the gap at `from`, or the whole leading gap. */
  lemma PackGap<K(!new), V>(keys: Keys<K>, orig: seq<Entry<K, V>>, d: seq<Entry<K, V>>, heads: seq<nat>,
                            from: nat, to: nat, size: nat)
    requires from <= to <= |orig| && Packed(keys, orig, d, heads, from, from, size)
    requires forall x :: from <= x < to ==> orig[x].kv.None?
    ensures Packed(keys, orig, d, heads, to, from, size)
  {
    for x := from to to
      invariant Packed(keys, orig, d, heads, x, from, size)
    {
      PackDead(keys, orig, d, heads, x, from, size);
    }
  }

  /** No live slot above `idx` holds the key. */
  ghost predicate MissedAbove<K(!new), V>(keys: Keys<K>, d: seq<Entry<K, V>>, n: nat, idx: nat, key: K)
    requires n <= |d|
  {
    forall j :: 0 <= j < n && (idx == INVALID_INDEX || idx < j) && d[j].kv.Some? ==>
      !keys.same(d[j].kv.value.key, key)
  }

  /** Stepping along a chain from `hi` down to `next` passes over no slot that could hold the key. */
  lemma SkipTo<K(!new), V>(keys: Keys<K>, d: seq<Entry<K, V>>, n: nat, hi: nat, size: nat, next: nat, key: K)
    requires IsPow2(size) && size <= 0x8000_0000 && keys.Lawful()
    requires hi <= n <= |d| && HashesOk(keys, d, n)
    requires IsTop(d, hi, Head(keys.hash(key), size), size, next)
    requires hi < n ==> MissedAbove(keys, d, n, hi, key)
    requires hi < n && d[hi].kv.Some? ==> d[hi].h != keys.hash(key) || !keys.same(d[hi].kv.value.key, key)
    ensures MissedAbove(keys, d, n, next, key)
  {
  }

  lemma FoundAt<K(!new), V>(keys: Keys<K>, d: seq<Entry<K, V>>, idx: nat, key: K)
    requires keys.Lawful() && Distinct(keys, Pairs(d))
    requires idx < |d| && d[idx].kv.Some? && keys.same(d[idx].kv.value.key, key)
    ensures Rank(d, idx) == IndexOf(keys, Pairs(d), key)
  {
    RankOfLive(d, idx);
    var i := IndexOf(keys, Pairs(d), key);
    if i != Rank(d, idx) {
      OnlyOne(keys, Pairs(d), if i >= 0 then i else 0, Rank(d, idx), key);
    }
  }

  lemma NotFound<K(!new), V>(keys: Keys<K>, d: seq<Entry<K, V>>, key: K)
    requires forall j :: 0 <= j < |d| && d[j].kv.Some? ==> !keys.same(d[j].kv.value.key, key)
    ensures !Has(keys, Pairs(d), key)
  {
  }
}
