/**
 An insertion-ordered association list up to a key identity: what a StrictHashMap is for its users.
 Overwriting keeps the old key and its position, a new key goes to the end, removal closes the gap.
 */
module AssocList {
  import opened Lists

  datatype Pair<+K, +V> = Pair(key: K, value: V)

  /** What an insertion into a map reports. */
  datatype InsertOutcome = Added | Updated | CapacityExceeded

  /** A key identity together with a 32-bit hash. */
  datatype Keys<!K(!new)> = Keys(same: (K, K) -> bool, hash: K -> nat) {
    /** `same` is an equivalence and identical keys hash equally. */
    ghost predicate Lawful() {
      && (forall a :: same(a, a))
      && (forall a, b :: same(a, b) ==> same(b, a) && hash(a) == hash(b))
      && (forall a, b, c :: same(a, b) && same(b, c) ==> same(a, c))
      && (forall a :: hash(a) < 0x1_0000_0000)
    }
  }

  function IndexOf<K(!new), V>(keys: Keys<K>, m: seq<Pair<K, V>>, k: K): (i: int)
    ensures -1 <= i < |m|
    ensures i >= 0 ==> keys.same(m[i].key, k)
    ensures forall j :: 0 <= j < (if i >= 0 then i else |m|) ==> !keys.same(m[j].key, k)
  {
    if |m| == 0 then -1
    else
      var i := IndexOf(keys, m[..|m| - 1], k);
      if i >= 0 then i else if keys.same(m[|m| - 1].key, k) then |m| - 1 else -1
  }

  predicate Has<K(!new), V>(keys: Keys<K>, m: seq<Pair<K, V>>, k: K) {
    IndexOf(keys, m, k) >= 0
  }

  function Put<K(!new), V>(keys: Keys<K>, m: seq<Pair<K, V>>, k: K, v: V): seq<Pair<K, V>> {
    var i := IndexOf(keys, m, k);
    if i >= 0 then m[i := Pair(m[i].key, v)] else m + [Pair(k, v)]
  }

  lemma PutIs<K(!new), V>(keys: Keys<K>, m: seq<Pair<K, V>>, k: K, v: V)
    ensures var i := IndexOf(keys, m, k);
            && (Has(keys, m, k) <==> i >= 0)
            && Put(keys, m, k, v) == if i >= 0 then m[i := Pair(m[i].key, v)] else m + [Pair(k, v)]
  {
  }

  function Del<K(!new), V>(keys: Keys<K>, m: seq<Pair<K, V>>, k: K): seq<Pair<K, V>> {
    var i := IndexOf(keys, m, k);
    if i >= 0 then m[..i] + m[i + 1..] else m
  }

  lemma DelIs<K(!new), V>(keys: Keys<K>, m: seq<Pair<K, V>>, k: K)
    ensures var i := IndexOf(keys, m, k);
            && (Has(keys, m, k) <==> i >= 0)
            && Del(keys, m, k) == if i >= 0 then m[..i] + m[i + 1..] else m
  {
  }

  ghost predicate Distinct<K(!new), V>(keys: Keys<K>, m: seq<Pair<K, V>>) {
    forall i, j :: 0 <= i < j < |m| ==> !keys.same(m[i].key, m[j].key)
  }

  // ----- Runs -----

  datatype Op<+K, +V> = Insert(key: K, value: V) | Remove(key: K) | Clear

  function Apply<K(!new), V>(keys: Keys<K>, m: seq<Pair<K, V>>, op: Op<K, V>): seq<Pair<K, V>> {
    match op
    case Insert(k, v) => Put(keys, m, k, v)
    case Remove(k) => Del(keys, m, k)
    case Clear => []
  }

  function Run<K(!new), V>(keys: Keys<K>, ops: seq<Op<K, V>>): seq<Pair<K, V>> {
    if |ops| == 0 then [] else Apply(keys, Run(keys, ops[..|ops| - 1]), ops[|ops| - 1])
  }

  lemma RunExtends<K(!new), V>(keys: Keys<K>, ops: seq<Op<K, V>>, op: Op<K, V>)
    ensures Run(keys, ops + [op]) == Apply(keys, Run(keys, ops), op)
  {
  }

  // What a history alone says about a key: whether it is present after the last operation, which value
  // it has, and at which operation its current stay in the map began.

  predicate Touches<K(!new), V>(keys: Keys<K>, op: Op<K, V>, k: K) {
    op.Clear? || keys.same(op.key, k)
  }

  function LastTouch<K(!new), V>(keys: Keys<K>, ops: seq<Op<K, V>>, k: K): (i: int)
    ensures -1 <= i < |ops|
  {
    if |ops| == 0 then -1
    else if Touches(keys, ops[|ops| - 1], k) then |ops| - 1
    else LastTouch(keys, ops[..|ops| - 1], k)
  }

  predicate PresentAfter<K(!new), V>(keys: Keys<K>, ops: seq<Op<K, V>>, k: K) {
    var t := LastTouch(keys, ops, k);
    t >= 0 && ops[t].Insert?
  }

  function BirthOf<K(!new), V>(keys: Keys<K>, ops: seq<Op<K, V>>, k: K): (i: int)
    requires PresentAfter(keys, ops, k)
    ensures 0 <= i < |ops| && ops[i].Insert?
    decreases |ops|
  {
    var t := LastTouch(keys, ops, k);
    if PresentAfter(keys, ops[..t], k) then BirthOf(keys, ops[..t], k) else t
  }

  /**
   The list after any run of insert, overwrite, remove and clear, described from the history alone:
   exactly the keys whose last touching operation was an insertion, each with that insertion's value,
   in the order in which their current stays began.
   */
  ghost predicate Chronicles<K(!new), V>(keys: Keys<K>, ops: seq<Op<K, V>>, m: seq<Pair<K, V>>) {
    && (forall k :: Has(keys, m, k) <==> PresentAfter(keys, ops, k))
    && (forall i :: 0 <= i < |m| ==> EntryMatches(keys, ops, m[i]))
    && (forall i, j :: 0 <= i < j < |m| ==>
          BirthOf(keys, ops, m[i].key) < BirthOf(keys, ops, m[j].key))
  }

  ghost predicate EntryMatches<K(!new), V>(keys: Keys<K>, ops: seq<Op<K, V>>, p: Pair<K, V>)
    ensures EntryMatches(keys, ops, p) ==> PresentAfter(keys, ops, p.key)
  {
    && PresentAfter(keys, ops, p.key)
    && p.value == ops[LastTouch(keys, ops, p.key)].value
    && p.key == ops[BirthOf(keys, ops, p.key)].key
  }

  lemma {:induction false} HistoryRespectsIdentity<K(!new), V>(keys: Keys<K>, ops: seq<Op<K, V>>, a: K, b: K)
    requires keys.Lawful() && keys.same(a, b)
    ensures LastTouch(keys, ops, a) == LastTouch(keys, ops, b)
    ensures PresentAfter(keys, ops, a) ==> BirthOf(keys, ops, a) == BirthOf(keys, ops, b)
    decreases |ops|
  {
    if |ops| > 0 {
      var n := |ops| - 1;
      HistoryRespectsIdentity(keys, ops[..n], a, b);
      assert Touches(keys, ops[n], a) == Touches(keys, ops[n], b);
      if PresentAfter(keys, ops, a) {
        HistoryRespectsIdentity(keys, ops[..LastTouch(keys, ops, a)], a, b);
      }
    }
  }

  /** One more operation that does not touch `k` changes nothing about `k`; an insertion of `k` is its last touch. */
  lemma HistoryStep<K(!new), V>(keys: Keys<K>, ops: seq<Op<K, V>>, op: Op<K, V>, k: K)
    ensures LastTouch(keys, ops + [op], k) == if Touches(keys, op, k) then |ops| else LastTouch(keys, ops, k)
    ensures PresentAfter(keys, ops + [op], k) <==>
            if Touches(keys, op, k) then op.Insert? else PresentAfter(keys, ops, k)
    ensures PresentAfter(keys, ops + [op], k) ==>
            BirthOf(keys, ops + [op], k) ==
            if PresentAfter(keys, ops, k) then BirthOf(keys, ops, k) else |ops|
  {
    var all := ops + [op];
    assert all[..|ops|] == ops && all[|ops|] == op;
    var t := LastTouch(keys, all, k);
    if t >= 0 && t < |ops| {
      assert all[..t] == ops[..t];
    }
  }

  lemma {:induction false} RunIsChronicled<K(!new), V>(keys: Keys<K>, ops: seq<Op<K, V>>)
    requires keys.Lawful()
    ensures Distinct(keys, Run(keys, ops))
    ensures Chronicles(keys, ops, Run(keys, ops))
    decreases |ops|
  {
    if |ops| > 0 {
      var n := |ops| - 1;
      var before, op := ops[..n], ops[n];
      assert ops == before + [op];
      RunIsChronicled(keys, before);
      ApplyIsChronicled(keys, before, Run(keys, before), op);
    }
  }

  lemma ApplyIsChronicled<K(!new), V>(keys: Keys<K>, ops: seq<Op<K, V>>, m: seq<Pair<K, V>>, op: Op<K, V>)
    requires keys.Lawful()
    requires Distinct(keys, m) && Chronicles(keys, ops, m)
    ensures Distinct(keys, Apply(keys, m, op))
    ensures Chronicles(keys, ops + [op], Apply(keys, m, op))
  {
    var m' := Apply(keys, m, op);
    ApplyKeys(keys, m, op);
    hide Apply, LastTouch, BirthOf, PresentAfter, Touches, Has, Origin, Distinct, Keys.Lawful, EntryMatches;
    forall k
      ensures Has(keys, m', k) <==> PresentAfter(keys, ops + [op], k)
    {
      HasIsChronicled(keys, ops, m, op, k);
    }
    forall i | 0 <= i < |m'|
      ensures EntryMatches(keys, ops + [op], m'[i])
    {
      EntryAfter(keys, ops, m, op, i);
    }
    forall i, j | 0 <= i < j < |m'|
      ensures BirthOf(keys, ops + [op], m'[i].key) < BirthOf(keys, ops + [op], m'[j].key)
    {
      BirthAfter(keys, ops, m, op, i);
      BirthAfter(keys, ops, m, op, j);
      ApplyOrigins(keys, m, op);
    }
  }

  lemma HasIsChronicled<K(!new), V>(
    keys: Keys<K>, ops: seq<Op<K, V>>, m: seq<Pair<K, V>>, op: Op<K, V>, k: K)
    requires keys.Lawful()
    requires Distinct(keys, m) && Chronicles(keys, ops, m)
    ensures Has(keys, Apply(keys, m, op), k) <==> PresentAfter(keys, ops + [op], k)
  {
    HistoryStep(keys, ops, op, k);
    HasAfter(keys, m, op, k);
    assert Has(keys, m, k) <==> PresentAfter(keys, ops, k);
  }

  lemma BirthAfter<K(!new), V>(keys: Keys<K>, ops: seq<Op<K, V>>, m: seq<Pair<K, V>>, op: Op<K, V>, i: nat)
    requires keys.Lawful()
    requires Distinct(keys, m) && Chronicles(keys, ops, m)
    requires i < |Apply(keys, m, op)|
    ensures var k, p := Apply(keys, m, op)[i].key, Origin(keys, m, op, i);
            && EntryMatches(keys, ops + [op], Apply(keys, m, op)[i])
            && p <= |m|
            && (p < |m| ==> EntryMatches(keys, ops, m[p]))
            && BirthOf(keys, ops + [op], k) == if p < |m| then BirthOf(keys, ops, m[p].key) else |ops|
  {
    EntryAfter(keys, ops, m, op, i);
    ApplyOrigins(keys, m, op);
    var k, p := Apply(keys, m, op)[i].key, Origin(keys, m, op, i);
    HistoryStep(keys, ops, op, k);
    if p < |m| {
      assert EntryMatches(keys, ops, m[p]);
    } else {
      assert Has(keys, m, k) <==> PresentAfter(keys, ops, k);
    }
  }

  /** Where entry `i` of the new list was in the old one; `|m|` for an appended entry. */
  function Origin<K(!new), V>(keys: Keys<K>, m: seq<Pair<K, V>>, op: Op<K, V>, i: nat): nat {
    if op.Remove? && 0 <= IndexOf(keys, m, op.key) <= i then i + 1 else i
  }

  /** Kept entries keep their keys and their order; at most one new entry follows them. */
  lemma ApplyOrigins<K(!new), V>(keys: Keys<K>, m: seq<Pair<K, V>>, op: Op<K, V>)
    ensures var m' := Apply(keys, m, op);
            && (forall i :: 0 <= i < |m'| ==>
                  var p := Origin(keys, m, op, i);
                  if p < |m| then m'[i].key == m[p].key else p == |m| && op.Insert? && m'[i] == Pair(op.key, op.value))
            && (forall i, j :: 0 <= i < j < |m'| ==> Origin(keys, m, op, i) < Origin(keys, m, op, j))
  {
  }

  lemma ApplyKeys<K(!new), V>(keys: Keys<K>, m: seq<Pair<K, V>>, op: Op<K, V>)
    requires Distinct(keys, m)
    ensures Distinct(keys, Apply(keys, m, op))
  {
  }

  lemma HasAfter<K(!new), V>(keys: Keys<K>, m: seq<Pair<K, V>>, op: Op<K, V>, k: K)
    requires keys.Lawful() && Distinct(keys, m)
    ensures Has(keys, Apply(keys, m, op), k) <==> if Touches(keys, op, k) then op.Insert? else Has(keys, m, k)
  {
    match op
    case Insert(k0, v) => HasAfterPut(keys, m, k0, v, k);
    case Remove(k0) => HasAfterDel(keys, m, k0, k);
    case Clear =>
  }

  lemma HasAfterPut<K(!new), V>(keys: Keys<K>, m: seq<Pair<K, V>>, k0: K, v: V, k: K)
    requires keys.Lawful()
    ensures Has(keys, Put(keys, m, k0, v), k) <==> keys.same(k0, k) || Has(keys, m, k)
  {
    var m' := Put(keys, m, k0, v);
    var i := IndexOf(keys, m, k0);
    var p := if i >= 0 then i else |m|;
    assert keys.same(m'[p].key, k0) && keys.same(k0, m'[p].key);
    assert keys.same(k0, k) <==> keys.same(m'[p].key, k);
    assert forall x :: 0 <= x < |m| ==> m'[x].key == m[x].key;
    var j, j' := IndexOf(keys, m, k), IndexOf(keys, m', k);
    if j >= 0 {
      assert keys.same(m'[j].key, k);
    }
    if 0 <= j' < |m| {
      assert keys.same(m[j'].key, k);
    }
  }

  lemma HasAfterDel<K(!new), V>(keys: Keys<K>, m: seq<Pair<K, V>>, k0: K, k: K)
    requires keys.Lawful() && Distinct(keys, m)
    ensures Has(keys, Del(keys, m, k0), k) <==> !keys.same(k0, k) && Has(keys, m, k)
  {
    var m' := Del(keys, m, k0);
    var i := IndexOf(keys, m, k0);
    var j, j' := IndexOf(keys, m, k), IndexOf(keys, m', k);
    if i >= 0 {
      assert keys.same(m[i].key, k0) && keys.same(k0, m[i].key);
      assert keys.same(k0, k) <==> keys.same(m[i].key, k);
      if j >= 0 && j != i {
        assert keys.same(m'[if j < i then j else j - 1].key, k);
        OnlyOne(keys, m, i, j, k);
      }
      if j' >= 0 {
        var p := if j' < i then j' else j' + 1;
        assert m'[j'] == m[p];
        OnlyOne(keys, m, i, p, k);
      }
    } else if j >= 0 {
      assert keys.same(m[j].key, k) && !keys.same(m[j].key, k0);
      assert keys.same(k0, k) ==> keys.same(k, k0);
    }
  }

  lemma OnlyOne<K(!new), V>(keys: Keys<K>, m: seq<Pair<K, V>>, i: nat, j: nat, k: K)
    requires keys.Lawful() && Distinct(keys, m)
    requires i < |m| && j < |m| && i != j
    ensures !(keys.same(m[i].key, k) && keys.same(m[j].key, k))
  {
    var lo, hi := if i < j then i else j, if i < j then j else i;
    assert !keys.same(m[lo].key, m[hi].key);
    assert keys.same(m[hi].key, k) ==> keys.same(k, m[hi].key);
  }

  /** An entry of the new list is the operation's own when the operation touches its key, and unchanged otherwise. */
  lemma EntryOrigin<K(!new), V>(keys: Keys<K>, m: seq<Pair<K, V>>, op: Op<K, V>, i: nat)
    requires keys.Lawful() && Distinct(keys, m)
    requires i < |Apply(keys, m, op)|
    ensures var e, p := Apply(keys, m, op)[i], Origin(keys, m, op, i);
            if Touches(keys, op, e.key) then op.Insert? && e.value == op.value
            else p < |m| && e == m[p]
  {
    match op
    case Insert(k0, v) => PutEntry(keys, m, k0, v, i);
    case Remove(k0) => DelEntry(keys, m, k0, i);
  }

  lemma PutEntry<K(!new), V>(keys: Keys<K>, m: seq<Pair<K, V>>, k0: K, v: V, i: nat)
    requires keys.Lawful() && Distinct(keys, m)
    requires i < |Put(keys, m, k0, v)|
    ensures var e := Put(keys, m, k0, v)[i];
            if keys.same(k0, e.key) then e.value == v else i < |m| && e == m[i]
  {
    Symmetry(keys, k0, Put(keys, m, k0, v)[i].key);
    if i < |m| && i != IndexOf(keys, m, k0) {
      NotElsewhere(keys, m, k0, i);
    }
  }

  lemma DelEntry<K(!new), V>(keys: Keys<K>, m: seq<Pair<K, V>>, k0: K, i: nat)
    requires keys.Lawful() && Distinct(keys, m)
    requires i < |Del(keys, m, k0)|
    ensures var e, p := Del(keys, m, k0)[i], Origin(keys, m, Op<K, V>.Remove(k0), i);
            !keys.same(k0, e.key) && p < |m| && e == m[p]
  {
    var p := Origin(keys, m, Op<K, V>.Remove(k0), i);
    Symmetry(keys, k0, m[p].key);
    NotElsewhere(keys, m, k0, p);
  }

  lemma Symmetry<K(!new)>(keys: Keys<K>, a: K, b: K)
    requires keys.Lawful()
    ensures keys.same(a, b) == keys.same(b, a)
  {
  }

  lemma NotElsewhere<K(!new), V>(keys: Keys<K>, m: seq<Pair<K, V>>, k: K, p: nat)
    requires keys.Lawful() && Distinct(keys, m)
    requires p < |m| && p != IndexOf(keys, m, k)
    ensures !keys.same(m[p].key, k)
  {
    var x := IndexOf(keys, m, k);
    if x >= 0 {
      OnlyOne(keys, m, p, x, k);
    }
  }

  lemma EntryAfter<K(!new), V>(keys: Keys<K>, ops: seq<Op<K, V>>, m: seq<Pair<K, V>>, op: Op<K, V>, i: nat)
    requires keys.Lawful()
    requires Distinct(keys, m) && Chronicles(keys, ops, m)
    requires i < |Apply(keys, m, op)|
    ensures EntryMatches(keys, ops + [op], Apply(keys, m, op)[i])
  {
    hide LastTouch, BirthOf, Distinct;
    var k, p := Apply(keys, m, op)[i].key, Origin(keys, m, op, i);
    HistoryStep(keys, ops, op, k);
    ApplyOrigins(keys, m, op);
    EntryOrigin(keys, m, op, i);
    if p < |m| {
      assert EntryMatches(keys, ops, m[p]);
    } else {
      assert Has(keys, m, k) <==> PresentAfter(keys, ops, k);
    }
  }

  // ----- The description determines the list -----

  /** `Chronicles` leaves no freedom: it holds of one list only. */
  lemma ChronicleIsUnique<K(!new), V>(keys: Keys<K>, ops: seq<Op<K, V>>, m: seq<Pair<K, V>>, w: seq<Pair<K, V>>)
    requires keys.Lawful()
    requires Chronicles(keys, ops, m) && Chronicles(keys, ops, w)
    ensures m == w
  {
    forall i | 0 <= i < |m| ensures m[i] in w {
      SameEntryElsewhere(keys, ops, m, w, i);
    }
    forall i | 0 <= i < |w| ensures w[i] in m {
      SameEntryElsewhere(keys, ops, w, m, i);
    }
    var birth := (p: Pair<K, V>) => if PresentAfter(keys, ops, p.key) then BirthOf(keys, ops, p.key) else -1;
    assert forall i :: 0 <= i < |m| ==> EntryMatches(keys, ops, m[i]);
    assert forall i :: 0 <= i < |w| ==> EntryMatches(keys, ops, w[i]);
    SortedListsAgree((p: Pair<K, V>, q: Pair<K, V>) => birth(p) < birth(q), m, w);
  }

  lemma SameEntryElsewhere<K(!new), V>(
    keys: Keys<K>, ops: seq<Op<K, V>>, m: seq<Pair<K, V>>, w: seq<Pair<K, V>>, i: nat)
    requires keys.Lawful()
    requires Chronicles(keys, ops, m) && Chronicles(keys, ops, w)
    requires i < |m|
    ensures m[i] in w
  {
    assert EntryMatches(keys, ops, m[i]);
    assert Has(keys, w, m[i].key);
    var j := IndexOf(keys, w, m[i].key);
    assert EntryMatches(keys, ops, w[j]);
    HistoryRespectsIdentity(keys, ops, w[j].key, m[i].key);
    assert w[j] == m[i];
  }
}
