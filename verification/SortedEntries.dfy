/**
 Entries kept in ascending order of their keys under a total order: what a StrictTreeMap is for its users.
 They are the entries of an association list under the identity "neither key comes first", sorted.
 */
module SortedEntries {
  import opened AssocList
  import opened Lists

  /** A three-way comparison of keys. */
  datatype Order<!K(!new)> = Order(compare: (K, K) -> int) {
    ghost predicate Total() {
      && (forall a, b :: compare(a, b) < 0 <==> compare(b, a) > 0)
      && (forall a, b, c :: compare(a, b) <= 0 && compare(b, c) <= 0 ==> compare(a, c) <= 0)
    }

    function Identity(): Keys<K> {
      Keys((a, b) => compare(a, b) == 0, _ => 0)
    }

    lemma Reverse(a: K, b: K)
      requires Total()
      ensures compare(a, b) > 0 <==> compare(b, a) < 0
      ensures compare(a, b) == 0 <==> compare(b, a) == 0
    {
      assert compare(a, b) < 0 <==> compare(b, a) > 0;
      assert compare(b, a) < 0 <==> compare(a, b) > 0;
    }

    lemma Transitive(a: K, b: K, c: K)
      requires Total()
      ensures compare(a, b) <= 0 && compare(b, c) < 0 ==> compare(a, c) < 0
      ensures compare(a, b) < 0 && compare(b, c) <= 0 ==> compare(a, c) < 0
      ensures compare(a, b) == 0 && compare(b, c) == 0 ==> compare(a, c) == 0
    {
      Reverse(a, b);
      Reverse(b, c);
      Reverse(a, c);
      assert compare(b, c) <= 0 && compare(c, a) <= 0 ==> compare(b, a) <= 0;
      assert compare(c, a) <= 0 && compare(a, b) <= 0 ==> compare(c, b) <= 0;
      assert compare(c, b) <= 0 && compare(b, a) <= 0 ==> compare(c, a) <= 0;
      assert compare(a, b) <= 0 && compare(b, c) <= 0 ==> compare(a, c) <= 0;
    }

    lemma IdentityIsLawful()
      requires Total()
      ensures Identity().Lawful()
    {
      var keys := Identity();
      forall a, b ensures keys.same(a, b) <==> keys.same(b, a) {
        Reverse(a, b);
      }
      forall a, b, c | keys.same(a, b) && keys.same(b, c) ensures keys.same(a, c) {
        Transitive(a, b, c);
      }
    }
  }

  ghost predicate Ascending<K(!new), V>(order: Order<K>, m: seq<Pair<K, V>>) {
    forall i, j :: 0 <= i < j < |m| ==> order.compare(m[i].key, m[j].key) < 0
  }

  ghost predicate SameEntries<K, V>(a: seq<Pair<K, V>>, b: seq<Pair<K, V>>) {
    (forall p | p in a :: p in b) && (forall p | p in b :: p in a)
  }

  lemma AscendingIsDistinct<K(!new), V>(order: Order<K>, m: seq<Pair<K, V>>)
    requires Ascending(order, m)
    ensures Distinct(order.Identity(), m)
  {
  }

  /** The entries determine the sorted list. */
  lemma SortedOnce<K(!new), V>(order: Order<K>, a: seq<Pair<K, V>>, b: seq<Pair<K, V>>)
    requires order.Total() && Ascending(order, a) && Ascending(order, b) && SameEntries(a, b)
    ensures a == b
  {
    var less := (p: Pair<K, V>, q: Pair<K, V>) => order.compare(p.key, q.key) < 0;
    forall p, q | p in a && q in a ensures !(less(p, q) && less(q, p)) {
      order.Reverse(p.key, q.key);
    }
    SortedListsAgree(less, a, b);
  }

  // ----- Entries after an operation -----

  lemma PutEntries<K(!new), V>(keys: Keys<K>, m: seq<Pair<K, V>>, k: K, v: V, p: Pair<K, V>)
    requires Distinct(keys, m) && keys.Lawful()
    ensures var i := IndexOf(keys, m, k);
            p in Put(keys, m, k, v) <==>
            if i >= 0 then p == Pair(m[i].key, v) || (p in m && p != m[i]) else p == Pair(k, v) || p in m
  {
    var i := IndexOf(keys, m, k);
    if i >= 0 {
      Replaced(keys, m, i, Pair(m[i].key, v), p);
    }
  }

  lemma Replaced<K(!new), V>(keys: Keys<K>, m: seq<Pair<K, V>>, i: nat, e: Pair<K, V>, p: Pair<K, V>)
    requires i < |m| && Distinct(keys, m) && keys.Lawful()
    ensures p in m[i := e] <==> p == e || (p in m && p != m[i])
    ensures p in m[..i] + m[i + 1..] <==> p in m && p != m[i]
  {
    if p in m {
      var j :| 0 <= j < |m| && m[j] == p;
      assert j != i ==> m[i := e][j] == p && p != m[i];
      assert j < i ==> (m[..i] + m[i + 1..])[j] == p;
      assert j > i ==> (m[..i] + m[i + 1..])[j - 1] == p;
    }
    assert m[i := e][i] == e;
  }

  lemma DelEntries<K(!new), V>(keys: Keys<K>, m: seq<Pair<K, V>>, k: K, p: Pair<K, V>)
    requires Distinct(keys, m) && keys.Lawful()
    ensures var i := IndexOf(keys, m, k);
            p in Del(keys, m, k) <==> p in m && (i >= 0 ==> p != m[i])
  {
    var i := IndexOf(keys, m, k);
    if i >= 0 {
      Replaced(keys, m, i, m[i], p);
      assert Del(keys, m, k) == m[..i] + m[i + 1..];
    }
    hide *;
  }

  lemma FoundOnce<K(!new), V>(keys: Keys<K>, m: seq<Pair<K, V>>, k: K, x: nat)
    requires Distinct(keys, m) && keys.Lawful() && x < |m| && keys.same(m[x].key, k)
    ensures IndexOf(keys, m, k) == x
  {
    var i := IndexOf(keys, m, k);
    assert i < x ==> keys.same(m[i].key, m[x].key) by {
      assert keys.same(m[x].key, k) && keys.same(k, m[x].key);
    }
  }

  /** The entry that a key finds depends only on which entries there are. */
  lemma FindsSameEntry<K(!new), V>(keys: Keys<K>, a: seq<Pair<K, V>>, b: seq<Pair<K, V>>, k: K)
    requires Distinct(keys, a) && Distinct(keys, b) && keys.Lawful() && SameEntries(a, b)
    ensures var i, j := IndexOf(keys, a, k), IndexOf(keys, b, k);
            (i >= 0 <==> j >= 0) && (i >= 0 ==> a[i] == b[j])
  {
    var i, j := IndexOf(keys, a, k), IndexOf(keys, b, k);
    if i >= 0 {
      assert a[i] in b;
      var x :| 0 <= x < |b| && b[x] == a[i];
      assert keys.same(b[x].key, k);
      FoundOnce(keys, b, k, x);
    }
    if j >= 0 {
      assert b[j] in a;
    }
  }

  lemma ApplyRespectsEntries<K(!new), V>(keys: Keys<K>, a: seq<Pair<K, V>>, b: seq<Pair<K, V>>, op: Op<K, V>)
    requires Distinct(keys, a) && Distinct(keys, b) && keys.Lawful() && SameEntries(a, b)
    ensures SameEntries(Apply(keys, a, op), Apply(keys, b, op))
  {
    if !op.Clear? {
      FindsSameEntry(keys, a, b, op.key);
    }
    forall p
      ensures p in Apply(keys, a, op) <==> p in Apply(keys, b, op)
    {
      SameAfter(keys, a, b, op, p);
    }
  }

  lemma SameAfter<K(!new), V>(
    keys: Keys<K>, a: seq<Pair<K, V>>, b: seq<Pair<K, V>>, op: Op<K, V>, p: Pair<K, V>)
    requires Distinct(keys, a) && Distinct(keys, b) && keys.Lawful() && SameEntries(a, b)
    requires !op.Clear? ==>
               var i, j := IndexOf(keys, a, op.key), IndexOf(keys, b, op.key);
               (i >= 0 <==> j >= 0) && (i >= 0 ==> a[i] == b[j])
    ensures p in Apply(keys, a, op) <==> p in Apply(keys, b, op)
  {
    assert p in a <==> p in b;
    hide Distinct, Keys.Lawful, SameEntries, Put, Del, IndexOf;
    match op
    case Insert(k, v) =>
      PutEntries(keys, a, k, v, p);
      PutEntries(keys, b, k, v, p);
    case Remove(k) =>
      DelEntries(keys, a, k, p);
      DelEntries(keys, b, k, p);
    case Clear =>
  }

  // ----- Around a key -----

  ghost predicate AllBelow<K(!new), V>(order: Order<K>, m: seq<Pair<K, V>>, key: K) {
    forall i :: 0 <= i < |m| ==> order.compare(key, m[i].key) > 0
  }

  ghost predicate AllAbove<K(!new), V>(order: Order<K>, m: seq<Pair<K, V>>, key: K) {
    forall i :: 0 <= i < |m| ==> order.compare(key, m[i].key) < 0
  }

  lemma BelowPivot<K(!new), V>(order: Order<K>, a: seq<Pair<K, V>>, x: Pair<K, V>, key: K)
    requires order.Total() && order.compare(key, x.key) > 0
    requires forall i :: 0 <= i < |a| ==> order.compare(a[i].key, x.key) < 0
    ensures AllBelow(order, a + [x], key)
  {
    hide Order.Total;
    order.Reverse(key, x.key);
    forall i | 0 <= i < |a|
      ensures order.compare(key, a[i].key) > 0
    {
      order.Transitive(a[i].key, x.key, key);
      order.Reverse(key, a[i].key);
    }
  }

  lemma AbovePivot<K(!new), V>(order: Order<K>, x: Pair<K, V>, b: seq<Pair<K, V>>, key: K)
    requires order.Total() && order.compare(key, x.key) < 0
    requires forall i :: 0 <= i < |b| ==> order.compare(x.key, b[i].key) < 0
    ensures AllAbove(order, [x] + b, key)
  {
    hide Order.Total;
    forall i | 0 <= i < |b|
      ensures order.compare(key, b[i].key) < 0
    {
      order.Transitive(key, x.key, b[i].key);
    }
  }

  lemma PivotBounds<K(!new), V>(order: Order<K>, a: seq<Pair<K, V>>, x: Pair<K, V>, b: seq<Pair<K, V>>)
    requires Ascending(order, a + [x] + b)
    ensures forall i :: 0 <= i < |a| ==> order.compare(a[i].key, x.key) < 0
    ensures forall i :: 0 <= i < |b| ==> order.compare(x.key, b[i].key) < 0
  {
    var m := a + [x] + b;
    assert m[|a|] == x;
    assert forall i :: 0 <= i < |a| ==> m[i] == a[i];
    assert forall i :: 0 <= i < |b| ==> m[|a| + 1 + i] == b[i];
  }

  lemma Absent<K(!new), V>(order: Order<K>, a: seq<Pair<K, V>>, b: seq<Pair<K, V>>, key: K)
    requires order.Total() && AllBelow(order, a, key) && AllAbove(order, b, key)
    ensures !Has(order.Identity(), a + b, key)
  {
    var m := a + b;
    forall i | 0 <= i < |m|
      ensures !order.Identity().same(m[i].key, key)
    {
      order.Reverse(key, m[i].key);
      assert m[i] == if i < |a| then a[i] else b[i - |a|];
    }
  }

  lemma FoundBetween<K(!new), V>(
    order: Order<K>, a: seq<Pair<K, V>>, e: Pair<K, V>, b: seq<Pair<K, V>>, key: K)
    requires order.Total() && Ascending(order, a + [e] + b) && order.compare(key, e.key) == 0
    ensures IndexOf(order.Identity(), a + [e] + b, key) == |a|
  {
    var m := a + [e] + b;
    assert m[|a|] == e;
    AscendingIsDistinct(order, m);
    order.IdentityIsLawful();
    order.Reverse(key, e.key);
    FoundOnce(order.Identity(), m, key, |a|);
  }

  lemma SplicedAscends<K(!new), V>(order: Order<K>, a: seq<Pair<K, V>>, x: Pair<K, V>, b: seq<Pair<K, V>>)
    requires Ascending(order, a + b)
    requires forall i :: 0 <= i < |a| ==> order.compare(a[i].key, x.key) < 0
    requires forall i :: 0 <= i < |b| ==> order.compare(x.key, b[i].key) < 0
    ensures Ascending(order, a + [x] + b)
  {
    var m, n := a + [x] + b, a + b;
    forall i, j | 0 <= i < j < |m|
      ensures order.compare(m[i].key, m[j].key) < 0
    {
      if i == |a| {
        assert m[j] == b[j - |a| - 1];
      } else if j == |a| {
        assert m[i] == a[i];
      } else {
        assert m[i] == n[if i < |a| then i else i - 1] && m[j] == n[if j < |a| then j else j - 1];
      }
    }
  }

  lemma ClosedUpAscends<K(!new), V>(order: Order<K>, a: seq<Pair<K, V>>, x: Pair<K, V>, b: seq<Pair<K, V>>)
    requires Ascending(order, a + [x] + b)
    ensures Ascending(order, a + b)
  {
    var m, n := a + [x] + b, a + b;
    forall i, j | 0 <= i < j < |n|
      ensures order.compare(n[i].key, n[j].key) < 0
    {
      assert n[i] == m[if i < |a| then i else i + 1] && n[j] == m[if j < |a| then j else j + 1];
    }
  }

  lemma AtMiddle<T>(a: seq<T>, x: T, b: seq<T>, y: T)
    ensures var m := a + [x] + b;
            m[|a|] == x && m[|a| := y] == a + [y] + b && m[..|a|] == a && m[|a| + 1..] == b
  {
  }

  /** A new entry goes between those below and those above. */
  lemma EntryAdded<K(!new), V>(order: Order<K>, a: seq<Pair<K, V>>, b: seq<Pair<K, V>>, key: K, v: V)
    requires order.Total() && Ascending(order, a + b) && AllBelow(order, a, key) && AllAbove(order, b, key)
    ensures var m := a + [Pair(key, v)] + b;
            Ascending(order, m) && SameEntries(m, Put(order.Identity(), a + b, key, v))
  {
    Absent(order, a, b, key);
    forall i | 0 <= i < |a|
      ensures order.compare(a[i].key, key) < 0
    {
      order.Reverse(key, a[i].key);
    }
    SplicedAscends(order, a, Pair(key, v), b);
    hide IndexOf, Ascending, Order.Total;
    assert Put(order.Identity(), a + b, key, v) == (a + b) + [Pair(key, v)];
  }

  /** A found entry gets its value replaced where it stands. */
  lemma EntryReplaced<K(!new), V>(
    order: Order<K>, a: seq<Pair<K, V>>, e: Pair<K, V>, b: seq<Pair<K, V>>, key: K, v: V)
    requires order.Total() && Ascending(order, a + [e] + b) && order.compare(key, e.key) == 0
    ensures var m := a + [Pair(e.key, v)] + b;
            Ascending(order, m) && m == Put(order.Identity(), a + [e] + b, key, v)
  {
    FoundBetween(order, a, e, b, key);
    ClosedUpAscends(order, a, e, b);
    PivotBounds(order, a, e, b);
    SplicedAscends(order, a, Pair(e.key, v), b);
    hide IndexOf, Ascending, Order.Total;
    AtMiddle(a, e, b, Pair(e.key, v));
  }

  /** A found entry is removed where it stands. */
  lemma EntryRemoved<K(!new), V>(
    order: Order<K>, a: seq<Pair<K, V>>, e: Pair<K, V>, b: seq<Pair<K, V>>, key: K)
    requires order.Total() && Ascending(order, a + [e] + b) && order.compare(key, e.key) == 0
    ensures Ascending(order, a + b) && a + b == Del(order.Identity(), a + [e] + b, key)
  {
    FoundBetween(order, a, e, b, key);
    ClosedUpAscends(order, a, e, b);
    hide IndexOf, Ascending, Order.Total;
    AtMiddle(a, e, b, e);
  }

  /** Lists with the same entries, each once, are equally long. */
  lemma {:induction false} EquallyMany<K(!new), V>(keys: Keys<K>, a: seq<Pair<K, V>>, b: seq<Pair<K, V>>)
    requires Distinct(keys, a) && Distinct(keys, b) && keys.Lawful() && SameEntries(a, b)
    ensures |a| == |b|
  {
    NonEmptyHasMember(b);
    if a != [] {
      var n := |a| - 1;
      assert a[n] in b;
      var i :| 0 <= i < |b| && b[i] == a[n];
      var a', b' := a[..n], b[..i] + b[i + 1..];
      forall p ensures p in a' <==> p in b' {
        Replaced(keys, a, n, a[n], p);
        Replaced(keys, b, i, a[n], p);
      }
      EquallyMany(keys, a', b');
    }
  }

  // ----- Entries from a list of pairs -----

  lemma AscendingExtends<K(!new), V>(order: Order<K>, m: seq<Pair<K, V>>, n: nat)
    requires order.Total() && n < |m| && Ascending(order, m[..n])
    requires n == 0 || order.compare(m[n].key, m[n - 1].key) > 0
    ensures Ascending(order, m[..n + 1])
  {
    hide Order.Total;
    forall i | 0 <= i < n
      ensures order.compare(m[i].key, m[n].key) < 0
    {
      order.Reverse(m[n].key, m[n - 1].key);
      assert i < n - 1 ==> order.compare(m[..n][i].key, m[..n][n - 1].key) < 0;
      order.Transitive(m[i].key, m[n - 1].key, m[n].key);
    }
  }

  function Inserts<K, V>(m: seq<Pair<K, V>>): seq<Op<K, V>> {
    seq(|m|, i requires 0 <= i < |m| => Op.Insert(m[i].key, m[i].value))
  }

  lemma LastInsert<K, V>(m: seq<Pair<K, V>>)
    requires |m| > 0
    ensures var n := |m| - 1;
            Inserts(m) == Inserts(m[..n]) + [Op.Insert(m[n].key, m[n].value)] && m == m[..n] + [m[n]]
  {
  }

  /** Inserting pairs with different keys gives these pairs. */
  lemma {:induction false} RunOfInserts<K(!new), V>(keys: Keys<K>, m: seq<Pair<K, V>>)
    requires keys.Lawful() && Distinct(keys, m)
    ensures Run(keys, Inserts(m)) == m
    decreases |m|
  {
    if |m| > 0 {
      var n := |m| - 1;
      var before, op := m[..n], Op.Insert(m[n].key, m[n].value);
      assert Distinct(keys, before);
      hide *;
      LastInsert(m);
      RunOfInserts(keys, before);
      RunExtends(keys, Inserts(before), op);
      NewKey(keys, m, n);
      PutNew(keys, before, op);
    }
  }

  lemma PutNew<K(!new), V>(keys: Keys<K>, m: seq<Pair<K, V>>, op: Op<K, V>)
    requires op.Insert? && !Has(keys, m, op.key)
    ensures Apply(keys, m, op) == m + [Pair(op.key, op.value)]
  {
  }

  /** The next of several pairs with different keys, after those before it are in. */
  lemma NextPair<K(!new), V>(keys: Keys<K>, m: seq<Pair<K, V>>, values: seq<Pair<K, V>>, i: nat)
    requires keys.Lawful() && Distinct(keys, m) && Distinct(keys, values)
    requires i < |values| && SameEntries(m, values[..i])
    ensures |m| == i && !Has(keys, m, values[i].key)
    ensures SameEntries(Put(keys, m, values[i].key, values[i].value), values[..i + 1])
  {
    var op := Op.Insert(values[i].key, values[i].value);
    assert Distinct(keys, values[..i]);
    EquallyMany(keys, m, values[..i]);
    NewKey(keys, values, i);
    FindsSameEntry(keys, m, values[..i], op.key);
    ApplyRespectsEntries(keys, m, values[..i], op);
    PutNew(keys, values[..i], op);
    hide Distinct, Keys.Lawful, Put, IndexOf;
    assert values[..i + 1] == values[..i] + [Pair(op.key, op.value)];
  }

  lemma NewKey<K(!new), V>(keys: Keys<K>, m: seq<Pair<K, V>>, n: nat)
    requires keys.Lawful() && Distinct(keys, m) && n < |m|
    ensures !Has(keys, m[..n], m[n].key)
  {
    forall i | 0 <= i < n
      ensures !keys.same(m[..n][i].key, m[n].key)
    {
      assert m[..n][i] == m[i];
    }
  }
}
