/**
 Whole runs on a StrictTreeMap in the stable order of PHP values: the same entries as a StrictHashMap after
 the same operations, sorted; and a run after which the tree is no longer balanced.
 */
module StrictTreeMapRuns {
  import opened AssocList
  import opened ByteStrings
  import opened RedBlackRebalance
  import opened RedBlackTrees
  import opened SortedEntries
  import opened StableCompares
  import opened StrictHashMaps
  import opened StrictHashes
  import opened StrictTreeMaps
  import opened Zvals

  /** The order that StrictTreeMap keeps its keys in. */
  function StableOrder(w: Engine, other: int): Order<Zval> {
    Order((a, b) => StableCompare(w, other, a, b))
  }

  lemma StableOrderIsTotal(w: Engine, other: int)
    requires w.OrdersKeys()
    ensures StableOrder(w, other).Total()
  {
    hide StableCompare, Engine.OrdersKeys;
    forall a, b {
      StableCompareAntisymmetric(w, other, a, b);
    }
    forall a, b, c | StableCompare(w, other, a, b) <= 0 && StableCompare(w, other, b, c) <= 0
      ensures StableCompare(w, other, a, c) <= 0
    {
      StableCompareTransitive(w, other, a, b, c);
    }
  }

  /** Two keys are one key for StrictTreeMap exactly when they are one key for StrictHashMap. */
  lemma SameKeyInBothMaps(w: Engine, other: int, stringHash: Bytes -> UInt64, a: Zval, b: Zval)
    requires w.OrdersKeys()
    ensures StableOrder(w, other).Identity().same(a, b) == ZvalKeys(stringHash).same(a, b)
  {
    hide StableCompare, IdenticalOrBothNan;
    TiesAreIdentical(w, other, a, b);
  }

  lemma {:induction false} SameFound<K(!new), V>(k: Keys<K>, l: Keys<K>, m: seq<Pair<K, V>>, key: K)
    requires forall a, b :: k.same(a, b) == l.same(a, b)
    ensures IndexOf(k, m, key) == IndexOf(l, m, key)
  {
    if |m| > 0 {
      SameFound(k, l, m[..|m| - 1], key);
    }
  }

  lemma {:induction false} SameRun<K(!new), V>(k: Keys<K>, l: Keys<K>, ops: seq<Op<K, V>>)
    requires forall a, b :: k.same(a, b) == l.same(a, b)
    ensures Run(k, ops) == Run(l, ops)
  {
    if |ops| > 0 {
      var n := |ops| - 1;
      SameRun(k, l, ops[..n]);
      if !ops[n].Clear? {
        SameFound(k, l, Run(k, ops[..n]), ops[n].key);
      }
    }
  }

  /** After the same operations a tree map holds the entries of a hash map, in ascending order. */
  lemma TreeSortsHashMap<V>(
    w: Engine, other: int, stringHash: Bytes -> UInt64, tree: StrictTreeMap<Zval, V>, hash: StrictHashMap<Zval, V>)
    requires w.OrdersKeys() && tree.Reachable() && hash.Reachable() && tree.history == hash.history
    requires tree.order == StableOrder(w, other) && hash.keys == ZvalKeys(stringHash)
    ensures Ascending(tree.order, tree.Contents())
    ensures SameEntries(tree.Contents(), hash.Contents()) && |tree.Contents()| == |hash.Contents()|
  {
    var k, l := tree.order.Identity(), hash.keys;
    forall a, b
      ensures k.same(a, b) == l.same(a, b)
    {
      SameKeyInBothMaps(w, other, stringHash, a, b);
    }
    SameRun(k, l, tree.history);
    tree.order.IdentityIsLawful();
    RunIsChronicled(k, tree.history);
    AscendingIsDistinct(tree.order, tree.Contents());
    hide Run, Distinct, Ascending, Keys.Lawful, SameEntries, Order.Total, StrictHashMap.Valid;
    EquallyMany(k, tree.Contents(), Run(k, tree.history));
  }

  /** One operation; `ok` is false when the process ends because the map may not grow. */
  method Perform<K(!new), V>(m: StrictTreeMap<K, V>, op: Op<K, V>) returns (ok: bool)
    requires m.Reachable()
    modifies m
    ensures ok ==> m.Reachable() && m.history == old(m.history) + [op]
    ensures !ok ==> op.Insert? && !Has(m.order.Identity(), old(m.Contents()), op.key) &&
                    m.maxPairs <= |old(m.Contents())| + 1
  {
    hide *;
    ok := true;
    match op
    case Insert(key, value) =>
      ok := m.OffsetSet(key, value);
    case Remove(key) =>
      m.OffsetUnset(key);
    case Clear =>
      m.ClearAll();
  }

  /**
   Performs the operations one by one. The entries are then the run's in ascending order, and the tree is
   red-black if every assertion held; the process ends early only at a new key for a full map.
   */
  method RunOps<V>(w: Engine, other: int, maxPairs: nat, ops: seq<Op<Zval, V>>)
    returns (m: StrictTreeMap<Zval, V>, ran: nat)
    requires w.OrdersKeys() && 2 <= maxPairs
    ensures ran <= |ops| && m.order == StableOrder(w, other)
    ensures ran == |ops| ==> m.Reachable() && m.history == ops && (m.sound ==> IsRedBlack(m.root))
    ensures ran == |ops| ==> Ascending(m.order, m.Contents())
    ensures ran == |ops| ==> SameEntries(m.Contents(), Run(m.order.Identity(), ops))
    ensures ran < |ops| ==> ops[ran].Insert? &&
                            var before := Run(m.order.Identity(), ops[..ran]);
                            !Has(m.order.Identity(), before, ops[ran].key) && maxPairs <= |before| + 1
  {
    StableOrderIsTotal(w, other);
    m := new StrictTreeMap(StableOrder(w, other), maxPairs);
    ran := 0;
    hide IsRedBlack, Run, Ascending, Order.Total, Engine.OrdersKeys, StableOrder;
    while ran < |ops|
      invariant fresh(m) && m.order == StableOrder(w, other) && m.maxPairs == maxPairs
      invariant ran <= |ops| && m.Reachable() && m.history == ops[..ran]
    {
      AsInRun(m);
      var ok := Perform(m, ops[ran]);
      if !ok {
        return;
      }
      ran := ran + 1;
    }
  }

  /** Looking a key up in the tree or in the run comes to the same, and so does counting. */
  lemma AsInRun<K(!new), V>(m: StrictTreeMap<K, V>)
    requires m.Reachable()
    ensures forall key :: Has(m.order.Identity(), m.Contents(), key) <==>
                          Has(m.order.Identity(), Run(m.order.Identity(), m.history), key)
    ensures |m.Contents()| == |Run(m.order.Identity(), m.history)|
  {
    var keys := m.order.Identity();
    m.order.IdentityIsLawful();
    RunIsChronicled(keys, m.history);
    AscendingIsDistinct(m.order, m.Contents());
    hide Run, Distinct, Ascending, Keys.Lawful, Order.Total, IsRedBlack;
    EquallyMany(keys, m.Contents(), Run(keys, m.history));
    forall key
      ensures Has(keys, m.Contents(), key) <==> Has(keys, Run(keys, m.history), key)
    {
      FindsSameEntry(keys, m.Contents(), Run(keys, m.history), key);
    }
  }

  // ----- A removal that unbalances the tree -----

  function Leaf<K, V>(color: Color, key: K, v: V): Tree<K, V> {
    Node(color, Empty, Pair(key, v), Empty)
  }

  /** Setting a key above that of a node continues on its right. */
  lemma GoesRight<K(!new), V>(order: Order<K>, t: Tree<K, V>, p: Path<K, V>, key: K)
    requires order.Total() && t.Node? && order.compare(t.kv.key, key) < 0
    ensures Descended(order, t, p, key) == Descended(order, t.right, Step(Right, t.color, t.kv, t.left, p), key)
  {
    order.Reverse(key, t.kv.key);
  }

  function AfterTwo<K, V>(a: K, b: K, v: V): Tree<K, V> {
    Node(Black, Empty, Pair(a, v), Leaf(Red, b, v))
  }

  function AfterThree<K, V>(a: K, b: K, c: K, v: V): Tree<K, V> {
    Node(Black, Leaf(Red, a, v), Pair(b, v), Leaf(Red, c, v))
  }

  function AfterFour<K, V>(a: K, b: K, c: K, d: K, v: V): Tree<K, V> {
    Node(Red, Leaf(Black, a, v), Pair(b, v), AfterTwo(c, d, v))
  }

  /** Four keys set in ascending order: the root is red, and its right child has a right child only. */
  lemma FourAscending<K(!new), V>(order: Order<K>, a: K, b: K, c: K, d: K, v: V)
    requires order.Total()
    requires order.compare(a, b) < 0 && order.compare(b, c) < 0 && order.compare(c, d) < 0
    ensures Inserted(order, Empty, a, v) == Leaf(Red, a, v)
    ensures Inserted(order, Leaf(Red, a, v), b, v) == AfterTwo(a, b, v)
    ensures Inserted(order, AfterTwo(a, b, v), c, v) == AfterThree(a, b, c, v)
    ensures Inserted(order, AfterThree(a, b, c, v), d, v) == AfterFour(a, b, c, d, v)
  {
    hide Order.Total;
    order.Transitive(b, c, d);
    GoesRight(order, Leaf(Red, a, v), Top, b);
    var second := Leaf(Red, b, v);
    assert Repaired(second, Step(Right, Red, Pair(a, v), Empty, Top)) ==
           Whole(second, Step(Right, Black, Pair(a, v), Empty, Top)) == AfterTwo(a, b, v);
    var two := AfterTwo(a, b, v);
    order.Transitive(a, b, c);
    GoesRight(order, two, Top, c);
    GoesRight(order, two.right, Step(Right, Black, two.kv, two.left, Top), c);
    var three := AfterThree(a, b, c, v);
    GoesRight(order, three, Top, d);
    GoesRight(order, three.right, Step(Right, Black, three.kv, three.left, Top), d);
    var node, above := Leaf(Red, d, v), Step(Right, Black, three.kv, three.left, Top);
    var path := Step(Right, Red, three.right.kv, Empty, above);
    assert Repaired(node, path) == Repaired(BlackBelowGrandparent(node, path), Top);
  }

  lemma FewEntries<K, V>(a: K, b: K, c: K, v: V)
    ensures |InOrder(Leaf(Red, a, v))| == 1 && |InOrder(AfterTwo(a, b, v))| == 2
    ensures |InOrder(AfterThree(a, b, c, v))| == 3
  {
  }

  lemma SecondOfFour<K(!new), V>(order: Order<K>, a: K, b: K, c: K, d: K, v: V)
    requires order.Total()
    ensures var node := Descended(order, AfterFour(a, b, c, d, v), Top, b).0;
            NextHasChild(node) && NextIsMisjudged(node)
  {
    order.Reverse(b, b);
  }

  method SetFour<K(!new), V>(order: Order<K>, a: K, b: K, c: K, d: K, v: V) returns (m: StrictTreeMap<K, V>)
    requires order.Total()
    requires order.compare(a, b) < 0 && order.compare(b, c) < 0 && order.compare(c, d) < 0
    ensures fresh(m) && m.Reachable() && m.sound && m.order == order && m.root == AfterFour(a, b, c, d, v)
    ensures m.history == [Op.Insert(a, v)] + [Op.Insert(b, v)] + [Op.Insert(c, v)] + [Op.Insert(d, v)]
  {
    FourAscending(order, a, b, c, d, v);
    FewEntries(a, b, c, v);
    assert InOrder<K, V>(Empty) == [];
    hide InOrder, Inserted, Has, Put, Run, Order.Total, Order.Identity, Ascending, SameEntries, IsRedBlack;
    hide AfterTwo, AfterThree, AfterFour, Leaf, StrictTreeMap.Reachable, StrictTreeMap.Valid;
    m := new StrictTreeMap(order, 8);
    var ok := m.OffsetSet(a, v);
    ok := m.OffsetSet(b, v);
    ok := m.OffsetSet(c, v);
    ok := m.OffsetSet(d, v);
  }

  /** A node whose next node lies deeper: the assertion fails on removal, yet the tree stays red-black. */
  lemma DeeperNextNode<V>(v: V)
    ensures var right := Node(Red, AfterTwo(3, 4, v), Pair(5, v), Leaf(Black, 6, v));
            var t := Node(Black, Leaf(Black, 1, v), Pair(2, v), right);
            IsRedBlack(t) && NextHasChild(t) && !NextIsMisjudged(t)
  {
    var right := Node(Red, AfterTwo(3, 4, v), Pair(5, v), Leaf(Black, 6, v));
    assert RedBlack(AfterTwo(3, 4, v), 1) && RedBlack(Leaf(Black, 6, v), 1) && RedBlack(Leaf(Black, 1, v), 1);
    assert RedBlack(right, 1);
    OneBlackHeight(Node(Black, Leaf(Black, 1, v), Pair(2, v), right), 2);
  }

  /** Of four keys set in ascending order the second is removed: an assertion fails, and balance is lost. */
  method RemovalUnbalances<K(!new), V>(order: Order<K>, a: K, b: K, c: K, d: K, v: V)
    returns (m: StrictTreeMap<K, V>, balanced: bool)
    requires order.Total()
    requires order.compare(a, b) < 0 && order.compare(b, c) < 0 && order.compare(c, d) < 0
    ensures m.Reachable() && !m.sound && !balanced
    ensures balanced <==> exists n :: EqualBlacks(m.root, n)
    ensures m.history == [Op.Insert(a, v)] + [Op.Insert(b, v)] + [Op.Insert(c, v)] + [Op.Insert(d, v)] +
                         [Op<K, V>.Remove(b)]
  {
    SecondOfFour(order, a, b, c, d, v);
    hide *;
    m := SetFour(order, a, b, c, d, v);
    m.SoundIsShallow();
    m.OffsetUnset(b);
    balanced := m.DebugIsBalanced();
  }
}
