/**
 Teds\StrictTreeMap: a red-black tree in the stable order of its keys, proved to hold the entries of an
 association list in ascending order, and balanced for as long as the source's own assertions hold.
 */
module StrictTreeMaps {
  import opened Wrappers
  import opened AssocList
  import opened Float64s
  import opened RedBlackBuild
  import opened RedBlackRebalance
  import opened RedBlackTrees
  import opened SortedEntries

  // ----- Descent -----

  /** From `t` at `p` down to the node with the key, or to the leaf where it belongs. */
  function Descended<K(!new), V>(order: Order<K>, t: Tree<K, V>, p: Path<K, V>, key: K): (Tree<K, V>, Path<K, V>)
    decreases t
  {
    if t.Empty? then (t, p)
    else
      var c := order.compare(key, t.kv.key);
      if c > 0 then Descended(order, t.right, Step(Right, t.color, t.kv, t.left, p), key)
      else if c < 0 then Descended(order, t.left, Step(Left, t.color, t.kv, t.right, p), key)
      else (t, p)
  }

  /** Everything before `p` is below the key and everything after it above. */
  ghost predicate Around<K(!new), V>(order: Order<K>, p: Path<K, V>, key: K) {
    AllBelow(order, Before(p), key) && AllAbove(order, After(p), key)
  }

  lemma {:induction false} DescentFinds<K(!new), V>(order: Order<K>, t: Tree<K, V>, p: Path<K, V>, key: K)
    requires order.Total() && Ascending(order, InOrder(Whole(t, p))) && Around(order, p, key)
    ensures var (u, q) := Descended(order, t, p, key);
            && Whole(u, q) == Whole(t, p) && Around(order, q, key)
            && (u.Node? ==> order.compare(key, u.kv.key) == 0)
    decreases t
  {
    if t.Node? {
      var c := order.compare(key, t.kv.key);
      if c != 0 {
        var dir := if c > 0 then Right else Left;
        WholeBelow(t, dir, p);
        StepAround(order, t, p, dir, key);
        DescentFinds(order, t.Child(dir), Step(dir, t.color, t.kv, t.Child(Opposite(dir)), p), key);
      }
    }
  }

  /** The entries of the whole tree, around the one at `t`. */
  lemma WholeAround<K, V>(t: Tree<K, V>, p: Path<K, V>)
    requires t.Node?
    ensures InOrder(Whole(t, p)) == (Before(p) + InOrder(t.left)) + [t.kv] + (InOrder(t.right) + After(p))
  {
    WholeInOrder(t, p);
    assert InOrder(t) == InOrder(t.left) + [t.kv] + InOrder(t.right);
    hide *;
    Reassociated(Before(p), InOrder(t.left), [t.kv], InOrder(t.right), After(p));
  }

  lemma Reassociated<T>(a: seq<T>, b: seq<T>, x: seq<T>, c: seq<T>, d: seq<T>)
    ensures a + (b + x + c) + d == (a + b) + x + (c + d)
  {
  }

  lemma StepEntries<K, V>(t: Tree<K, V>, p: Path<K, V>, dir: Dir)
    requires t.Node?
    ensures var q := Step(dir, t.color, t.kv, t.Child(Opposite(dir)), p);
            if dir.Right? then Before(q) == (Before(p) + InOrder(t.left)) + [t.kv] && After(q) == After(p)
            else Before(q) == Before(p) && After(q) == [t.kv] + (InOrder(t.right) + After(p))
  {
    hide InOrder;
  }

  lemma StepAround<K(!new), V>(order: Order<K>, t: Tree<K, V>, p: Path<K, V>, dir: Dir, key: K)
    requires order.Total() && Ascending(order, InOrder(Whole(t, p))) && Around(order, p, key)
    requires t.Node? && if dir.Right? then order.compare(key, t.kv.key) > 0 else order.compare(key, t.kv.key) < 0
    ensures Around(order, Step(dir, t.color, t.kv, t.Child(Opposite(dir)), p), key)
  {
    var a, b := Before(p) + InOrder(t.left), InOrder(t.right) + After(p);
    var q := Step(dir, t.color, t.kv, t.Child(Opposite(dir)), p);
    hide InOrder, Before, After, Whole, Order.Total, Ascending, AllBelow, AllAbove;
    StepEntries(t, p, dir);
    WholeAround(t, p);
    PivotBounds(order, a, t.kv, b);
    if dir.Right? {
      BelowPivot(order, a, t.kv, key);
    } else {
      AbovePivot(order, t.kv, b, key);
    }
  }

  lemma AroundLeaf<K, V>(p: Path<K, V>)
    ensures InOrder(Whole(Empty, p)) == Before(p) + After(p)
  {
    WholeInOrder(Empty, p);
    assert InOrder<K, V>(Empty) == [];
    hide *;
    assert Before(p) + [] + After(p) == Before(p) + After(p);
  }

  /** The tree after a key is set; the entry limit aside. */
  function Inserted<K(!new), V>(order: Order<K>, root: Tree<K, V>, key: K, value: V): Tree<K, V> {
    var (t, p) := Descended(order, root, Top, key);
    if t.Node? then Whole(t.(kv := Pair(t.kv.key, value)), p)
    else Repaired(Node(Red, Empty, Pair(key, value), Empty), p)
  }

  lemma InsertedKeeps<K(!new), V>(order: Order<K>, root: Tree<K, V>, key: K, value: V)
    requires order.Total() && Ascending(order, InOrder(root))
    ensures var r := InOrder(Inserted(order, root, key, value));
            Ascending(order, r) && SameEntries(r, Put(order.Identity(), InOrder(root), key, value))
    ensures IsRedBlack(root) ==> IsRedBlack(Inserted(order, root, key, value))
    ensures Descended(order, root, Top, key).0.Node? <==> Has(order.Identity(), InOrder(root), key)
    ensures |InOrder(Inserted(order, root, key, value))| ==
            |InOrder(root)| + if Has(order.Identity(), InOrder(root), key) then 0 else 1
  {
    var (t, p) := Descended(order, root, Top, key);
    DescentFinds(order, root, Top, key);
    if t.Node? {
      OverwrittenKeeps(order, t, p, key, value);
    } else {
      AddedKeeps(order, p, key, value);
    }
    hide InOrder, Ascending, Order.Total, SameEntries, IsRedBlack, Has, Put, Repaired;
  }

  lemma OverwrittenKeeps<K(!new), V>(order: Order<K>, t: Tree<K, V>, p: Path<K, V>, key: K, value: V)
    requires order.Total() && Ascending(order, InOrder(Whole(t, p)))
    requires t.Node? && order.compare(key, t.kv.key) == 0
    ensures var root, r := InOrder(Whole(t, p)), InOrder(Whole(t.(kv := Pair(t.kv.key, value)), p));
            && Ascending(order, r) && r == Put(order.Identity(), root, key, value)
            && |r| == |root| && Has(order.Identity(), root, key)
    ensures IsRedBlack(Whole(t, p)) ==> IsRedBlack(Whole(t.(kv := Pair(t.kv.key, value)), p))
  {
    var u := t.(kv := Pair(t.kv.key, value));
    assert IsRedBlack(u) == IsRedBlack(t) && Blacks(u) == Blacks(t);
    WholeIsRedBlack(t, p);
    WholeIsRedBlack(u, p);
    hide *;
    WholeAround(t, p);
    WholeAround(u, p);
    var a, b := Before(p) + InOrder(t.left), InOrder(t.right) + After(p);
    FoundBetween(order, a, t.kv, b, key);
    EntryReplaced(order, a, t.kv, b, key, value);
  }

  lemma AddedKeeps<K(!new), V>(order: Order<K>, p: Path<K, V>, key: K, value: V)
    requires order.Total() && Ascending(order, InOrder(Whole(Empty, p))) && Around(order, p, key)
    ensures var c: Tree<K, V> := Node(Red, Empty, Pair(key, value), Empty);
            var root, r := InOrder(Whole(Empty, p)), InOrder(Repaired(c, p));
            && Ascending(order, r) && SameEntries(r, Put(order.Identity(), root, key, value))
            && |r| == |root| + 1 && !Has(order.Identity(), root, key)
            && (IsRedBlack(Whole(Empty, p)) ==> IsRedBlack(Repaired(c, p)))
  {
    var c: Tree<K, V> := Node(Red, Empty, Pair(key, value), Empty);
    assert InOrder(c) == [Pair(key, value)];
    assert IsRedBlack(Whole(Empty, p)) ==> Hung(c, p) by {
      WholeIsRedBlack(Empty, p);
    }
    assert AllBelow(order, Before(p), key) && AllAbove(order, After(p), key);
    if Hung(c, p) {
      RepairedIsRedBlack(c, p);
    }
    RepairedInOrder(c, p);
    WholeInOrder(c, p);
    hide *;
    AroundLeaf(p);
    Absent(order, Before(p), After(p), key);
    EntryAdded(order, Before(p), After(p), key, value);
  }

  lemma DescentStarts<K(!new), V>(order: Order<K>, root: Tree<K, V>, key: K)
    ensures Around(order, Path<K, V>.Top, key) && Whole(root, Path<K, V>.Top) == root
  {
  }

  lemma FoundIsHeld<K(!new), V>(keys: Keys<K>, m: seq<Pair<K, V>>, key: K)
    ensures Has(keys, m, key) <==> IndexOf(keys, m, key) >= 0
  {
  }

  lemma Middle<T>(a: seq<T>, x: T, b: seq<T>)
    ensures (a + [x] + b)[|a|] == x
  {
  }

  lemma Flat<T>(a: seq<T>, b: seq<T>, c: seq<T>)
    ensures a + b + c == a + (b + c)
  {
  }

  /** What the descent ends at is what a linear scan of the entries finds. */
  lemma FoundEntry<K(!new), V>(order: Order<K>, root: Tree<K, V>, key: K)
    requires order.Total() && Ascending(order, InOrder(root))
    ensures var t, m := Descended(order, root, Top, key).0, InOrder(root);
            var i := IndexOf(order.Identity(), m, key);
            (i >= 0 <==> t.Node?) && (i >= 0 ==> m[i] == t.kv)
  {
    var (t, p) := Descended(order, root, Top, key);
    DescentStarts(order, root, key);
    DescentFinds(order, root, Top, key);
    assert AllBelow(order, Before(p), key) && AllAbove(order, After(p), key);
    hide *;
    FoundIsHeld(order.Identity(), InOrder(root), key);
    if t.Node? {
      WholeAround(t, p);
      var a, b := Before(p) + InOrder(t.left), InOrder(t.right) + After(p);
      FoundBetween(order, a, t.kv, b, key);
      Middle(a, t.kv, b);
    } else {
      AroundLeaf(p);
      Absent(order, Before(p), After(p), key);
    }
  }

  lemma RemovedKeeps<K(!new), V>(order: Order<K>, root: Tree<K, V>, key: K)
    requires order.Total() && Ascending(order, InOrder(root))
    requires Descended(order, root, Top, key).0.Node?
    ensures var (t, p) := Descended(order, root, Top, key);
            var m := Before(p) + InOrder(t.left) + InOrder(t.right) + After(p);
            && Whole(t, p) == root && Ascending(order, m) && m == Del(order.Identity(), InOrder(root), key)
            && Has(order.Identity(), InOrder(root), key) && |m| == |InOrder(root)| - 1
  {
    var (t, p) := Descended(order, root, Top, key);
    DescentStarts(order, root, key);
    DescentFinds(order, root, Top, key);
    hide *;
    WholeAround(t, p);
    var a, b := Before(p) + InOrder(t.left), InOrder(t.right) + After(p);
    EntryRemoved(order, a, t.kv, b, key);
    FoundBetween(order, a, t.kv, b, key);
    Flat(a, InOrder(t.right), After(p));
    FoundIsHeld(order.Identity(), InOrder(root), key);
  }

  /** One more operation, on the entries and in the history. */
  lemma Recorded<K(!new), V>(order: Order<K>, m: seq<Pair<K, V>>, history: seq<Op<K, V>>, op: Op<K, V>)
    requires order.Total() && Ascending(order, m) && SameEntries(m, Run(order.Identity(), history))
    ensures SameEntries(Apply(order.Identity(), m, op), Run(order.Identity(), history + [op]))
  {
    hide Run, Apply, Order.Total;
    order.IdentityIsLawful();
    AscendingIsDistinct(order, m);
    RunIsChronicled(order.Identity(), history);
    RunExtends(order.Identity(), history, op);
    ApplyRespectsEntries(order.Identity(), m, Run(order.Identity(), history), op);
  }

  /** Inserting the next of several pairs with different keys. */
  lemma InsertedNext<K(!new), V>(order: Order<K>, root: Tree<K, V>, values: seq<Pair<K, V>>, i: nat)
    requires order.Total() && Ascending(order, InOrder(root)) && Distinct(order.Identity(), values)
    requires i < |values| && SameEntries(InOrder(root), values[..i])
    ensures |InOrder(root)| == i && !Has(order.Identity(), InOrder(root), values[i].key)
    ensures var u := Inserted(order, root, values[i].key, values[i].value);
            SameEntries(InOrder(u), values[..i + 1]) && (IsRedBlack(root) ==> IsRedBlack(u))
  {
    order.IdentityIsLawful();
    AscendingIsDistinct(order, InOrder(root));
    hide Order.Total, Order.Identity, InOrder, Ascending, Distinct, Inserted, IsRedBlack, Put, Has;
    NextPair(order.Identity(), InOrder(root), values, i);
    InsertedKeeps(order, root, values[i].key, values[i].value);
  }

  class StrictTreeMap<K(!new), V> {
    const order: Order<K>
    /** Reaching this many entries is a fatal error. */
    const maxPairs: nat

    var root: Tree<K, V>
    var nNumOfElements: nat

    /** The operations performed so far through the public interface. */
    ghost var history: seq<Op<K, V>>
    /** Whether every assertion passed so far was true. */
    ghost var sound: bool

    /**
     In every reachable state the entries are those that the whole history describes, in ascending order, and
     the tree is red-black for as long as the source's assertions have held.
     */
    ghost predicate Reachable()
      reads this
    {
      && Valid()
      && SameEntries(Contents(), Run(order.Identity(), history))
      && (sound ==> IsRedBlack(root))
    }

    ghost predicate Valid()
      reads this
    {
      order.Total() && 2 <= maxPairs && Ascending(order, Contents()) && nNumOfElements == |Contents()|
    }

    ghost function Contents(): seq<Pair<K, V>>
      reads this
    {
      InOrder(root)
    }

    /** While the assertions hold, a lookup takes about twice the logarithm of the number of entries. */
    lemma SoundIsShallow()
      requires Reachable() && sound
      ensures IsRedBlack(root)
      ensures Depth(root) <= 2 * Blacks(root) + 1 && Pow2(Blacks(root)) <= |Contents()| + 1
    {
      DepthIsLogarithmic(root, Blacks(root));
      hide Depth, Blacks, Pow2, RedBlack, InOrder;
    }

    constructor (order: Order<K>, maxPairs: nat)
      requires order.Total() && 2 <= maxPairs
      ensures Reachable() && Contents() == [] && history == [] && sound
      ensures this.order == order && this.maxPairs == maxPairs && root == Empty
    {
      this.order, this.maxPairs := order, maxPairs;
      root, nNumOfElements := Empty, 0;
      history, sound := [], true;
    }

    // ----- Public interface -----

    /** `$map[$key] = $value` */
    method OffsetSet(key: K, value: V) returns (ok: bool)
      requires Reachable()
      modifies this
      ensures !ok <==> !Has(order.Identity(), old(Contents()), key) &&
                       0 < |old(Contents())| && maxPairs <= |old(Contents())| + 1
      ensures ok ==> Reachable() && history == old(history) + [Op.Insert(key, value)] && sound == old(sound)
      ensures ok ==> SameEntries(Contents(), Put(order.Identity(), old(Contents()), key, value))
      ensures ok ==> root == Inserted(order, old(root), key, value)
    {
      hide InOrder, Ascending, IsRedBlack, Run, Has, Put, Inserted, Order.Total;
      InsertedKeeps(order, root, key, value);
      ghost var op: Op<K, V> := Op.Insert(key, value);
      Recorded(order, Contents(), history, op);
      var outcome := Insert(key, value);
      ok := outcome != CapacityExceeded;
      history := history + [op];
    }

    /** `unset($map[$key])`; an absent key is ignored. */
    method OffsetUnset(key: K)
      requires Reachable()
      modifies this
      ensures Reachable() && history == old(history) + [Op<K, V>.Remove(key)]
      ensures Contents() == Del(order.Identity(), old(Contents()), key)
      ensures var node := old(Descended(order, root, Top, key).0);
              old(IsRedBlack(root)) ==>
                && (if NextIsMisjudged(node) then BalanceOf(root) < 0 else IsRedBlack(root))
                && (sound <==> old(sound) && !NextHasChild(node))
    {
      hide InOrder, Ascending, IsRedBlack, Run, Del, Order.Total, Descended, Leftmost, BalanceOf;
      Recorded(order, Contents(), history, Op<K, V>.Remove(key));
      var _, held := RemoveKey(key);
      history, sound := history + [Op<K, V>.Remove(key)], sound && held;
    }

    method ClearAll()
      requires Reachable()
      modifies this
      ensures Reachable() && history == old(history) + [Op<K, V>.Clear] && Contents() == [] && sound == old(sound)
    {
      RunExtends(order.Identity(), history, Op<K, V>.Clear);
      root, nNumOfElements := Empty, 0;
      history := history + [Op<K, V>.Clear];
    }

    /** Looks a key up; `None` is the missing-key exception. */
    method Get(key: K) returns (value: Option<V>)
      requires Valid()
      ensures value == var i := IndexOf(order.Identity(), Contents(), key);
                       if i >= 0 then Some(Contents()[i].value) else None
    {
      var t, p, _ := FindKey(key);
      FoundEntry(order, root, key);
      value := if t.Node? then Some(t.kv.value) else None;
    }

    /**
     Fills the empty map from an array, whose keys differ: the ascending entries at its start are built into a
     tree at once and the others are inserted one by one.
     */
    method InitFromArray(values: seq<Pair<K, V>>) returns (ok: bool)
      requires Reachable() && history == [] && root == Empty && Distinct(order.Identity(), values)
      modifies this
      ensures !ok ==> maxPairs <= |values|
      ensures ok ==> Reachable() && IsRedBlack(root) && sound == old(sound) && history == Inserts(values)
      ensures ok ==> SameEntries(Contents(), values)
    {
      var n := AscendingPrefix(values);
      var depth := 1;
      if n > 0 {
        depth := LeafDepth(n);
        BuiltIsRedBlack(values[..n], depth);
        OneBlackHeight(Built(values[..n], depth), depth);
      }
      BuiltInOrder(values[..n], depth);
      order.IdentityIsLawful();
      RunOfInserts(order.Identity(), values);
      assert n == 0 ==> Built(values[..n], depth) == Empty;
      hide RedBlack, Built, InOrder, Blacks, Order.Total, Run, Inserts, Ascending, Distinct;
      root, nNumOfElements := Built(values[..n], depth), n;
      ok := InsertRest(values, n);
    }

    /** The length of the longest start of the array that ascends. */
    method AscendingPrefix(values: seq<Pair<K, V>>) returns (n: nat)
      requires order.Total()
      ensures n <= |values| && Ascending(order, values[..n])
    {
      n := 0;
      while n < |values| && (n == 0 || order.compare(values[n].key, values[n - 1].key) > 0)
        invariant n <= |values| && Ascending(order, values[..n])
      {
        AscendingExtends(order, values, n);
        n := n + 1;
      }
    }

    method InsertRest(values: seq<Pair<K, V>>, n: nat) returns (ok: bool)
      requires Valid() && IsRedBlack(root) && n <= |values| && Contents() == values[..n]
      requires Distinct(order.Identity(), values)
      modifies this
      ensures !ok ==> maxPairs <= |values|
      ensures ok ==> Valid() && IsRedBlack(root) && SameEntries(Contents(), values)
      ensures ok ==> sound == old(sound) && history == Inserts(values)
    {
      var i := n;
      while i < |values|
        invariant n <= i <= |values| && Valid() && IsRedBlack(root) && sound == old(sound)
        invariant SameEntries(Contents(), values[..i])
      {
        InsertedNext(order, root, values, i);
        hide *;
        var outcome := Insert(values[i].key, values[i].value);
        if outcome == CapacityExceeded {
          return false;
        }
        i := i + 1;
      }
      history := Inserts(values);
      ok := true;
    }

    /** The debugging check. */
    method DebugIsBalanced() returns (balanced: bool)
      ensures balanced <==> BalanceOf(root) >= 0
      ensures balanced <==> exists n :: EqualBlacks(root, n)
    {
      var result := BalanceOf(root);
      if result >= 0 {
        BalanceIsExact(root, result);
      }
      forall n ensures EqualBlacks(root, n) ==> result == n {
        BalanceIsExact(root, n);
      }
      return result >= 0;
    }

    // ----- The tree -----

    /** Three-way descent; each comparison goes one level down. */
    method FindKey(key: K) returns (t: Tree<K, V>, p: Path<K, V>, ghost comparisons: nat)
      ensures (t, p) == Descended(order, root, Top, key)
      ensures comparisons <= Depth(root)
    {
      t, p, comparisons := root, Top, 0;
      while t.Node?
        invariant Descended(order, t, p, key) == Descended(order, root, Top, key)
        invariant comparisons + Depth(t) <= Depth(root)
        decreases t
      {
        comparisons := comparisons + 1;
        var c := order.compare(key, t.kv.key);
        if c > 0 {
          t, p := t.right, Step(Right, t.color, t.kv, t.left, p);
        } else if c < 0 {
          t, p := t.left, Step(Left, t.color, t.kv, t.right, p);
        } else {
          return;
        }
      }
    }

    /** Adds or overwrites. At the limit the process ends before the new node is balanced. */
    method Insert(key: K, value: V) returns (outcome: InsertOutcome)
      requires Valid()
      modifies this`root, this`nNumOfElements
      ensures outcome == Updated <==> Has(order.Identity(), old(Contents()), key)
      ensures outcome == CapacityExceeded <==> !Has(order.Identity(), old(Contents()), key) &&
                                               0 < |old(Contents())| && maxPairs <= |old(Contents())| + 1
      ensures outcome != CapacityExceeded ==> Valid() && root == Inserted(order, old(root), key, value)
    {
      InsertedKeeps(order, root, key, value);
      hide Ascending, IsRedBlack, Order.Total, Descended, Before, After, Depth, Has, Put, SameEntries;
      var t, p, _ := FindKey(key);
      if t.Node? {
        root := Whole(t.(kv := Pair(t.kv.key, value)), p);
        return Updated;
      }
      var node := Node(Red, Empty, Pair(key, value), Empty);
      nNumOfElements := nNumOfElements + 1;
      if p.Top? {
        root := node;
        return Added;
      }
      if nNumOfElements >= maxPairs {
        root := Whole(node, p);
        return CapacityExceeded;
      }
      root := RebalanceAfterInsert(node, p);
      return Added;
    }

    method RemoveKey(key: K) returns (removed: bool, held: bool)
      requires Valid()
      modifies this`root, this`nNumOfElements
      ensures Valid() && removed == Has(order.Identity(), old(Contents()), key)
      ensures Contents() == Del(order.Identity(), old(Contents()), key)
      ensures var node := old(Descended(order, root, Top, key).0);
              old(IsRedBlack(root)) ==>
                && (held <==> !NextHasChild(node))
                && (if NextIsMisjudged(node) then BalanceOf(root) < 0 else IsRedBlack(root))
    {
      hide InOrder, Ascending, IsRedBlack, Order.Total, Descended, Leftmost, BalanceOf, Before, After, Whole, Depth;
      FoundEntry(order, root, key);
      var t, p, _ := FindKey(key);
      if t.Empty? {
        return false, true;
      }
      RemovedKeeps(order, root, key);
      root, held := RemoveNode(t, p);
      nNumOfElements := nNumOfElements - 1;
      removed := true;
    }
  }
}
