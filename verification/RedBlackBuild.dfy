/**
 A red-black tree built at once from entries in ascending order: black down to the last level, which is red.
 No red-black tree is deeper than about twice the logarithm of its size.
 */
module RedBlackBuild {
  import opened AssocList
  import opened Float64s
  import opened RedBlackTrees

  /** The middle entry on top, red at depth 0, and each half below it. */
  function Built<K, V>(nodes: seq<Pair<K, V>>, leafDepth: int): Tree<K, V>
    decreases |nodes|
  {
    if |nodes| == 0 then Empty
    else
      var mid := |nodes| / 2;
      Node(if leafDepth == 0 then Red else Black,
           Built(nodes[..mid], leafDepth - 1), nodes[mid], Built(nodes[mid + 1..], leafDepth - 1))
  }

  /** How many levels are full. */
  method LeafDepth(n: nat) returns (depth: nat)
    requires n >= 1
    ensures Pow2(depth) <= n + 1 < Pow2(depth + 1)
  {
    depth := 1;
    var i := n + 1;
    ghost var p := 1;
    assert Pow2(1) == 2 && Pow2(2) == 4;
    while i >= 4
      invariant i >= 2 && depth >= 1
      invariant Pow2(depth) == 2 * p && Pow2(depth + 1) == 4 * p
      invariant i * p <= n + 1 < (i + 1) * p
    {
      Halved(i, p, n + 1);
      assert Pow2(depth + 2) == 2 * Pow2(depth + 1);
      depth := depth + 1;
      i, p := i / 2, 2 * p;
    }
    assert i == 2 || i == 3;
  }

  lemma Halved(i: nat, p: nat, m: nat)
    requires i * p <= m < (i + 1) * p
    ensures (i / 2) * (2 * p) <= m < (i / 2 + 1) * (2 * p)
  {
    var h := i / 2;
    if i == 2 * h {
      assert (h + 1) * (2 * p) == i * p + 2 * p;
    } else {
      assert i == 2 * h + 1;
      assert h * (2 * p) == i * p - p;
    }
  }

  lemma BuiltStep<K, V>(nodes: seq<Pair<K, V>>, depth: int)
    requires |nodes| > 0
    ensures var mid := |nodes| / 2;
            InOrder(Built(nodes, depth)) ==
            InOrder(Built(nodes[..mid], depth - 1)) + [nodes[mid]] + InOrder(Built(nodes[mid + 1..], depth - 1))
  {
  }

  lemma SplitAt<T>(s: seq<T>, i: nat)
    requires i < |s|
    ensures s == s[..i] + [s[i]] + s[i + 1..]
  {
  }

  lemma {:induction false} BuiltInOrder<K, V>(nodes: seq<Pair<K, V>>, depth: int)
    ensures InOrder(Built(nodes, depth)) == nodes
    decreases |nodes|
  {
    if |nodes| > 0 {
      var mid := |nodes| / 2;
      BuiltStep(nodes, depth);
      hide *;
      BuiltInOrder(nodes[..mid], depth - 1);
      BuiltInOrder(nodes[mid + 1..], depth - 1);
      SplitAt(nodes, mid);
    }
  }

  lemma {:induction false} BuiltIsRedBlack<K, V>(nodes: seq<Pair<K, V>>, depth: nat)
    requires Pow2(depth) <= |nodes| + 1 <= Pow2(depth + 1)
    ensures RedBlack(Built(nodes, depth), depth)
    decreases |nodes|
  {
    if |nodes| > 0 {
      var mid := |nodes| / 2;
      if depth > 0 {
        assert Pow2(depth + 1) == 2 * Pow2(depth) && Pow2(depth) == 2 * Pow2(depth - 1);
        BuiltIsRedBlack(nodes[..mid], depth - 1);
        BuiltIsRedBlack(nodes[mid + 1..], depth - 1);
      }
    }
  }

  // ----- Depth -----

  function Depth<K, V>(t: Tree<K, V>): nat {
    if t.Empty? then 0
    else 1 + if Depth(t.left) > Depth(t.right) then Depth(t.left) else Depth(t.right)
  }

  /** A red-black tree is at most logarithmically deep: `2^n - 1` entries at least, at `2 * n + 1` levels at most. */
  lemma {:induction false} DepthIsLogarithmic<K, V>(t: Tree<K, V>, n: nat)
    requires RedBlack(t, n)
    ensures Pow2(n) <= |InOrder(t)| + 1
    ensures Depth(t) <= 2 * n + if t.IsRed() then 1 else 0
  {
    if t.Node? {
      var m := if t.IsRed() then n else n - 1;
      DepthIsLogarithmic(t.left, m);
      DepthIsLogarithmic(t.right, m);
      assert |InOrder(t)| == |InOrder(t.left)| + 1 + |InOrder(t.right)|;
      assert t.IsBlackNode() ==> Pow2(n) == 2 * Pow2(m);
    }
  }
}
