/**
 The two loops that climb from a changed node and restore the colours, and the removal of one node. `held`
 says whether every assertion in the source that the run passes is true; a false one is passed over.
 */
module RedBlackRebalance {
  import opened Wrappers
  import opened AssocList
  import opened RedBlackTrees

  // ----- Insertion -----

  /** A red node in place of a leaf or of a black grandparent: at worst it stands under a red parent. */
  ghost predicate Hung<K, V>(t: Tree<K, V>, p: Path<K, V>) {
    t.IsRed() && IsRedBlack(t) && Fits(p, Blacks(t))
  }

  /** The tree after the node `t`, hung at `p`, has been repaired upwards. */
  function Repaired<K, V>(t: Tree<K, V>, p: Path<K, V>): Tree<K, V>
    requires t.Node?
    decreases p
  {
    if p.Top? || p.color.Black? then Whole(t, p)
    else if p.above.Top? then Whole(t, p.(color := Black))
    else if p.above.sibling.IsRed() then Repaired(BlackBelowGrandparent(t, p), p.above.above)
    else Whole(RotatedGrandparent(t, p), p.above.above)
  }

  lemma {:induction false} RepairedInOrder<K, V>(t: Tree<K, V>, p: Path<K, V>)
    requires t.Node?
    ensures InOrder(Repaired(t, p)) == InOrder(Whole(t, p))
    decreases p
  {
    hide InOrder, RotatedGrandparent, BlackBelowGrandparent;
    if p.Step? && p.color.Red? {
      var g := p.above;
      if g.Top? {
        RootTurnsBlack(t, p);
      } else if g.sibling.IsRed() {
        BlackBelowGrandparentFits(t, p);
        SameWholeOrder(BlackBelowGrandparent(t, p), Parent(Parent(t, p), g), g.above);
        RepairedInOrder(BlackBelowGrandparent(t, p), g.above);
      } else {
        RotatedGrandparentInOrder(t, p);
        SameWholeOrder(RotatedGrandparent(t, p), Parent(Parent(t, p), g), g.above);
      }
    }
  }

  /** A red node that stands at worst under a red parent: the repair makes a red-black tree of it. */
  lemma {:induction false} RepairedIsRedBlack<K, V>(t: Tree<K, V>, p: Path<K, V>)
    requires Hung(t, p)
    ensures IsRedBlack(Repaired(t, p))
    decreases p
  {
    hide RedBlack, Blacks, RotatedGrandparent, BlackBelowGrandparent;
    if p.Top? || p.color.Black? {
      WholeIsRedBlack(t, p);
    } else if p.above.Top? {
      RootTurnsBlack(t, p);
    } else if p.above.sibling.IsRed() {
      BlackBelowGrandparentFits(t, p);
      RepairedIsRedBlack(BlackBelowGrandparent(t, p), p.above.above);
    } else {
      RotatedGrandparentFits(t, p);
      WholeIsRedBlack(RotatedGrandparent(t, p), p.above.above);
    }
  }

  method RebalanceAfterInsert<K, V>(t: Tree<K, V>, p: Path<K, V>) returns (root: Tree<K, V>)
    requires t.Node?
    ensures root == Repaired(t, p)
  {
    var node, path := t, p;
    while true
      invariant node.Node? && Repaired(node, path) == Repaired(t, p)
      decreases path
    {
      if path.Top? || path.color.Black? {
        return Whole(node, path);
      }
      var g := path.above;
      if g.Top? {
        return Whole(node, path.(color := Black));
      }
      if g.sibling.IsRed() {
        node, path := BlackBelowGrandparent(node, path), g.above;
        continue;
      }
      return Whole(RotatedGrandparent(node, path), g.above);
    }
  }

  /** A red root turns black over a red child. */
  lemma RootTurnsBlack<K, V>(t: Tree<K, V>, p: Path<K, V>)
    requires p.Step? && p.above.Top?
    ensures InOrder(Whole(t, p.(color := Black))) == InOrder(Whole(t, p))
    ensures Hung(t, p) ==> IsRedBlack(Whole(t, p.(color := Black)))
  {
    WholeInOrder(t, p);
    WholeInOrder(t, p.(color := Black));
    WholeIsRedBlack(t, p.(color := Black));
  }

  // ----- Removal -----

  /** The side of `t` that a null node is taken to be on. */
  function EmptySide<K, V>(t: Tree<K, V>): Dir
    requires t.Node?
  {
    if t.right.Empty? then Right else Left
  }

  /** The short side is the right one, where a red leaf hangs, so that the left one is taken for it. */
  ghost predicate Misjudged<K, V>(t: Tree<K, V>) {
    t.Node? && t.right.IsRed() && RedBlack(t.right, 0) && RedBlack(t.left, 1)
  }

  /** What a misjudged black node becomes after one rotation. */
  ghost predicate Lopsided<K, V>(t: Tree<K, V>, p: Path<K, V>) {
    && t.IsRed() && t.right.Empty? && RedBlack(t.left, 1)
    && p.Step? && p.dir.Left? && p.color.Black? && p.sibling.Empty?
  }

  lemma MisjudgedTurnsLopsided<K, V>(t: Tree<K, V>, above: Path<K, V>)
    requires Misjudged(t)
    ensures EmptySide(t) == Left && t.left.Node? && t.right.IsRed()
    ensures t.right.left.Empty? && t.right.right.Empty?
    ensures var u := RedSiblingUp(t, Left);
            && u.Node? && u.Child(Left).Node?
            && Lopsided(u.Child(Left), Step(Left, Black, u.kv, u.Child(Right), above))
    ensures t.IsRed() ==> BalanceOf(Whole(t, above)) < 0
  {
    assert RedBlack(t.right.left, 0) && RedBlack(t.right.right, 0);
    RedBlackIsBalanced(t.right, 0);
    RedBlackIsBalanced(t.left, 1);
    UnbalancedBelow(t, above);
  }

  lemma LopsidedLooksRight<K, V>(t: Tree<K, V>, p: Path<K, V>)
    requires Lopsided(t, p)
    ensures t.IsRed() && EmptySide(t) == Right && t.left.Node?
  {
  }

  /** Whatever the next step makes of it, black nodes are left on one side only. */
  lemma LopsidedStays<K, V>(t: Tree<K, V>, p: Path<K, V>, u: Tree<K, V>)
    requires Lopsided(t, p) && u.Node? && (u.IsBlackNode() || u.left.IsBlackNode() || u == t)
    ensures BalanceOf(Whole(u, p)) < 0
  {
    RedBlackIsBalanced(t.left, 1);
    assert u.left.IsBlackNode() || u == t ==> BalanceOf(u.left) != 0;
    assert BalanceOf(u) != 0;
    UnbalancedBelow(Parent(u, p), p.above);
  }

  /** The side of `p` on which the short subtree is taken to be: a null one is looked for. */
  function SideOf<K, V>(n: Option<Dir>, p: Tree<K, V>): Dir
    requires p.Node?
  {
    if n.Some? then n.value else EmptySide(p)
  }

  /** The sibling is black and the parent or a nephew is red: one more step ends the repair. */
  predicate CanSettle<K, V>(t: Tree<K, V>, dir: Dir)
    requires t.Node?
  {
    var s := t.Child(Opposite(dir));
    s.IsBlackNode() && (t.IsRed() || s.left.IsRed() || s.right.IsRed())
  }

  /** That step: the far nephew's case first, then the near nephew's, then the parent's. */
  function Settled<K, V>(t: Tree<K, V>, dir: Dir): Tree<K, V>
    requires t.Node? && CanSettle(t, dir)
  {
    var s := t.Child(Opposite(dir));
    if s.Child(Opposite(dir)).IsRed() then SiblingUp(t, dir)
    else if s.Child(dir).IsRed() then SiblingUp(NearNephewUp(t, dir), dir)
    else RedSibling(t, dir, Black)
  }

  lemma SettledInOrder<K, V>(t: Tree<K, V>, dir: Dir)
    requires t.Node? && CanSettle(t, dir)
    ensures InOrder(Settled(t, dir)) == InOrder(t)
  {
    var s := t.Child(Opposite(dir));
    RemovalStepsInOrder(t, dir);
    if !s.Child(Opposite(dir)).IsRed() && s.Child(dir).IsRed() {
      RemovalStepsInOrder(NearNephewUp(t, dir), dir);
    }
    hide SiblingUp, NearNephewUp, RedSibling, InOrder;
  }

  lemma SettledEnds<K, V>(t: Tree<K, V>, dir: Dir, path: Path<K, V>)
    requires t.Node? && CanSettle(t, dir)
    ensures InOrder(Whole(Settled(t, dir), path)) == InOrder(Whole(t, path))
    ensures Short(t, dir, path) ==> IsRedBlack(Whole(Settled(t, dir), path))
    ensures Lopsided(t, path) ==> BalanceOf(Whole(Settled(t, dir), path)) < 0
  {
    hide SiblingUp, NearNephewUp, RedSibling, InOrder, Short, Lopsided, RedBlack, IsRedBlack, BalanceOf, Whole;
    SettledInOrder(t, dir);
    SameWholeOrder(Settled(t, dir), t, path);
    var s := t.Child(Opposite(dir));
    if Lopsided(t, path) {
      LopsidedStays(t, path, Settled(t, dir));
    }
    if Short(t, dir, path) {
      if s.Child(Opposite(dir)).IsRed() {
        SiblingUpEnds(t, dir, path);
      } else if s.Child(dir).IsRed() {
        NearNephewUpPrepares(t, dir, path);
        SiblingUpEnds(NearNephewUp(t, dir), dir, path);
      } else {
        SwapColorsEnds(t, dir, path);
      }
    }
  }

  /** Starts at `t`, the parent of a null node, below which every way down misses a black node. */
  method RebalanceAfterRemoval<K, V>(t: Tree<K, V>, above: Path<K, V>) returns (root: Tree<K, V>, held: bool)
    requires t.Node?
    ensures InOrder(root) == InOrder(Whole(t, above))
    ensures Short(t, EmptySide(t), above) ==>
              IsRedBlack(root) && (held <==> t.right.Empty? || t.left.Empty?)
    ensures Misjudged(t) ==> BalanceOf(root) < 0 && !held
  {
    hide RedBlack, IsRedBlack, BalanceOf, InOrder, Blacks, Whole, Misjudged, Lopsided, Short, Fits, Settled;
    hide Rotated, SiblingUp, NearNephewUp, RedSibling, RedSiblingUp, Recolored, WithChild;
    ghost var short, empty := Short(t, EmptySide(t), above), t.right.Empty? || t.left.Empty?;
    var p, path, n := t, above, Option<Dir>.None;
    held := true;
    while true
      invariant p.Node? && InOrder(Whole(p, path)) == InOrder(Whole(t, above))
      invariant short ==> Short(p, SideOf(n, p), path)
      invariant short && n.None? && empty ==> p.Child(SideOf(n, p)).Empty?
      invariant short ==> (held <==> empty) || (p == t && path == above && n.None? && held)
      invariant Misjudged(t) ==> n.None? && ((p == t && path == above) || (Lopsided(p, path) && !held))
      decreases if p.IsRed() then 0 else Length(path) + 1
    {
      var dir := SideOf(n, p);
      var far := Opposite(dir);
      if short {
        ShortHasSibling(p, dir, path);
      }
      if Misjudged(t) && p == t && path == above {
        MisjudgedTurnsLopsided(p, path);
      }
      if Lopsided(p, path) {
        LopsidedLooksRight(p, path);
      }
      if n.None? && dir.Right? && p.left.Empty? {
        return Whole(p, path), held;
      }
      held := held && !(n.None? && dir.Left? && p.left.Node?);
      var s := p.Child(far);
      if s.Empty? {
        return Whole(p, path), false;
      }
      if CanSettle(p, dir) {
        SettledEnds(p, dir, path);
        return Whole(Settled(p, dir), path), held;
      }
      RemovalStepsInOrder(p, dir);
      if s.IsBlackNode() {
        var u := RedSibling(p, dir, Black);
        SameWholeOrder(u, p, path);
        if short {
          RedSiblingLevels(p, dir, path);
        }
        if path.Top? {
          WholeAtTop(u, path);
          return u, held;
        }
        if short {
          RedSiblingMovesShortage(p, dir, path);
        }
        WholeAbove(u, path);
        n, p, path := Some(path.dir), Parent(u, path), path.above;
      } else {
        if short {
          RedSiblingUpPrepares(p, dir, path);
        }
        if p.IsRed() || s.Child(dir).IsRed() || s.Child(far).IsRed() {
          if Lopsided(p, path) {
            LopsidedStays(p, path, p);
          }
          return Whole(p, path), false;
        }
        held := held && s.Child(dir).Node?;
        var u := RedSiblingUp(p, dir);
        SameWholeOrder(u, p, path);
        WholeBelow(u, dir, path);
        p, path := u.Child(dir), Step(dir, Black, u.kv, u.Child(far), path);
      }
    }
  }

  // ----- Removal of one node -----

  function Leftmost<K, V>(t: Tree<K, V>): (m: Tree<K, V>)
    requires t.Node?
    ensures m.Node? && m.left.Empty?
  {
    if t.left.Empty? then t else Leftmost(t.left)
  }

  /** Two children, and the next node in order has a child: the source takes that node for a childless one. */
  predicate NextHasChild<K, V>(t: Tree<K, V>) {
    t.Node? && t.left.Node? && t.right.Node? && Leftmost(t.right).right.Node?
  }

  /** The next node is the right child itself: the short side is then taken to be the left one. */
  predicate NextIsMisjudged<K, V>(t: Tree<K, V>) {
    NextHasChild(t) && t.right.left.Empty?
  }

  /** The path `p` continued by `q` above it. */
  function Continued<K, V>(p: Path<K, V>, q: Path<K, V>): Path<K, V> {
    if p.Top? then q else p.(above := Continued(p.above, q))
  }

  lemma {:induction false} WholeContinued<K, V>(t: Tree<K, V>, p: Path<K, V>, q: Path<K, V>)
    ensures Whole(t, Continued(p, q)) == Whole(Whole(t, p), q)
    decreases p
  {
    if p.Step? {
      WholeContinued(Parent(t, p), p.above, q);
    }
  }

  /** The entry at a node above does not matter to colours and heights. */
  lemma {:induction false} FitsWithOtherEntry<K, V>(p: Path<K, V>, q: Path<K, V>, kv: Pair<K, V>, n: nat)
    requires q.Step?
    ensures Fits(Continued(p, q), n) <==> Fits(Continued(p, q.(kv := kv)), n)
    ensures RedAbove(Continued(p, q)) <==> RedAbove(Continued(p, q.(kv := kv)))
    decreases p
  {
    if p.Step? {
      FitsWithOtherEntry(p.above, q, kv, if p.color.Black? then n + 1 else n);
    }
  }

  /** Walks left from `t`: the leftmost node and the path to it. */
  method FindLeftmost<K, V>(t: Tree<K, V>) returns (m: Tree<K, V>, p: Path<K, V>)
    requires t.Node?
    ensures m == Leftmost(t) && Whole(m, p) == t && Before(p) == []
    ensures p.Top? <==> t.left.Empty?
    ensures p.Step? ==> p.dir.Left?
  {
    m, p := t, Top;
    while m.left.Node?
      invariant m.Node? && Leftmost(m) == Leftmost(t) && Whole(m, p) == t && Before(p) == []
      invariant if p.Top? then m == t else t.left.Node? && p.dir.Left?
      decreases m
    {
      m, p := m.left, Step(Left, m.color, m.kv, m.right, p);
    }
  }

  /** Takes the node `t` at `p` out of its tree. */
  method RemoveNode<K, V>(t: Tree<K, V>, p: Path<K, V>) returns (root: Tree<K, V>, held: bool)
    requires t.Node?
    ensures InOrder(root) == Before(p) + InOrder(t.left) + InOrder(t.right) + After(p)
    ensures IsRedBlack(Whole(t, p)) ==> (held <==> !NextHasChild(t))
    ensures IsRedBlack(Whole(t, p)) ==> if NextIsMisjudged(t) then BalanceOf(root) < 0 else IsRedBlack(root)
  {
    if t.left.Empty? || t.right.Empty? {
      root, held := RemoveWithOneChild(t, p);
    } else {
      root, held := ReplaceByNext(t, p);
    }
  }

  method RemoveWithOneChild<K, V>(t: Tree<K, V>, p: Path<K, V>) returns (root: Tree<K, V>, held: bool)
    requires t.Node? && (t.left.Empty? || t.right.Empty?)
    ensures InOrder(root) == Before(p) + InOrder(t.left) + InOrder(t.right) + After(p)
    ensures IsRedBlack(Whole(t, p)) ==> held && IsRedBlack(root)
  {
    var child := if t.left.Empty? then t.right else t.left;
    OneChildInOrder(t, p, child);
    if IsRedBlack(Whole(t, p)) {
      OneChildFits(t, p, child);
    }
    if p.Top? {
      WholeAtTop(child, p);
    } else {
      WholeAbove(child, p);
    }
    hide *;
    assert child.Empty? && p.Top? ==> IsRedBlack(child);
    if child.Node? {
      held := t.IsBlackNode() && child.IsRed();
      root := Whole(child.(color := Black), p);
    } else if t.IsBlackNode() && p.Step? {
      root, held := RebalanceAfterRemoval(Parent(child, p), p.above);
    } else {
      root, held := Whole(child, p), true;
    }
  }

  lemma OneChildInOrder<K, V>(t: Tree<K, V>, p: Path<K, V>, child: Tree<K, V>)
    requires t.Node? && ((t.left.Empty? && child == t.right) || (t.right.Empty? && child == t.left))
    ensures child.Node? ==>
              InOrder(Whole(child.(color := Black), p)) == Before(p) + InOrder(t.left) + InOrder(t.right) + After(p)
    ensures InOrder(Whole(child, p)) == Before(p) + InOrder(t.left) + InOrder(t.right) + After(p)
  {
    assert InOrder(t.left) + InOrder(t.right) == InOrder(child);
    if child.Node? {
      assert InOrder(child.(color := Black)) == InOrder(child);
      SameWholeOrder(child.(color := Black), child, p);
    }
    WholeInOrder(child, p);
    hide *;
  }

  lemma OnlyChildIsRedLeaf<K, V>(t: Tree<K, V>, child: Tree<K, V>)
    requires t.Node? && ((t.left.Empty? && child == t.right) || (t.right.Empty? && child == t.left))
    requires IsRedBlack(t)
    ensures Blacks(t) == if t.IsRed() then 0 else 1
    ensures RedBlack(child, 0) && (child.Node? ==> child.IsRed() && t.IsBlackNode())
  {
    var n := Blacks(t);
    assert if t.IsRed() then RedBlack(t.left, n) && RedBlack(t.right, n)
           else RedBlack(t.left, n - 1) && RedBlack(t.right, n - 1);
  }

  /** An only child is a red leaf below a black node. */
  lemma OneChildFits<K, V>(t: Tree<K, V>, p: Path<K, V>, child: Tree<K, V>)
    requires t.Node? && ((t.left.Empty? && child == t.right) || (t.right.Empty? && child == t.left))
    requires IsRedBlack(Whole(t, p))
    ensures child.Node? ==> t.IsBlackNode() && child.IsRed() && IsRedBlack(Whole(child.(color := Black), p))
    ensures child.Empty? && t.IsRed() ==> IsRedBlack(Whole(child, p))
    ensures child.Empty? && t.IsBlackNode() && p.Step? ==>
              var u := Parent(child, p);
              u.Node? && Short(u, EmptySide(u), p.above) && (u.right.Empty? || u.left.Empty?)
  {
    WholeIsRedBlack(t, p);
    OnlyChildIsRedLeaf(t, child);
    if child.Node? {
      PaintedBlack(child, 0);
      OneBlackHeight(child.(color := Black), 1);
      WholeIsRedBlack(child.(color := Black), p);
    } else if t.IsRed() {
      assert IsRedBlack(child) && Blacks(child) == 0;
      WholeIsRedBlack(child, p);
    } else if p.Step? {
      LeafIsShort(p);
    }
    hide *;
  }

  lemma LeafIsShort<K, V>(p: Path<K, V>)
    requires p.Step? && Fits(p, 1)
    ensures var u := Parent(Empty, p);
            u.Node? && Short(u, p.dir, p.above) && EmptySide(u) == p.dir && u.Child(p.dir).Empty?
  {
  }

  lemma FirstEntry<K, V>(m: Tree<K, V>)
    requires m.Node? && m.left.Empty?
    ensures InOrder(m) == [m.kv] + InOrder(m.right)
  {
  }

  /** Taking out the leftmost node drops the first entry. */
  lemma FirstEntryDropped<K, V>(m: Tree<K, V>, down: Path<K, V>)
    requires m.Node? && m.left.Empty? && Before(down) == []
    ensures InOrder(Whole(m, down)) == [m.kv] + InOrder(Whole(m.right, down))
  {
    hide *;
    WholeInOrder(m, down);
    WholeInOrder(m.right, down);
    assert InOrder(m) == [m.kv] + InOrder(m.right) by { FirstEntry(m); }
    assert [] + ([m.kv] + InOrder(m.right)) + After(down) == [m.kv] + ([] + InOrder(m.right) + After(down));
  }

  lemma Regrouped<T>(a: seq<T>, x: T, b: seq<T>, c: seq<T>)
    ensures a + [x] + b + c == a + ([x] + b) + c
  {
  }

  lemma NextInOrder<K, V>(t: Tree<K, V>, p: Path<K, V>, m: Tree<K, V>, down: Path<K, V>)
    requires t.Node? && m.Node? && m.left.Empty? && Whole(m, down) == t.right && Before(down) == []
    ensures InOrder(Whole(m.right, Continued(down, Step(Right, t.color, m.kv, t.left, p)))) ==
            Before(p) + InOrder(t.left) + InOrder(t.right) + After(p)
  {
    var q, u := Step(Right, t.color, m.kv, t.left, p), Whole(m.right, down);
    assert Before(q) == Before(p) + InOrder(t.left) + [m.kv] && After(q) == After(p);
    hide *;
    FirstEntryDropped(m, down);
    WholeContinued(m.right, down, q);
    WholeInOrder(u, q);
    Regrouped(Before(p) + InOrder(t.left), m.kv, InOrder(u), After(p));
  }

  /** In a red-black tree the next node's place is short of a black node exactly when that node was black. */
  lemma NextFits<K, V>(t: Tree<K, V>, p: Path<K, V>, m: Tree<K, V>, down: Path<K, V>)
    requires t.Node? && m.Node? && m.left.Empty? && Whole(m, down) == t.right
    requires IsRedBlack(Whole(t, p))
    ensures var full := Continued(down, Step(Right, t.color, m.kv, t.left, p));
            && RedBlack(m.right, 0) && (m.right.Node? ==> m.IsBlackNode() && m.right.IsRed())
            && Fits(full, if m.IsRed() then 0 else 1)
  {
    var q := Step(Right, t.color, t.kv, t.left, p);
    WholeContinued(m, down, q);
    WholeBelow(t, Right, p);
    WholeIsRedBlack(m, Continued(down, q));
    OnlyChildIsRedLeaf(m, m.right);
    FitsWithOtherEntry(down, q, m.kv, Blacks(m));
    hide *;
  }

  /** A childless or a deeper next node: the side is judged right. Otherwise it is misjudged. */
  lemma NextIsShort<K, V>(child: Tree<K, V>, p: Path<K, V>)
    requires p.Step? && RedBlack(child, 0) && (child.Node? ==> child.IsRed()) && Fits(p, 1)
    ensures var u := Parent(child, p);
            && u.Node?
            && (if child.Node? && p.dir.Right? then Misjudged(u) else Short(u, EmptySide(u), p.above))
            && (u.right.Empty? || u.left.Empty? <==> child.Empty?)
  {
    assert RedBlack(p.sibling, 1) && p.sibling.Node?;
    OneBlackHeight(child, 0);
  }

  /** The next node in order takes the place and the colour of `t`, which has two children. */
  method ReplaceByNext<K, V>(t: Tree<K, V>, p: Path<K, V>) returns (root: Tree<K, V>, held: bool)
    requires t.Node? && t.left.Node? && t.right.Node?
    ensures InOrder(root) == Before(p) + InOrder(t.left) + InOrder(t.right) + After(p)
    ensures IsRedBlack(Whole(t, p)) ==> (held <==> !NextHasChild(t))
    ensures IsRedBlack(Whole(t, p)) ==> if NextIsMisjudged(t) then BalanceOf(root) < 0 else IsRedBlack(root)
  {
    var m, down := FindLeftmost(t.right);
    var full := Continued(down, Step(Right, t.color, m.kv, t.left, p));
    NextInOrder(t, p, m, down);
    WholeAbove(m.right, full);
    assert NextHasChild(t) <==> m.right.Node?;
    assert full.dir.Right? <==> down.Top?;
    if IsRedBlack(Whole(t, p)) {
      NextFits(t, p, m, down);
      if m.IsRed() {
        assert IsRedBlack(m.right) && Blacks(m.right) == 0;
        WholeIsRedBlack(m.right, full);
      } else {
        NextIsShort(m.right, full);
      }
    }
    hide *;
    held := m.right.Empty? || m.right.IsRed();
    if m.IsBlackNode() {
      var rest;
      root, rest := RebalanceAfterRemoval(Parent(m.right, full), full.above);
      held := held && rest;
    } else {
      root := Whole(m.right, full);
    }
  }
}
