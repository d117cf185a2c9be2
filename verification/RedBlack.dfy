/**
 Red-black trees and the paths from a node up to the root, which stand for the parent pointers: rotation,
 the recolourings after an insertion and a removal, and what each does to order, colours and black heights.
 */
module RedBlackTrees {
  import opened AssocList

  datatype Color = Red | Black

  datatype Dir = Left | Right

  function Opposite(dir: Dir): Dir {
    if dir.Left? then Right else Left
  }

  datatype Tree<+K, +V> = Empty | Node(color: Color, left: Tree<K, V>, kv: Pair<K, V>, right: Tree<K, V>)
  {
    predicate IsRed() {
      Node? && color.Red?
    }

    predicate IsBlackNode() {
      Node? && color.Black?
    }

    function Child(dir: Dir): Tree<K, V>
      requires Node?
    {
      if dir.Left? then left else right
    }
  }

  /** The node with `child` on side `dir` and `sibling` on the other. */
  function Join<K, V>(dir: Dir, color: Color, child: Tree<K, V>, kv: Pair<K, V>, sibling: Tree<K, V>): Tree<K, V> {
    if dir.Left? then Node(color, child, kv, sibling) else Node(color, sibling, kv, child)
  }

  function WithChild<K, V>(t: Tree<K, V>, dir: Dir, child: Tree<K, V>): (r: Tree<K, V>)
    requires t.Node?
    ensures r.Node? && r.Child(dir) == child && r.Child(Opposite(dir)) == t.Child(Opposite(dir))
  {
    if dir.Left? then t.(left := child) else t.(right := child)
  }

  function Recolored<K, V>(t: Tree<K, V>, dir: Dir, color: Color): (r: Tree<K, V>)
    requires t.Node? && t.Child(dir).Node?
    ensures r.Node? && r.Child(dir).Node? && r.Child(Opposite(dir)) == t.Child(Opposite(dir))
    ensures r.Child(dir).color == color
  {
    WithChild(t, dir, t.Child(dir).(color := color))
  }

  /** The node above, the side of it on which we are, its other child, and what is above it. */
  datatype Path<+K, +V> =
    | Top
    | Step(dir: Dir, color: Color, kv: Pair<K, V>, sibling: Tree<K, V>, above: Path<K, V>)

  function Parent<K, V>(t: Tree<K, V>, p: Path<K, V>): Tree<K, V>
    requires p.Step?
  {
    Join(p.dir, p.color, t, p.kv, p.sibling)
  }

  /** The whole tree of which `t` hangs at `p`. */
  function Whole<K, V>(t: Tree<K, V>, p: Path<K, V>): Tree<K, V>
    decreases p
  {
    if p.Top? then t else Whole(Parent(t, p), p.above)
  }

  function Length<K, V>(p: Path<K, V>): nat {
    if p.Top? then 0 else 1 + Length(p.above)
  }

  lemma WholeAtTop<K, V>(t: Tree<K, V>, p: Path<K, V>)
    requires p.Top?
    ensures Whole(t, p) == t
  {
  }

  lemma WholeAbove<K, V>(t: Tree<K, V>, p: Path<K, V>)
    requires p.Step?
    ensures Whole(Parent(t, p), p.above) == Whole(t, p)
  {
  }

  lemma WholeBelow<K, V>(t: Tree<K, V>, dir: Dir, p: Path<K, V>)
    requires t.Node?
    ensures Whole(t.Child(dir), Step(dir, t.color, t.kv, t.Child(Opposite(dir)), p)) == Whole(t, p)
  {
  }

  // ----- Order -----

  function InOrder<K, V>(t: Tree<K, V>): seq<Pair<K, V>> {
    if t.Empty? then [] else InOrder(t.left) + [t.kv] + InOrder(t.right)
  }

  function Before<K, V>(p: Path<K, V>): seq<Pair<K, V>> {
    if p.Top? then []
    else if p.dir.Left? then Before(p.above)
    else Before(p.above) + InOrder(p.sibling) + [p.kv]
  }

  function After<K, V>(p: Path<K, V>): seq<Pair<K, V>> {
    if p.Top? then []
    else if p.dir.Left? then [p.kv] + InOrder(p.sibling) + After(p.above)
    else After(p.above)
  }

  lemma {:induction false} WholeInOrder<K, V>(t: Tree<K, V>, p: Path<K, V>)
    ensures InOrder(Whole(t, p)) == Before(p) + InOrder(t) + After(p)
    decreases p
  {
    if p.Step? {
      WholeInOrder(Parent(t, p), p.above);
      if p.dir.Left? {
        Reassociate(Before(p.above), InOrder(t), [p.kv], InOrder(p.sibling), After(p.above));
      }
    }
  }

  /** Only the order of the subtree shows in the order of the whole. */
  lemma SameWholeOrder<K, V>(t: Tree<K, V>, u: Tree<K, V>, p: Path<K, V>)
    requires InOrder(t) == InOrder(u)
    ensures InOrder(Whole(t, p)) == InOrder(Whole(u, p))
  {
    WholeInOrder(t, p);
    WholeInOrder(u, p);
  }

  // ----- Colours and black heights -----

  /** No red node has a red child, and `n` black nodes are on every way down. The root may be red. */
  ghost predicate RedBlack<K, V>(t: Tree<K, V>, n: nat) {
    match t
    case Empty => n == 0
    case Node(Red, l, _, r) => RedBlack(l, n) && RedBlack(r, n) && !l.IsRed() && !r.IsRed()
    case Node(Black, l, _, r) => n > 0 && RedBlack(l, n - 1) && RedBlack(r, n - 1)
  }

  function Blacks<K, V>(t: Tree<K, V>): nat {
    if t.Empty? then 0 else Blacks(t.left) + if t.color.Black? then 1 else 0
  }

  ghost predicate IsRedBlack<K, V>(t: Tree<K, V>) {
    RedBlack(t, Blacks(t))
  }

  lemma {:induction false} OneBlackHeight<K, V>(t: Tree<K, V>, n: nat)
    requires RedBlack(t, n)
    ensures n == Blacks(t)
  {
    if t.Node? {
      OneBlackHeight(t.left, if t.color.Black? then n - 1 else n);
    }
  }

  /** What the rest of the tree needs: any red-black tree with `n` blacks, not red under red, completes it. */
  ghost predicate Fits<K, V>(p: Path<K, V>, n: nat) {
    p.Step? ==>
      && RedBlack(p.sibling, n)
      && (p.color.Red? ==> !p.sibling.IsRed() && !RedAbove(p.above))
      && Fits(p.above, if p.color.Black? then n + 1 else n)
  }

  predicate RedAbove<K, V>(p: Path<K, V>) {
    p.Step? && p.color.Red?
  }

  /** A tree is red-black exactly when the subtree and the rest fit together. */
  lemma {:induction false} WholeIsRedBlack<K, V>(t: Tree<K, V>, p: Path<K, V>)
    ensures IsRedBlack(Whole(t, p)) <==>
            IsRedBlack(t) && Fits(p, Blacks(t)) && !(t.IsRed() && RedAbove(p))
    decreases p
  {
    if p.Step? {
      WholeIsRedBlack(Parent(t, p), p.above);
      ParentIsRedBlack(t, p);
    }
  }

  lemma ParentIsRedBlack<K, V>(t: Tree<K, V>, p: Path<K, V>)
    requires p.Step?
    ensures IsRedBlack(Parent(t, p)) <==>
            && IsRedBlack(t) && RedBlack(p.sibling, Blacks(t))
            && (p.color.Red? ==> !t.IsRed() && !p.sibling.IsRed())
    ensures IsRedBlack(Parent(t, p)) ==> Blacks(Parent(t, p)) == Blacks(t) + if p.color.Black? then 1 else 0
  {
    var u, n := Parent(t, p), Blacks(Parent(t, p));
    if IsRedBlack(u) {
      OneBlackHeight(t, if p.color.Black? then n - 1 else n);
    }
    if RedBlack(p.sibling, Blacks(t)) {
      OneBlackHeight(p.sibling, Blacks(t));
    }
  }

  /** The source's own check: the number of blacks on every way down, or -1 when they differ. */
  function BalanceOf<K, V>(t: Tree<K, V>): int {
    if t.Empty? then 0
    else
      var l, r := BalanceOf(t.left), BalanceOf(t.right);
      if l < 0 then l
      else if r < 0 then r
      else if l != r then -1
      else l + if t.color.Black? then 1 else 0
  }

  /** Every way down has `n` blacks, whatever the colours of neighbours. */
  ghost predicate EqualBlacks<K, V>(t: Tree<K, V>, n: nat) {
    if t.Empty? then n == 0
    else if t.color.Black? then n > 0 && EqualBlacks(t.left, n - 1) && EqualBlacks(t.right, n - 1)
    else EqualBlacks(t.left, n) && EqualBlacks(t.right, n)
  }

  lemma {:induction false} BalanceIsExact<K, V>(t: Tree<K, V>, n: nat)
    ensures BalanceOf(t) == n <==> EqualBlacks(t, n)
  {
    if t.Node? && (t.IsRed() || n > 0) {
      var m := if t.IsRed() then n else n - 1;
      BalanceIsExact(t.left, m);
      BalanceIsExact(t.right, m);
    }
  }

  lemma {:induction false} RedBlackIsBalanced<K, V>(t: Tree<K, V>, n: nat)
    requires RedBlack(t, n)
    ensures BalanceOf(t) == n
  {
    if t.Node? {
      var m := if t.IsRed() then n else n - 1;
      RedBlackIsBalanced(t.left, m);
      RedBlackIsBalanced(t.right, m);
    }
  }

  lemma {:induction false} UnbalancedBelow<K, V>(t: Tree<K, V>, p: Path<K, V>)
    requires BalanceOf(t) < 0
    ensures BalanceOf(Whole(t, p)) < 0
    decreases p
  {
    if p.Step? {
      UnbalancedBelow(Parent(t, p), p.above);
    }
  }

  lemma PaintedBlack<K, V>(t: Tree<K, V>, n: nat)
    requires t.IsRed() && RedBlack(t, n)
    ensures RedBlack(t.(color := Black), n + 1)
  {
  }

  // ----- Rotation -----

  /** The child on side `dir` comes up and `t` goes down on the other side. */
  function Rotated<K, V>(t: Tree<K, V>, dir: Dir): (r: Tree<K, V>)
    requires t.Node? && t.Child(dir).Node?
    ensures r.Node? && r.Child(Opposite(dir)).Node? && r.Child(dir) == t.Child(dir).Child(dir)
  {
    var c := t.Child(dir);
    WithChild(c, Opposite(dir), WithChild(t, dir, c.Child(Opposite(dir))))
  }

  lemma RotatedInOrder<K, V>(t: Tree<K, V>, dir: Dir)
    requires t.Node? && t.Child(dir).Node?
    ensures InOrder(Rotated(t, dir)) == InOrder(t)
  {
    var c := t.Child(dir);
    if dir.Left? {
      Reassociate(InOrder(c.left), [c.kv], InOrder(c.right), [t.kv], InOrder(t.right));
    } else {
      Reassociate(InOrder(t.left), [t.kv], InOrder(c.left), [c.kv], InOrder(c.right));
    }
  }

  lemma Reassociate<T>(a: seq<T>, x: seq<T>, b: seq<T>, y: seq<T>, c: seq<T>)
    ensures (a + x + b) + y + c == a + x + (b + y + c)
  {
  }

  lemma ChildInOrder<K, V>(t: Tree<K, V>, dir: Dir, u: Tree<K, V>)
    requires t.Node? && InOrder(u) == InOrder(t.Child(dir))
    ensures InOrder(WithChild(t, dir, u)) == InOrder(t)
  {
  }

  lemma RecoloredInOrder<K, V>(t: Tree<K, V>, dir: Dir, color: Color)
    requires t.Node? && t.Child(dir).Node?
    ensures InOrder(Recolored(t, dir, color)) == InOrder(t)
  {
    ChildInOrder(t, dir, t.Child(dir).(color := color));
  }

  // ----- After an insertion -----

  /** The red uncle and the red parent turn black, the grandparent red. */
  function BlackBelowGrandparent<K, V>(t: Tree<K, V>, p: Path<K, V>): (r: Tree<K, V>)
    requires p.Step? && p.above.Step? && p.above.sibling.Node?
    ensures r.IsRed()
  {
    var g := p.above;
    Join(g.dir, Red, Join(p.dir, Black, t, p.kv, p.sibling), g.kv, g.sibling.(color := Black))
  }

  lemma BlackBelowGrandparentFits<K, V>(t: Tree<K, V>, p: Path<K, V>)
    requires p.Step? && p.color.Red? && p.above.Step? && p.above.sibling.IsRed()
    ensures InOrder(BlackBelowGrandparent(t, p)) == InOrder(Parent(Parent(t, p), p.above))
    ensures t.IsRed() && IsRedBlack(t) && Fits(p, Blacks(t)) ==>
              var u := BlackBelowGrandparent(t, p);
              u.IsRed() && IsRedBlack(u) && Fits(p.above.above, Blacks(u))
  {
    var g := p.above;
    if t.IsRed() && IsRedBlack(t) && Fits(p, Blacks(t)) {
      assert Fits(g, Blacks(t));
      OneBlackHeight(p.sibling, Blacks(t));
      OneBlackHeight(g.sibling, Blacks(t));
      OneBlackHeight(g.sibling.(color := Black), Blacks(t) + 1);
    }
  }

  /** The parent, or the node itself when it is the inner child, comes up in the grandparent's place. */
  function RotatedGrandparent<K, V>(t: Tree<K, V>, p: Path<K, V>): Tree<K, V>
    requires t.Node? && p.Step? && p.above.Step?
  {
    var g, u := p.above, Parent(t, p);
    var lower := if p.dir == g.dir then u else Rotated(u, p.dir);
    Recolored(Rotated(Parent(lower, g), g.dir), Opposite(g.dir), Red).(color := Black)
  }

  lemma RotatedGrandparentInOrder<K, V>(t: Tree<K, V>, p: Path<K, V>)
    requires t.Node? && p.Step? && p.above.Step?
    ensures InOrder(RotatedGrandparent(t, p)) == InOrder(Parent(Parent(t, p), p.above))
  {
    var g, u := p.above, Parent(t, p);
    var lower := if p.dir == g.dir then u else Rotated(u, p.dir);
    if p.dir != g.dir {
      RotatedInOrder(u, p.dir);
      ChildInOrder(Parent(u, g), g.dir, lower);
    }
    var v := Parent(lower, g);
    RotatedInOrder(v, g.dir);
    RecoloredInOrder(Rotated(v, g.dir), Opposite(g.dir), Red);
  }

  lemma RotatedGrandparentFits<K, V>(t: Tree<K, V>, p: Path<K, V>)
    requires t.IsRed() && IsRedBlack(t) && Fits(p, Blacks(t))
    requires p.Step? && p.color.Red? && p.above.Step? && !p.above.sibling.IsRed()
    ensures var u := RotatedGrandparent(t, p);
            !u.IsRed() && IsRedBlack(u) && Fits(p.above.above, Blacks(u))
  {
    var g, n := p.above, Blacks(t);
    assert Fits(g, n);
    OneBlackHeight(p.sibling, n);
    OneBlackHeight(g.sibling, n);
    OneBlackHeight(t.left, n);
    OneBlackHeight(t.right, n);
    var u := RotatedGrandparent(t, p);
    assert RedBlack(u.left, n) && RedBlack(u.right, n);
    OneBlackHeight(u, n + 1);
  }

  // ----- After a removal -----

  /** Every way down through the child on side `dir` of `t` misses one black; all else is in order. */
  ghost predicate Short<K, V>(t: Tree<K, V>, dir: Dir, above: Path<K, V>)
    requires t.Node?
  {
    var n, sibling := Blacks(t.Child(dir)), t.Child(Opposite(dir));
    && IsRedBlack(t.Child(dir)) && RedBlack(sibling, n + 1)
    && (t.IsRed() ==> !sibling.IsRed() && !RedAbove(above))
    && Fits(above, if t.IsRed() then n + 1 else n + 2)
  }

  lemma ShortHasSibling<K, V>(t: Tree<K, V>, dir: Dir, above: Path<K, V>)
    requires t.Node? && Short(t, dir, above)
    ensures t.Child(Opposite(dir)).Node?
  {
  }

  /** The sibling turns red. */
  function RedSibling<K, V>(t: Tree<K, V>, dir: Dir, color: Color): (r: Tree<K, V>)
    requires t.Node? && t.Child(Opposite(dir)).Node?
    ensures r.Node? && r.color == color
  {
    var u := Recolored(t, Opposite(dir), Red);
    assert u.Node?;
    u.(color := color)
  }

  /** The sibling comes up with the parent's colour; the parent and the far nephew turn black. */
  function SiblingUp<K, V>(t: Tree<K, V>, dir: Dir): (r: Tree<K, V>)
    requires t.Node? && t.Child(Opposite(dir)).Node? && t.Child(Opposite(dir)).Child(Opposite(dir)).Node?
    ensures r.Node? && r.color == t.color && r.left.IsBlackNode() && r.right.IsBlackNode()
  {
    var u := Rotated(t, Opposite(dir));
    Recolored(Recolored(u, dir, Black), Opposite(dir), Black).(color := t.color)
  }

  /** The near nephew comes up in the sibling's place, turning black and the sibling red. */
  function NearNephewUp<K, V>(t: Tree<K, V>, dir: Dir): (r: Tree<K, V>)
    requires t.Node? && t.Child(Opposite(dir)).Node? && t.Child(Opposite(dir)).Child(dir).Node?
    ensures r.Node? && r.color == t.color
    ensures r.Child(Opposite(dir)).Node? && r.Child(Opposite(dir)).Child(Opposite(dir)).Node?
  {
    var up := Rotated(t.Child(Opposite(dir)), dir);
    WithChild(t, Opposite(dir), Recolored(up, Opposite(dir), Red).(color := Black))
  }

  /** The red sibling comes up black and the parent goes down red. */
  function RedSiblingUp<K, V>(t: Tree<K, V>, dir: Dir): (r: Tree<K, V>)
    requires t.Node? && t.Child(Opposite(dir)).Node?
    ensures r.IsBlackNode() && r.Child(dir).IsRed()
    ensures r.Child(dir).Child(dir) == t.Child(dir)
    ensures r.Child(dir).Child(Opposite(dir)) == t.Child(Opposite(dir)).Child(dir)
  {
    var u := Recolored(Rotated(t, Opposite(dir)), dir, Red);
    assert u.Node?;
    u.(color := Black)
  }

  lemma RemovalStepsInOrder<K, V>(t: Tree<K, V>, dir: Dir)
    requires t.Node? && t.Child(Opposite(dir)).Node?
    ensures forall c :: InOrder(RedSibling(t, dir, c)) == InOrder(t)
    ensures InOrder(RedSiblingUp(t, dir)) == InOrder(t)
    ensures t.Child(Opposite(dir)).Child(Opposite(dir)).Node? ==> InOrder(SiblingUp(t, dir)) == InOrder(t)
    ensures t.Child(Opposite(dir)).Child(dir).Node? ==> InOrder(NearNephewUp(t, dir)) == InOrder(t)
  {
    var opp, s := Opposite(dir), t.Child(Opposite(dir));
    RecoloredInOrder(t, opp, Red);
    RotatedInOrder(t, opp);
    var u := Rotated(t, opp);
    RecoloredInOrder(u, dir, Red);
    if s.Child(opp).Node? {
      RecoloredInOrder(u, dir, Black);
      RecoloredInOrder(Recolored(u, dir, Black), opp, Black);
    }
    if s.Child(dir).Node? {
      RotatedInOrder(s, dir);
      RecoloredInOrder(Rotated(s, dir), opp, Red);
      ChildInOrder(t, opp, Recolored(Rotated(s, dir), opp, Red).(color := Black));
    }
  }

  /** Parent and both nephews black: the shortage moves up to the parent. */
  lemma RedSiblingMovesShortage<K, V>(t: Tree<K, V>, dir: Dir, above: Path<K, V>)
    requires t.IsBlackNode() && Short(t, dir, above) && above.Step?
    requires t.Child(Opposite(dir)).IsBlackNode()
    requires !t.Child(Opposite(dir)).Child(dir).IsRed() && !t.Child(Opposite(dir)).Child(Opposite(dir)).IsRed()
    ensures Short(Parent(RedSibling(t, dir, Black), above), above.dir, above.above)
  {
    RedSiblingLevels(t, dir, above);
  }

  /** At the root the shortage is gone, since every way down misses the same one black. */
  lemma RedSiblingLevels<K, V>(t: Tree<K, V>, dir: Dir, above: Path<K, V>)
    requires t.IsBlackNode() && Short(t, dir, above)
    requires t.Child(Opposite(dir)).IsBlackNode()
    requires !t.Child(Opposite(dir)).Child(dir).IsRed() && !t.Child(Opposite(dir)).Child(Opposite(dir)).IsRed()
    ensures var u := RedSibling(t, dir, Black);
            u.IsBlackNode() && IsRedBlack(u) && Blacks(u) == Blacks(t.Child(dir)) + 1
  {
    var s, n := t.Child(Opposite(dir)), Blacks(t.Child(dir));
    OneBlackHeight(s, n + 1);
    OneBlackHeight(s.left, n);
    OneBlackHeight(s.right, n);
    var u := RedSibling(t, dir, Black);
    assert RedBlack(u.left, n) && RedBlack(u.right, n);
    OneBlackHeight(u, n + 1);
  }

  /** Red parent, black sibling and nephews: swapping their colours ends the shortage. */
  lemma SwapColorsEnds<K, V>(t: Tree<K, V>, dir: Dir, above: Path<K, V>)
    requires t.IsRed() && Short(t, dir, above)
    requires t.Child(Opposite(dir)).IsBlackNode()
    requires !t.Child(Opposite(dir)).Child(dir).IsRed() && !t.Child(Opposite(dir)).Child(Opposite(dir)).IsRed()
    ensures IsRedBlack(Whole(RedSibling(t, dir, Black), above))
  {
    var s, n := t.Child(Opposite(dir)), Blacks(t.Child(dir));
    OneBlackHeight(s, n + 1);
    OneBlackHeight(s.left, n);
    OneBlackHeight(s.right, n);
    var u := RedSibling(t, dir, Black);
    assert RedBlack(u.left, n) && RedBlack(u.right, n);
    OneBlackHeight(u, n + 1);
    WholeIsRedBlack(u, above);
  }

  /** Black sibling with a red far nephew: one rotation ends the shortage. */
  lemma SiblingUpEnds<K, V>(t: Tree<K, V>, dir: Dir, above: Path<K, V>)
    requires t.Node? && Short(t, dir, above) && t.Child(Opposite(dir)).IsBlackNode()
    requires t.Child(Opposite(dir)).Child(Opposite(dir)).IsRed()
    ensures IsRedBlack(Whole(SiblingUp(t, dir), above))
  {
    var s, n := t.Child(Opposite(dir)), Blacks(t.Child(dir));
    var u := SiblingUp(t, dir);
    assert RedBlack(s.left, n) && RedBlack(s.right, n);
    PaintedBlack(s.Child(Opposite(dir)), n);
    assert RedBlack(u.left, n + 1) && RedBlack(u.right, n + 1);
    OneBlackHeight(u, if t.IsRed() then n + 1 else n + 2);
    WholeIsRedBlack(u, above);
  }

  /** Black sibling with only the near nephew red: that becomes the previous case. */
  lemma NearNephewUpPrepares<K, V>(t: Tree<K, V>, dir: Dir, above: Path<K, V>)
    requires t.Node? && Short(t, dir, above) && t.Child(Opposite(dir)).IsBlackNode()
    requires t.Child(Opposite(dir)).Child(dir).IsRed() && !t.Child(Opposite(dir)).Child(Opposite(dir)).IsRed()
    ensures var u := NearNephewUp(t, dir);
            && u.Node? && Short(u, dir, above) && u.Child(Opposite(dir)).IsBlackNode()
            && u.Child(Opposite(dir)).Child(Opposite(dir)).IsRed()
  {
    var s, n := t.Child(Opposite(dir)), Blacks(t.Child(dir));
    assert RedBlack(s.left, n) && RedBlack(s.right, n);
    var c := s.Child(dir);
    assert RedBlack(c.left, n) && RedBlack(c.right, n);
    var u := NearNephewUp(t, dir).Child(Opposite(dir));
    assert RedBlack(u.left, n) && RedBlack(u.right, n);
  }

  /** Red sibling: after one rotation the shortage is below a red parent with a black sibling. */
  lemma RedSiblingUpPrepares<K, V>(t: Tree<K, V>, dir: Dir, above: Path<K, V>)
    requires t.Node? && Short(t, dir, above) && t.Child(Opposite(dir)).IsRed()
    ensures t.IsBlackNode()
    ensures var s, u := t.Child(Opposite(dir)), RedSiblingUp(t, dir);
            && s.Child(dir).IsBlackNode() && !s.Child(Opposite(dir)).IsRed()
            && u.Node? && u.Child(dir).IsRed()
            && Short(u.Child(dir), dir, Step(dir, Black, u.kv, u.Child(Opposite(dir)), above))
  {
    var s, n := t.Child(Opposite(dir)), Blacks(t.Child(dir));
    assert RedBlack(s.left, n + 1) && RedBlack(s.right, n + 1);
    assert s.left.Node? && s.right.Node?;
  }
}
