/** Lists: reversing, which is what prepending several values one by one amounts to, and sorting by a key. */
module Lists {

  function Reversed<T>(s: seq<T>): (r: seq<T>)
    ensures |r| == |s|
    ensures forall k :: 0 <= k < |s| ==> r[k] == s[|s| - 1 - k]
  {
    if s == [] then [] else [s[|s| - 1]] + Reversed(s[..|s| - 1])
  }

  lemma ReversedEmpty<T>(s: seq<T>)
    requires s == []
    ensures Reversed(s) == []
  {
  }

  lemma ReversedAppend<T>(s: seq<T>, x: T)
    ensures Reversed(s + [x]) == [x] + Reversed(s)
  {
    assert (s + [x])[..|s|] == s;
  }

  lemma PrependNone<T>(args: seq<T>, s: seq<T>)
    ensures Reversed(args[..0]) + s == s
  {
    ReversedEmpty(args[..0]);
  }

  lemma AppendNone<T>(s: seq<T>, args: seq<T>)
    ensures s + args[..0] == s
  {
  }

  /** One more value in front. */
  lemma PrependOneMore<T>(args: seq<T>, n: nat, s: seq<T>)
    requires n < |args|
    ensures [args[n]] + (Reversed(args[..n]) + s) == Reversed(args[..n + 1]) + s
  {
    assert args[..n + 1] == args[..n] + [args[n]];
    ReversedAppend(args[..n], args[n]);
  }

  /** One more value at the end. */
  lemma AppendOneMore<T>(s: seq<T>, args: seq<T>, n: nat)
    requires n < |args|
    ensures s + args[..n] + [args[n]] == s + args[..n + 1]
  {
  }

  // ----- Lists that ascend by a key -----

  lemma NonEmptyHasMember<T>(a: seq<T>)
    ensures a != [] ==> exists x :: x in a
  {
    if a != [] {
      assert a[0] in a;
    }
  }

  /** Of two members, or of one and itself, at most one is less than the other. */
  ghost predicate Asymmetric<T>(less: (T, T) -> bool, a: seq<T>) {
    forall x, y :: x in a && y in a ==> !(less(x, y) && less(y, x))
  }

  ghost predicate Ascends<T>(less: (T, T) -> bool, a: seq<T>) {
    forall i, j :: 0 <= i < j < |a| ==> less(a[i], a[j])
  }

  lemma AsymmetricFront<T>(less: (T, T) -> bool, a: seq<T>)
    requires Asymmetric(less, a) && |a| > 0
    ensures Asymmetric(less, a[..|a| - 1])
  {
    assert forall x :: x in a[..|a| - 1] ==> x in a;
  }

  /** The last member is the greatest; the others are the members of the front. */
  lemma LastOfAscending<T>(less: (T, T) -> bool, a: seq<T>)
    requires Asymmetric(less, a) && |a| > 0 && Ascends(less, a)
    ensures a[|a| - 1] in a
    ensures forall x :: x in a && x != a[|a| - 1] ==> less(x, a[|a| - 1])
    ensures forall x :: x in a[..|a| - 1] <==> x in a && x != a[|a| - 1]
    ensures Ascends(less, a[..|a| - 1])
  {
  }

  /** Two lists with the same members, each strictly ascending in one order, are equal. */
  lemma {:induction false} SortedListsAgree<T>(less: (T, T) -> bool, a: seq<T>, b: seq<T>)
    requires Asymmetric(less, a) && Ascends(less, a) && Ascends(less, b)
    requires forall x :: x in a <==> x in b
    ensures a == b
  {
    NonEmptyHasMember(a);
    NonEmptyHasMember(b);
    if a != [] && b != [] {
      var m, n := |a| - 1, |b| - 1;
      LastOfAscending(less, a);
      LastOfAscending(less, b);
      assert a[m] == b[n];
      hide Ascends, Asymmetric;
      forall x ensures x in a[..m] <==> x in b[..n] {
        assert x in a <==> x in b;
      }
      AsymmetricFront(less, a);
      SortedListsAgree(less, a[..m], b[..n]);
      assert a == a[..m] + [a[m]] && b == b[..n] + [b[n]];
    }
  }
}
