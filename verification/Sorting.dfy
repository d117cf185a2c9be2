/**
 The outcome of the C library's sort. Which algorithm it uses does not show: when only equal elements tie,
 there is one ascending rearrangement.
 */
module Sorting {

  ghost predicate TotalOrder<T(!new)>(le: (T, T) -> bool) {
    && (forall a, b :: le(a, b) || le(b, a))
    && (forall a, b :: le(a, b) && le(b, a) ==> a == b)
    && (forall a, b, c :: le(a, b) && le(b, c) ==> le(a, c))
  }

  ghost predicate Ordered<T(!new)>(le: (T, T) -> bool, s: seq<T>) {
    forall i, j :: 0 <= i < j < |s| ==> le(s[i], s[j])
  }

  function InsertInto<T>(le: (T, T) -> bool, x: T, s: seq<T>): seq<T> {
    if s == [] || le(x, s[0]) then [x] + s else [s[0]] + InsertInto(le, x, s[1..])
  }

  function Sorted<T>(le: (T, T) -> bool, s: seq<T>): (r: seq<T>)
  {
    if s == [] then [] else InsertInto(le, s[0], Sorted(le, s[1..]))
  }

  lemma {:induction false} InsertIntoPermutes<T>(le: (T, T) -> bool, x: T, s: seq<T>)
    ensures multiset(InsertInto(le, x, s)) == multiset(s) + multiset{x}
  {
    if s != [] && !le(x, s[0]) {
      InsertIntoPermutes(le, x, s[1..]);
      assert s == [s[0]] + s[1..];
    }
  }

  lemma {:induction false} SortedPermutes<T>(le: (T, T) -> bool, s: seq<T>)
    ensures multiset(Sorted(le, s)) == multiset(s)
  {
    if s != [] {
      SortedPermutes(le, s[1..]);
      InsertIntoPermutes(le, s[0], Sorted(le, s[1..]));
      assert s == [s[0]] + s[1..];
    }
  }

  lemma {:induction false} InsertIntoOrdered<T(!new)>(le: (T, T) -> bool, x: T, s: seq<T>)
    requires TotalOrder(le) && Ordered(le, s)
    ensures Ordered(le, InsertInto(le, x, s))
  {
    if s != [] && !le(x, s[0]) {
      var rest := InsertInto(le, x, s[1..]);
      InsertIntoOrdered(le, x, s[1..]);
      InsertIntoPermutes(le, x, s[1..]);
      forall y | y in rest
        ensures le(s[0], y)
      {
        assert y in multiset(rest);
        if y != x {
          assert y in s[1..];
        }
      }
      FirstIsLeast(le, s[0], rest);
    } else if s != [] {
      assert forall i :: 0 < i < |s| ==> le(s[0], s[i]);
      assert forall y :: y in s ==> le(x, y);
      FirstIsLeast(le, x, s);
    }
  }

  lemma FirstIsLeast<T(!new)>(le: (T, T) -> bool, x: T, s: seq<T>)
    requires Ordered(le, s) && forall y :: y in s ==> le(x, y)
    ensures Ordered(le, [x] + s)
  {
    var t := [x] + s;
    forall i, j | 0 <= i < j < |t|
      ensures le(t[i], t[j])
    {
      assert t[j] == s[j - 1] && t[j] in s;
    }
  }

  lemma {:induction false} SortedIsOrdered<T(!new)>(le: (T, T) -> bool, s: seq<T>)
    requires TotalOrder(le)
    ensures Ordered(le, Sorted(le, s))
  {
    if s != [] {
      SortedIsOrdered(le, s[1..]);
      InsertIntoOrdered(le, s[0], Sorted(le, s[1..]));
    }
  }

  /** Two ascending lists with the same elements are the same list. */
  lemma {:induction false} OrderedIsUnique<T(!new)>(le: (T, T) -> bool, s: seq<T>, t: seq<T>)
    requires TotalOrder(le) && Ordered(le, s) && Ordered(le, t) && multiset(s) == multiset(t)
    ensures s == t
  {
    assert |s| == |multiset(s)| == |multiset(t)| == |t|;
    if s != [] {
      assert s[0] in multiset(t) && t[0] in multiset(s);
      LeastFirst(le, s, t[0]);
      LeastFirst(le, t, s[0]);
      assert s == [s[0]] + s[1..] && t == [t[0]] + t[1..];
      assert multiset(s[1..]) == multiset(s) - multiset{s[0]};
      assert multiset(t[1..]) == multiset(t) - multiset{t[0]};
      OrderedIsUnique(le, s[1..], t[1..]);
    }
  }

  lemma LeastFirst<T(!new)>(le: (T, T) -> bool, s: seq<T>, x: T)
    requires TotalOrder(le) && Ordered(le, s) && x in s
    ensures le(s[0], x)
  {
  }

  /** Any sort gives this list. */
  lemma AnySort<T(!new)>(le: (T, T) -> bool, s: seq<T>, t: seq<T>)
    requires TotalOrder(le) && Ordered(le, t) && multiset(t) == multiset(s)
    ensures t == Sorted(le, s)
  {
    SortedPermutes(le, s);
    SortedIsOrdered(le, s);
    OrderedIsUnique(le, t, Sorted(le, s));
  }
}
