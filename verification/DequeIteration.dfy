/**
 Iterating over a Deque while it is edited. Elements are given distinct names; between one read and the next
 advance any edits may happen, each moving the iterator exactly as the Deque's methods do.
 */
module DequeIteration {
  import opened Wrappers
  import opened Lists
  import opened Bitwise
  import opened Deques

  datatype Edit =
    | Push(n: nat) | PushFront(n: nat) | Insert(at: nat, n: nat)
    | Pop | PopFront | Unset(at: nat)

  datatype Step = Do(edit: Edit) | Advance

  /** `initial` elements 0, 1, ... were there when the iteration began; later ones get fresh names from `next`. */
  datatype State = State(initial: nat, xs: seq<nat>, next: nat, current: nat, visited: seq<nat>, done: bool)

  function Names(from: nat, n: nat): (s: seq<nat>)
    ensures |s| == n && forall i :: 0 <= i < n ==> s[i] == from + i
  {
    seq(n, i => from + i)
  }

  function Start(n: nat): State {
    if n == 0 then State(0, [], 0, 0, [], true) else State(n, Names(0, n), n, 0, [0], false)
  }

  function InsertNames(s: State, at: nat, names: seq<nat>, adjust: bool): State
    requires at <= |s.xs|
  {
    s.(xs := s.xs[..at] + names + s.xs[at..],
       next := s.next + |names|,
       current := if adjust then AdjustBeforeInsert(s.current, at, |names|, |s.xs|) else s.current)
  }

  function RemoveIndex(s: State, at: nat): State
    requires at < |s.xs|
  {
    s.(xs := s.xs[..at] + s.xs[at + 1..], current := AdjustBeforeRemove(s.current, at, |s.xs|))
  }

  /** Edits with a bad index throw; those that a Deque cannot make room for are fatal. Neither changes the state. */
  function DoEdit(s: State, e: Edit): State {
    match e
    case Push(n) => if |s.xs| + n <= MAX_CAPACITY then InsertNames(s, |s.xs|, Names(s.next, n), false) else s
    case PushFront(n) => if |s.xs| + n <= MAX_CAPACITY then InsertNames(s, 0, Reversed(Names(s.next, n)), true) else s
    case Insert(at, n) =>
      if at <= |s.xs| && |s.xs| + n <= MAX_CAPACITY then InsertNames(s, at, Names(s.next, n), true) else s
    case Pop => if |s.xs| > 0 then RemoveIndex(s, |s.xs| - 1) else s
    case PopFront => if |s.xs| > 0 then RemoveIndex(s, 0) else s
    case Unset(at) => if at < |s.xs| then RemoveIndex(s, at) else s
  }

  function DoAdvance(s: State): State {
    var c := MoveForward(s.current);
    if c < |s.xs| then s.(current := c, visited := s.visited + [s.xs[c]])
    else s.(current := c, done := true)
  }

  /** Once exhausted the iteration is over. */
  function DoStep(s: State, step: Step): State {
    if s.done then s
    else match step
      case Do(e) => DoEdit(s, e)
      case Advance => DoAdvance(s)
  }

  function Iterate(n: nat, steps: seq<Step>): State {
    if |steps| == 0 then Start(n) else DoStep(Iterate(n, steps[..|steps| - 1]), steps[|steps| - 1])
  }

  // ----- Lists of names -----

  predicate Distinct(s: seq<nat>) {
    forall i, j :: 0 <= i < j < |s| ==> s[i] != s[j]
  }

  /** The members of `s` that are in `keep`, in order. */
  function Project(s: seq<nat>, keep: set<nat>): seq<nat> {
    if |s| == 0 then []
    else Project(s[..|s| - 1], keep) + (if s[|s| - 1] in keep then [s[|s| - 1]] else [])
  }

  lemma {:induction false} ProjectConcat(a: seq<nat>, b: seq<nat>, keep: set<nat>)
    ensures Project(a + b, keep) == Project(a, keep) + Project(b, keep)
    decreases |b|
  {
    if |b| == 0 {
      assert a + b == a;
    } else {
      assert (a + b)[..|a + b| - 1] == a + b[..|b| - 1];
      ProjectConcat(a, b[..|b| - 1], keep);
    }
  }

  lemma {:induction false} ProjectNone(s: seq<nat>, keep: set<nat>)
    requires forall x :: x in s ==> x !in keep
    ensures Project(s, keep) == []
  {
    if |s| > 0 {
      ProjectNone(s[..|s| - 1], keep);
    }
  }

  lemma {:induction false} ProjectTwice(s: seq<nat>, keep: set<nat>, fewer: set<nat>)
    requires fewer <= keep
    ensures Project(Project(s, keep), fewer) == Project(s, fewer)
  {
    if |s| > 0 {
      var t, x := s[..|s| - 1], s[|s| - 1];
      ProjectTwice(t, keep, fewer);
      ProjectConcat(Project(t, keep), if x in keep then [x] else [], fewer);
    }
  }

  /** Lists that agree on a set agree on its subsets. */
  lemma ProjectFewer(a: seq<nat>, b: seq<nat>, keep: set<nat>, fewer: set<nat>)
    requires fewer <= keep && Project(a, keep) == Project(b, keep)
    ensures Project(a, fewer) == Project(b, fewer)
  {
    ProjectTwice(a, keep, fewer);
    ProjectTwice(b, keep, fewer);
  }

  lemma {:induction false} ProjectCount(s: seq<nat>, keep: set<nat>, x: nat)
    requires x in keep
    ensures multiset(Project(s, keep))[x] == multiset(s)[x]
  {
    if |s| > 0 {
      var n := |s| - 1;
      assert s == s[..n] + [s[n]];
      ProjectCount(s[..n], keep, x);
    }
  }

  lemma {:induction false} DistinctCount(s: seq<nat>, x: nat)
    requires Distinct(s) && x in s
    ensures multiset(s)[x] == 1
  {
    var n := |s| - 1;
    assert s == s[..n] + [s[n]];
    if s[n] == x {
      assert x !in s[..n];
    } else {
      DistinctCount(s[..n], x);
    }
  }

  // ----- The invariant -----

  /** The elements of a list that were among the first `n` named. */
  ghost function Kept(xs: seq<nat>, n: nat): set<nat> {
    set x | x in xs && x < n
  }

  /** The elements present since the start. */
  ghost function Survivors(s: State): set<nat> {
    Kept(s.xs, s.initial)
  }

  /** How many elements lie at or before the iterator. */
  function Passed(s: State): nat {
    if s.done then |s.xs| else if s.current == BEFORE_START then 0 else s.current + 1
  }

  ghost predicate Inv(s: State) {
    && |s.xs| <= MAX_CAPACITY && Distinct(s.xs) && Distinct(s.visited)
    && s.initial <= s.next
    && (forall x :: x in s.xs || x in s.visited ==> x < s.next)
    && Passed(s) <= |s.xs|
    && (forall x :: x in s.visited && x in s.xs ==> x in s.xs[..Passed(s)])
    && Project(s.visited, Survivors(s)) == Project(s.xs[..Passed(s)], Survivors(s))
  }

  lemma StartInv(n: nat)
    requires n <= MAX_CAPACITY
    ensures Inv(Start(n))
  {
  }

  // ----- Splicing and cutting lists of names -----

  lemma DistinctConcat(a: seq<nat>, b: seq<nat>)
    requires Distinct(a) && Distinct(b) && forall x :: x in a ==> x !in b
    ensures Distinct(a + b)
  {
    forall i, j | 0 <= i < j < |a + b|
      ensures (a + b)[i] != (a + b)[j]
    {
      if i < |a| <= j {
        assert a[i] in a && b[j - |a|] in b;
      }
    }
  }

  lemma DistinctParts(xs: seq<nat>, at: nat)
    requires Distinct(xs) && at <= |xs|
    ensures xs == xs[..at] + xs[at..] && Distinct(xs[..at]) && Distinct(xs[at..])
    ensures forall x :: x in xs[..at] ==> x !in xs[at..]
  {
  }

  lemma SpliceMembers(xs: seq<nat>, at: nat, names: seq<nat>)
    requires Distinct(xs) && Distinct(names) && at <= |xs| && forall x :: x in names ==> x !in xs
    ensures Distinct(xs[..at] + names + xs[at..])
    ensures forall x :: x in xs[..at] + names + xs[at..] <==> x in xs || x in names
  {
    hide Distinct;
    DistinctParts(xs, at);
    DistinctConcat(xs[..at], names);
    DistinctConcat(xs[..at] + names, xs[at..]);
  }

  lemma CutMembers(xs: seq<nat>, at: nat)
    requires Distinct(xs) && at < |xs|
    ensures Distinct(xs[..at] + xs[at + 1..])
    ensures forall x :: x in xs[..at] + xs[at + 1..] <==> x in xs && x != xs[at]
  {
  }

  /** How a prefix looks after a splice: the new names are inside it, or beyond it. */
  lemma SplicePrefix(xs: seq<nat>, at: nat, names: seq<nat>, p: nat)
    requires at <= |xs| && p <= |xs|
    ensures at < p ==>
              && xs[..p] == xs[..at] + xs[at..p]
              && (xs[..at] + names + xs[at..])[..p + |names|] == xs[..at] + names + xs[at..p]
    ensures at >= p ==> (xs[..at] + names + xs[at..])[..p] == xs[..p]
  {
  }

  lemma CutPrefix(xs: seq<nat>, at: nat, p: nat)
    requires at < |xs| && p <= |xs|
    ensures at < p ==>
              && xs[..p] == xs[..at] + [xs[at]] + xs[at + 1..p]
              && (xs[..at] + xs[at + 1..])[..p - 1] == xs[..at] + xs[at + 1..p]
    ensures at >= p ==> (xs[..at] + xs[at + 1..])[..p] == xs[..p]
  {
  }

  // ----- Each step keeps the invariant -----

  /** Insertion adds no survivor, and leaves the passed ones passed. */
  lemma InsertInv(s: State, at: nat, names: seq<nat>, adjust: bool)
    requires Inv(s) && !s.done && at <= |s.xs| && |s.xs| + |names| <= MAX_CAPACITY
    requires adjust || at == |s.xs|
    requires Distinct(names) && forall x :: x in names ==> s.next <= x < s.next + |names|
    ensures Inv(InsertNames(s, at, names, adjust))
  {
    hide Distinct, Project;
    var t := InsertNames(s, at, names, adjust);
    var p, q, keep := Passed(s), Passed(t), Survivors(s);
    InsertPassed(s, at, names, adjust);
    SpliceMembers(s.xs, at, names);
    SplicePrefix(s.xs, at, names, p);
    assert Survivors(t) == keep;
    if at < p {
      InsertedProjection(s.xs[..at], names, s.xs[at..p], keep);
    }
  }

  lemma InsertedProjection(a: seq<nat>, names: seq<nat>, b: seq<nat>, keep: set<nat>)
    requires forall x :: x in names ==> x !in keep
    ensures Project(a + names + b, keep) == Project(a + b, keep)
  {
    ProjectConcat(a + names, b, keep);
    ProjectConcat(a, names, keep);
    ProjectConcat(a, b, keep);
    ProjectNone(names, keep);
  }

  lemma InsertPassed(s: State, at: nat, names: seq<nat>, adjust: bool)
    requires Inv(s) && !s.done && at <= |s.xs| && |s.xs| + |names| <= MAX_CAPACITY
    requires adjust || at == |s.xs|
    ensures var t := InsertNames(s, at, names, adjust);
            Passed(t) == if at < Passed(s) then Passed(s) + |names| else Passed(s)
  {
  }

  /** Removal drops one element, and with it at most one passed or surviving one. */
  lemma RemoveInv(s: State, at: nat)
    requires Inv(s) && !s.done && at < |s.xs|
    ensures Inv(RemoveIndex(s, at))
  {
    hide Distinct, Project;
    var t, x := RemoveIndex(s, at), s.xs[at];
    var p, keep := Passed(s), Survivors(t);
    RemovePassed(s, at);
    CutMembers(s.xs, at);
    CutPrefix(s.xs, at, p);
    assert t.xs == s.xs[..at] + s.xs[at + 1..];
    assert keep <= Survivors(s) && x !in keep;
    assert forall y :: y in s.xs[..p] && y != x ==> y in t.xs[..Passed(t)];
    ProjectFewer(s.visited, s.xs[..p], Survivors(s), keep);
    if at < p {
      assert s.xs[..p] == s.xs[..at] + [x] + s.xs[at + 1..p];
      assert t.xs[..Passed(t)] == s.xs[..at] + s.xs[at + 1..p];
      InsertedProjection(s.xs[..at], [x], s.xs[at + 1..p], keep);
    } else {
      assert t.xs[..Passed(t)] == s.xs[..p];
    }
    assert Project(t.visited, keep) == Project(t.xs[..Passed(t)], keep);
    assert Passed(t) <= |t.xs|;
    forall y | y in t.visited && y in t.xs
      ensures y in t.xs[..Passed(t)]
    {
      assert y in s.visited && y in s.xs && y in s.xs[..p];
    }
  }

  lemma RemovePassed(s: State, at: nat)
    requires Inv(s) && !s.done && at < |s.xs|
    ensures Passed(RemoveIndex(s, at)) == if at < Passed(s) then Passed(s) - 1 else Passed(s)
  {
  }

  lemma EditInv(s: State, e: Edit)
    requires Inv(s) && !s.done
    ensures Inv(DoEdit(s, e))
  {
    match e
    case Push(n) =>
      if |s.xs| + n <= MAX_CAPACITY { InsertInv(s, |s.xs|, Names(s.next, n), false); }
    case PushFront(n) =>
      if |s.xs| + n <= MAX_CAPACITY {
        ReversedMembers(Names(s.next, n));
        InsertInv(s, 0, Reversed(Names(s.next, n)), true);
      }
    case Insert(at, n) =>
      if at <= |s.xs| && |s.xs| + n <= MAX_CAPACITY { InsertInv(s, at, Names(s.next, n), true); }
    case Pop => if |s.xs| > 0 { RemoveInv(s, |s.xs| - 1); }
    case PopFront => if |s.xs| > 0 { RemoveInv(s, 0); }
    case Unset(at) => if at < |s.xs| { RemoveInv(s, at); }
    hide Inv, InsertNames, RemoveIndex, Reversed, Names;
  }

  lemma {:induction false} ReversedMembers(s: seq<nat>)
    requires Distinct(s)
    ensures Distinct(Reversed(s)) && forall x :: x in Reversed(s) <==> x in s
  {
    if |s| > 0 {
      var n := |s| - 1;
      assert s == s[..n] + [s[n]];
      ReversedMembers(s[..n]);
      DistinctParts(s, n);
      DistinctConcat([s[n]], Reversed(s[..n]));
    }
  }

  lemma AdvanceInv(s: State)
    requires Inv(s) && !s.done
    ensures Inv(DoAdvance(s))
  {
    hide Project;
    var p, t := Passed(s), DoAdvance(s);
    assert MoveForward(s.current) == p;
    assert s.xs[..|s.xs|] == s.xs;
    if p < |s.xs| {
      var x, keep := s.xs[p], Survivors(s);
      assert s.xs[..p + 1] == s.xs[..p] + [x];
      assert x !in s.xs[..p] && x !in s.visited;
      ProjectConcat(s.visited, [x], keep);
      ProjectConcat(s.xs[..p], [x], keep);
      assert Survivors(t) == keep;
      DistinctConcat(s.visited, [x]);
    }
  }

  lemma {:induction false} IterateInv(n: nat, steps: seq<Step>)
    requires n <= MAX_CAPACITY
    ensures Inv(Iterate(n, steps)) && Iterate(n, steps).initial == n
  {
    if |steps| == 0 {
      StartInv(n);
    } else {
      var s := Iterate(n, steps[..|steps| - 1]);
      IterateInv(n, steps[..|steps| - 1]);
      if !s.done {
        match steps[|steps| - 1]
        case Do(e) => EditInv(s, e);
        case Advance => AdvanceInv(s);
      }
    }
  }

  /**
   Whatever edits happen between reads, an iteration that runs to the end visits every element present
   throughout exactly once and in list order, and never visits any element twice.
   */
  lemma IterationIsSafe(n: nat, steps: seq<Step>)
    requires n <= MAX_CAPACITY
    ensures var s := Iterate(n, steps);
            && Distinct(s.visited)
            && (s.done ==>
                  && Project(s.visited, Survivors(s)) == Project(s.xs, Survivors(s))
                  && forall x :: x in s.xs && x < n ==> multiset(s.visited)[x] == 1)
  {
    IterateInv(n, steps);
    var s := Iterate(n, steps);
    if s.done {
      var keep := Survivors(s);
      assert s.xs[..|s.xs|] == s.xs;
      forall x | x in s.xs && x < n
        ensures multiset(s.visited)[x] == 1
      {
        ProjectCount(s.visited, keep, x);
        ProjectCount(s.xs, keep, x);
        DistinctCount(s.xs, x);
      }
    }
  }

  // ----- The steps on a Deque -----

  /** The Deque holds the names of the state, and iterator `id` stands where the state says; others stand anywhere. */
  ghost predicate Follows(d: Deque<nat>, id: nat, s: State)
    reads d, d.buffer
  {
    d.Valid() && d.Contents() == s.xs && id < |d.currents| && d.currents[id] == s.current
  }

  /** How many elements an edit adds when its index is good. */
  function Added(s: State, e: Edit): nat {
    match e
    case Push(n) => n
    case PushFront(n) => n
    case Insert(at, n) => if at <= |s.xs| then n else 0
    case _ => 0
  }

  /** The storage for the elements that an edit adds exceeds the limit. */
  predicate IsFatal(s: State, e: Edit, maxCapacity: nat) {
    var size := |s.xs| + Added(s, e);
    Added(s, e) > 0 && (size > MAX_CAPACITY || NextPow2(size, MIN_CAPACITY) > maxCapacity)
  }

  /** Each iterator is adjusted as the one of the state is. */
  lemma OneOfMany(before: seq<nat>, id: nat, after: seq<nat>, at: nat, n: nat, size: nat)
    requires id < |before|
    ensures AdjustedForInsert(before, after, at, n, size) ==>
              id < |after| && after[id] == AdjustBeforeInsert(before[id], at, n, size)
    ensures AdjustedForRemove(before, after, at, size) ==>
              id < |after| && after[id] == AdjustBeforeRemove(before[id], at, size)
  {
    hide AdjustBeforeInsert, AdjustBeforeRemove;
  }

  // What each edit does to the state, in the terms of the Deque's contracts.

  lemma PushIs(s: State, n: nat)
    requires |s.xs| + n <= MAX_CAPACITY
    ensures DoEdit(s, Push(n)) == s.(xs := s.xs + Names(s.next, n), next := s.next + n)
  {
    hide Names;
    assert s.xs[..|s.xs|] + Names(s.next, n) + s.xs[|s.xs|..] == s.xs + Names(s.next, n);
  }

  lemma PushFrontIs(s: State, n: nat)
    requires |s.xs| + n <= MAX_CAPACITY
    ensures DoEdit(s, PushFront(n)) ==
            s.(xs := Reversed(Names(s.next, n)) + s.xs, next := s.next + n,
               current := if n == 0 then s.current else AdjustBeforeInsert(s.current, 0, n, |s.xs|))
  {
    hide Names, Reversed;
    assert s.xs[..0] + Reversed(Names(s.next, n)) + s.xs[0..] == Reversed(Names(s.next, n)) + s.xs;
  }

  lemma InsertIs(s: State, at: nat, n: nat)
    requires at <= |s.xs| && |s.xs| + n <= MAX_CAPACITY
    ensures DoEdit(s, Insert(at, n)) ==
            s.(xs := s.xs[..at] + Names(s.next, n) + s.xs[at..], next := s.next + n,
               current := if n == 0 then s.current else AdjustBeforeInsert(s.current, at, n, |s.xs|))
  {
    hide Names;
  }

  lemma PopIs(s: State)
    requires s.xs != []
    ensures var n := |s.xs| - 1;
            && DoEdit(s, Pop) == s.(xs := s.xs[..n], current := AdjustBeforeRemove(s.current, n, n + 1))
            && DoEdit(s, PopFront) == s.(xs := s.xs[1..], current := AdjustBeforeRemove(s.current, 0, n + 1))
  {
    var n := |s.xs| - 1;
    assert s.xs[..n] + s.xs[n + 1..] == s.xs[..n];
    assert s.xs[..0] + s.xs[0 + 1..] == s.xs[1..];
  }

  /** Adding that is not done is fatal. */
  lemma NotDoneIsFatal(s: State, e: Edit, shape: Shape, maxCapacity: nat)
    requires shape.size == |s.xs| && AfterPush(shape, Added(s, e), maxCapacity) != Done
    ensures IsFatal(s, e, maxCapacity)
  {
    hide NextPow2;
  }

  method PerformPush(d: Deque<nat>, ghost id: nat, ghost s: State, next: nat, n: nat) returns (fatal: bool, later: nat)
    requires Follows(d, id, s) && next == s.next && |s.xs| <= MAX_CAPACITY
    modifies d, d.buffer
    ensures d.Valid() && (d.buffer == old(d.buffer) || fresh(d.buffer))
    ensures fatal ==> d.Contents() == s.xs && IsFatal(s, Push(n), d.maxCapacity)
    ensures !fatal ==> Follows(d, id, DoEdit(s, Push(n))) && later == DoEdit(s, Push(n)).next
  {
    ghost var shape, before := d.GetShape(), d.currents;
    hide DoEdit, Names, AfterPush, PushShape, IsFatal;
    var outcome := d.Push(Names(next, n));
    fatal, later := outcome != Done, next + n;
    if fatal {
      NotDoneIsFatal(s, Push(n), shape, d.maxCapacity);
    } else {
      PushIs(s, n);
    }
  }

  method PerformPushFront(d: Deque<nat>, ghost id: nat, ghost s: State, next: nat, n: nat)
    returns (fatal: bool, later: nat)
    requires Follows(d, id, s) && next == s.next && |s.xs| <= MAX_CAPACITY
    modifies d, d.buffer
    ensures d.Valid() && (d.buffer == old(d.buffer) || fresh(d.buffer))
    ensures fatal ==> d.Contents() == s.xs && IsFatal(s, PushFront(n), d.maxCapacity)
    ensures !fatal ==> Follows(d, id, DoEdit(s, PushFront(n))) && later == DoEdit(s, PushFront(n)).next
  {
    ghost var shape, before := d.GetShape(), d.currents;
    hide DoEdit, Names, AfterPush, PushShape, IsFatal, AdjustedForInsert, AdjustBeforeInsert, Reversed;
    var outcome := d.PushFront(Names(next, n));
    fatal, later := outcome != Done, next + n;
    if fatal {
      NotDoneIsFatal(s, PushFront(n), shape, d.maxCapacity);
    } else {
      OneOfMany(before, id, d.currents, 0, n, |s.xs|);
      PushFrontIs(s, n);
    }
  }

  method PerformInsert(d: Deque<nat>, ghost id: nat, ghost s: State, next: nat, at: nat, n: nat)
    returns (fatal: bool, later: nat)
    requires Follows(d, id, s) && next == s.next && |s.xs| <= MAX_CAPACITY
    modifies d, d.buffer
    ensures d.Valid() && (d.buffer == old(d.buffer) || fresh(d.buffer))
    ensures fatal ==> d.Contents() == s.xs && IsFatal(s, Insert(at, n), d.maxCapacity)
    ensures !fatal ==> Follows(d, id, DoEdit(s, Insert(at, n))) && later == DoEdit(s, Insert(at, n)).next
  {
    ghost var shape, before := d.GetShape(), d.currents;
    assert at > |s.xs| ==> DoEdit(s, Insert(at, n)) == s;
    hide DoEdit, Names, AfterPush, PushShape, IsFatal, AdjustedForInsert, AdjustBeforeInsert;
    var outcome, _ := d.Insert(at, Names(next, n));
    fatal, later := outcome != Done && outcome != InvalidIndex, if outcome == InvalidIndex then next else next + n;
    if fatal {
      NotDoneIsFatal(s, Insert(at, n), shape, d.maxCapacity);
    } else if outcome == Done {
      OneOfMany(before, id, d.currents, at, n, |s.xs|);
      InsertIs(s, at, n);
    }
  }

  lemma RemovalIs(s: State, e: Edit)
    requires e.Pop? || e.PopFront? || e.Unset?
    ensures s.xs == [] && !e.Unset? ==> DoEdit(s, e) == s
    ensures s.xs != [] && !e.Unset? ==>
              var n := |s.xs| - 1;
              DoEdit(s, e) == if e.Pop? then s.(xs := s.xs[..n], current := AdjustBeforeRemove(s.current, n, n + 1))
                              else s.(xs := s.xs[1..], current := AdjustBeforeRemove(s.current, 0, n + 1))
    ensures e.Unset? ==> DoEdit(s, e) == if e.at < |s.xs| then RemoveIndex(s, e.at) else s
  {
    if s.xs != [] {
      PopIs(s);
    }
  }

  method PerformPop(d: Deque<nat>, ghost id: nat, ghost s: State)
    requires Follows(d, id, s)
    modifies d, d.buffer
    ensures d.Valid() && (d.buffer == old(d.buffer) || fresh(d.buffer))
    ensures Follows(d, id, DoEdit(s, Pop)) && DoEdit(s, Pop).next == s.next
  {
    ghost var n, before := |s.xs|, d.currents;
    RemovalIs(s, Pop);
    d.SizeFacts();
    hide DoEdit, MaybeShrink, PopShape, UnsetShape, AdjustedForRemove, AdjustBeforeRemove;
    hide Deque.Contents, Deque.Valid, Deque.GetShape;
    var _ := d.Pop();
    OneOfMany(before, id, d.currents, if n > 0 then n - 1 else 0, 0, n);
  }

  method PerformPopFront(d: Deque<nat>, ghost id: nat, ghost s: State)
    requires Follows(d, id, s)
    modifies d, d.buffer
    ensures d.Valid() && (d.buffer == old(d.buffer) || fresh(d.buffer))
    ensures Follows(d, id, DoEdit(s, PopFront)) && DoEdit(s, PopFront).next == s.next
  {
    ghost var n, before := |s.xs|, d.currents;
    RemovalIs(s, PopFront);
    d.SizeFacts();
    hide DoEdit, MaybeShrink, PopShape, UnsetShape, AdjustedForRemove, AdjustBeforeRemove;
    hide Deque.Contents, Deque.Valid, Deque.GetShape;
    var _ := d.PopFront();
    OneOfMany(before, id, d.currents, 0, 0, n);
  }

  method PerformUnset(d: Deque<nat>, ghost id: nat, ghost s: State, at: nat)
    requires Follows(d, id, s)
    modifies d, d.buffer
    ensures d.Valid() && (d.buffer == old(d.buffer) || fresh(d.buffer))
    ensures Follows(d, id, DoEdit(s, Unset(at))) && DoEdit(s, Unset(at)).next == s.next
  {
    ghost var n, before := |s.xs|, d.currents;
    RemovalIs(s, Unset(at));
    d.SizeFacts();
    hide DoEdit, MaybeShrink, PopShape, UnsetShape, AdjustedForRemove, AdjustBeforeRemove;
    hide Deque.Contents, Deque.Valid, Deque.GetShape;
    var _, _ := d.OffsetUnset(at);
    OneOfMany(before, id, d.currents, at, 0, n);
  }

  /** One edit; `fatal` reports that the process ends because there is no room. */
  method PerformEdit(d: Deque<nat>, ghost id: nat, ghost s: State, next: nat, e: Edit) returns (fatal: bool, later: nat)
    requires Follows(d, id, s) && next == s.next && |s.xs| <= MAX_CAPACITY
    modifies d, d.buffer
    ensures d.Valid() && (d.buffer == old(d.buffer) || fresh(d.buffer))
    ensures fatal ==> d.Contents() == s.xs && IsFatal(s, e, d.maxCapacity)
    ensures !fatal ==> Follows(d, id, DoEdit(s, e)) && later == DoEdit(s, e).next
  {
    hide *;
    fatal, later := false, next;
    match e
    case Push(n) => fatal, later := PerformPush(d, id, s, next, n);
    case PushFront(n) => fatal, later := PerformPushFront(d, id, s, next, n);
    case Insert(at, n) => fatal, later := PerformInsert(d, id, s, next, at, n);
    case Pop => PerformPop(d, id, s);
    case PopFront => PerformPopFront(d, id, s);
    case Unset(at) => PerformUnset(d, id, s, at);
  }

  /** Moves the iterator and reads, unless it ran past the end. */
  method PerformAdvance(d: Deque<nat>, id: nat, ghost s: State) returns (read: Option<nat>)
    requires Follows(d, id, s)
    modifies d`currents
    ensures Follows(d, id, DoAdvance(s)) && DoAdvance(s).next == s.next
    ensures DoAdvance(s).visited == if read.Some? then s.visited + [read.value] else s.visited
    ensures DoAdvance(s).done == (s.done || read.None?)
  {
    hide MoveForward;
    d.IteratorMoveForward(id);
    read := d.IteratorCurrent(id);
  }

  /** The Deque, the next name and what was read are those of the state. */
  ghost predicate Tracks(d: Deque<nat>, id: nat, s: State, next: nat, visited: seq<nat>, done: bool)
    reads d, d.buffer
  {
    Follows(d, id, s) && next == s.next && visited == s.visited && done == s.done
  }

  method StartIteration(d: Deque<nat>) returns (id: nat, visited: seq<nat>, done: bool)
    requires d.Valid() && d.Contents() == Names(0, d.size)
    modifies d`currents
    ensures d.size == old(d.size) && Tracks(d, id, Start(d.size), d.size, visited, done)
  {
    id := d.GetIterator();
    d.IteratorRewind(id);
    var first := d.IteratorCurrent(id);
    visited, done := if first.Some? then [first.value] else [], first.None?;
  }

  method PerformStep(d: Deque<nat>, id: nat, ghost s: State, next: nat, visited: seq<nat>, step: Step)
    returns (fatal: bool, later: nat, seen: seq<nat>, done: bool)
    requires Tracks(d, id, s, next, visited, false) && Inv(s)
    modifies d, d.buffer
    ensures d.Valid() && (d.buffer == old(d.buffer) || fresh(d.buffer))
    ensures fatal ==> step.Do? && d.Contents() == s.xs && IsFatal(s, step.edit, d.maxCapacity)
    ensures !fatal ==> Tracks(d, id, DoStep(s, step), later, seen, done)
  {
    hide Distinct, Project, IsFatal;
    fatal, later, seen, done := false, next, visited, false;
    match step
    case Do(e) =>
      assert DoEdit(s, e).visited == s.visited && DoEdit(s, e).done == s.done;
      hide DoEdit;
      fatal, later := PerformEdit(d, id, s, next, e);
    case Advance =>
      hide DoAdvance;
      var read := PerformAdvance(d, id, s);
      if read.Some? {
        seen := visited + [read.value];
      } else {
        done := true;
      }
  }

  /** What running some of the steps has led to: as the state machine says, up to a fatal edit or the end. */
  ghost predicate Reached(d: Deque<nat>, n: nat, steps: seq<Step>, ran: nat, visited: seq<nat>, done: bool)
    reads d, d.buffer
  {
    && ran <= |steps| && d.Valid()
    && var s := Iterate(n, steps[..ran]);
    && visited == s.visited && done == s.done && d.Contents() == s.xs
    && (ran < |steps| ==> done || (steps[ran].Do? && IsFatal(s, steps[ran].edit, d.maxCapacity)))
  }

  method RunSteps(d: Deque<nat>, id: nat, n: nat, steps: seq<Step>, startVisited: seq<nat>, startDone: bool)
    returns (ran: nat, visited: seq<nat>, done: bool)
    requires n <= MAX_CAPACITY && Tracks(d, id, Iterate(n, steps[..0]), n, startVisited, startDone)
    modifies d, d.buffer
    ensures Reached(d, n, steps, ran, visited, done)
  {
    ran, visited, done := 0, startVisited, startDone;
    var next := n;
    var fatal := false;
    hide Iterate, DoStep, Inv, Distinct, Project, IsFatal;
    while ran < |steps| && !done && !fatal
      invariant ran <= |steps| && d.Valid() && (d.buffer == old(d.buffer) || fresh(d.buffer))
      invariant !fatal ==> Tracks(d, id, Iterate(n, steps[..ran]), next, visited, done)
      invariant fatal ==> Reached(d, n, steps, ran, visited, done)
      decreases |steps| - ran, !fatal
    {
      IterateInv(n, steps[..ran]);
      IterateStep(n, steps, ran);
      var later, seen, ended;
      fatal, later, seen, ended := PerformStep(d, id, Iterate(n, steps[..ran]), next, visited, steps[ran]);
      if !fatal {
        next, visited, done, ran := later, seen, ended, ran + 1;
      }
    }
  }

  /**
   Iterates over a Deque, whose elements are named in order, while editing it; other iterators may be live.
   The elements read are those of the state machine, so an iteration that runs to its end visits every element
   present throughout exactly once and in order. It stops at its end, at the last step, or where an edit is fatal.
   */
  method RunIteration(d: Deque<nat>, steps: seq<Step>) returns (ran: nat, visited: seq<nat>, done: bool)
    requires d.Valid() && d.Contents() == Names(0, d.size)
    modifies d, d.buffer
    ensures Reached(d, old(d.size), steps, ran, visited, done) && Distinct(visited)
    ensures done ==>
              && Project(visited, Kept(d.Contents(), old(d.size))) ==
                  Project(d.Contents(), Kept(d.Contents(), old(d.size)))
              && forall x :: x in d.Contents() && x < old(d.size) ==> multiset(visited)[x] == 1
  {
    var n := d.size;
    assert n <= MAX_CAPACITY && Iterate(n, steps[..0]) == Start(n);
    var id;
    id, visited, done := StartIteration(d);
    hide Distinct, Project, IsFatal, Iterate;
    ran, visited, done := RunSteps(d, id, n, steps, visited, done);
    IterateInv(n, steps[..ran]);
    IterationIsSafe(n, steps[..ran]);
  }

  lemma IterateStep(n: nat, steps: seq<Step>, i: nat)
    requires i < |steps|
    ensures Iterate(n, steps[..i + 1]) == DoStep(Iterate(n, steps[..i]), steps[i])
  {
    assert steps[..i + 1][..i] == steps[..i];
  }
}
