/**
 Plain facts about a Deque: where an edit leaves the positions of its iterators, and how many elements it can
 hold before adding more is a fatal error.
 */
module DequeLimits {
  import opened Bitwise
  import opened DequeIteration
  import opened Deques

  // ----- Positions -----

  /** Removing the element at `removed`: later positions move back by one, the last one of all is before 0. */
  lemma RemovalReindexes(current: nat, removed: nat, size: nat)
    requires removed < size
    ensures current < removed ==> AdjustBeforeRemove(current, removed, size) == current
    ensures 0 < current && removed <= current < size ==> AdjustBeforeRemove(current, removed, size) == current - 1
    ensures AdjustBeforeRemove(0, 0, size) == 0xFFFF_FFFF
    ensures current >= size ==> AdjustBeforeRemove(current, removed, size) == current
  {
  }

  /** Inserting `n` elements at `inserted`: positions from there on move with their elements. */
  lemma InsertionReindexes(current: nat, inserted: nat, n: nat, size: nat)
    requires inserted <= size && size + n <= 0x8000_0000
    ensures current < inserted ==> AdjustBeforeInsert(current, inserted, n, size) == current
    ensures inserted <= current < size ==> AdjustBeforeInsert(current, inserted, n, size) == current + n
    ensures current >= size ==> AdjustBeforeInsert(current, inserted, n, size) == current
  {
  }

  /** Moving on is adding one; from before 0 it leads to 0. */
  lemma MovesOn(current: nat)
    ensures current < 0xFFFF_FFFF ==> MoveForward(current) == current + 1
    ensures MoveForward(0xFFFF_FFFF) == 0
  {
  }

  /** An iterator on an element stays on it, whatever else is removed or inserted. */
  lemma StaysOnElement<T>(xs: seq<T>, current: nat, at: nat, added: seq<T>)
    requires current < |xs| && |xs| + |added| <= 0x8000_0000
    ensures at < |xs| && at != current ==>
              var c, ys := AdjustBeforeRemove(current, at, |xs|), xs[..at] + xs[at + 1..];
              c < |ys| && ys[c] == xs[current]
    ensures at <= |xs| ==>
              var c, ys := AdjustBeforeInsert(current, at, |added|, |xs|), xs[..at] + added + xs[at..];
              c < |ys| && ys[c] == xs[current]
  {
  }

  // ----- Capacity -----

  /** Up to half of the limit adding always succeeds; beyond the limit it never does. */
  lemma RoomBelowHalf(s: Shape, n: nat, maxCapacity: nat)
    requires maxCapacity <= 0x8000_0000
    ensures 4 <= maxCapacity && 2 * (s.size + n) <= maxCapacity + 1 ==> AfterPush(s, n, maxCapacity) == Done
    ensures n > 0 && s.size + n > maxCapacity && s.size + n > s.capacity ==> AfterPush(s, n, maxCapacity) != Done
    ensures n > 0 && s.size + n > s.capacity ==>
              (AfterPush(s, n, maxCapacity) == CapacityWrapped <==> s.size + n > 0x8000_0000)
  {
    assert IsPow2(MIN_CAPACITY);
  }

  /** An iteration is cut short by an edit only when that makes the Deque more than half as large as it may be. */
  lemma FatalNeedsHalf(s: State, e: Edit, maxCapacity: nat)
    requires 4 <= maxCapacity <= 0x8000_0000 && IsFatal(s, e, maxCapacity)
    ensures e.Push? || e.PushFront? || e.Insert?
    ensures 2 * (|s.xs| + e.n) > maxCapacity + 1
  {
    assert IsPow2(MIN_CAPACITY);
  }

  /** The first element takes four slots; the fifth makes them eight. */
  lemma FirstSlots(copied: nat)
    ensures PushShape(Shape(0, 0, copied), 1) == Shape(1, 4, copied)
    ensures PushShape(Shape(4, 4, copied), 1) == Shape(5, 8, copied + 4)
    ensures PopShape(Shape(2, 8, copied)) == Shape(1, 4, copied + 1)
    ensures PopShape(Shape(3, 8, copied)) == Shape(2, 8, copied)
  {
    assert IsPow2(MIN_CAPACITY);
  }
}
