/**
 Teds\Deque: a power-of-two circular buffer that moves the shorter side on insertion and removal, resizes
 by copying one or two segments, and re-indexes its live iterators before every edit.
 */
module Deques {
  import opened Wrappers
  import opened Lists
  import opened Bitwise
  import opened CircularBuffer

  const MIN_CAPACITY: nat := 4
  const MIN_MASK: nat := MIN_CAPACITY - 1

  /**
   The last one stands for a size whose capacity does not fit 32 bits: the source computes 0 and asserts
   otherwise.
   */
  datatype Outcome = Done | InvalidIndex | CapacityExceeded | CapacityWrapped

  const MAX_CAPACITY: nat := 0x8000_0000

  // ----- Iterator positions, unsigned 32-bit -----

  /** The position before the first element, reached when the element at index 0 is removed. */
  const BEFORE_START: nat := U32_LIMIT - 1

  function AdjustBeforeRemove(current: nat, removed: nat, oldSize: nat): nat {
    if removed <= current < oldSize then (if current == 0 then BEFORE_START else current - 1) else current
  }

  function AdjustBeforeInsert(current: nat, inserted: nat, n: nat, oldSize: nat): nat {
    if inserted <= current < oldSize then (current + n) % U32_LIMIT else current
  }

  function MoveForward(current: nat): nat {
    (current + 1) % U32_LIMIT
  }

  ghost predicate AdjustedForRemove(before: seq<nat>, after: seq<nat>, removed: nat, oldSize: nat) {
    |after| == |before| && forall i :: 0 <= i < |after| ==> after[i] == AdjustBeforeRemove(before[i], removed, oldSize)
  }

  ghost predicate AdjustedForInsert(before: seq<nat>, after: seq<nat>, inserted: nat, n: nat, oldSize: nat) {
    |after| == |before| &&
    forall i :: 0 <= i < |after| ==> after[i] == AdjustBeforeInsert(before[i], inserted, n, oldSize)
  }

  // ----- Sizes, capacities and the elements copied by resizes -----

  datatype Shape = Shape(size: nat, capacity: nat, copied: nat)

  /** Room for `newSize` elements: no change, or the next power of two with every element copied. */
  function RoomFor(s: Shape, newSize: nat): Shape {
    if newSize <= s.capacity then s else s.(capacity := NextPow2(newSize, MIN_CAPACITY), copied := s.copied + s.size)
  }

  /** Halves the capacity when `threshold` (which wraps below 0) is at most a quarter of it. */
  function MaybeShrink(s: Shape, threshold: nat): Shape {
    var less := if threshold == 0 then U32_LIMIT - 1 else threshold - 1;
    if s.capacity > MIN_CAPACITY && less <= (s.capacity - 1) / 4 then
      s.(capacity := s.capacity / 2, copied := s.copied + s.size)
    else s
  }

  class Deque<T(0)> {
    /** The limit on the size of collections of generic values. */
    const maxCapacity: nat

    var buffer: array<T>
    var size: nat
    /** One less than the capacity; 0 when there is no storage. */
    var mask: nat
    var offset: nat
    /** The positions of the live iterators. */
    var currents: seq<nat>
    ghost var copied: nat

    ghost predicate Valid()
      reads this
    {
      && maxCapacity <= 0x8000_0000
      && size <= Capacity() <= 0x8000_0000
      && buffer.Length == Capacity()
      && (mask == 0 ==> offset == 0)
      && (mask > 0 ==> MIN_MASK <= mask && IsPow2(mask + 1) && offset <= mask)
    }

    function Capacity(): nat
      reads this
    {
      if mask == 0 then 0 else mask + 1
    }

    /** The elements from front to back. */
    ghost function Contents(): seq<T>
      reads this, buffer
      requires Valid()
    {
      View(buffer[..], offset)[..size]
    }

    ghost function GetShape(): Shape
      reads this
    {
      Shape(size, Capacity(), copied)
    }

    constructor (maxCapacity: nat)
      requires maxCapacity <= 0x8000_0000
      ensures Valid() && Contents() == [] && currents == [] && GetShape() == Shape(0, 0, 0)
      ensures this.maxCapacity == maxCapacity && fresh(buffer)
    {
      this.maxCapacity := maxCapacity;
      buffer := new T[0];
      size, mask, offset, currents, copied := 0, 0, 0, [], 0;
    }

    function Slot(i: nat): (r: nat)
      reads this
      requires Valid() && i < Capacity()
      ensures r <= mask
    {
      Wrap(offset + i, mask)
    }

    /** Reads an element; `offset` out of range is the invalid-index exception, ruled out by the callers. */
    method GetEntryAt(i: nat) returns (x: T)
      requires Valid() && i < size
      ensures x == Contents()[i]
    {
      ViewAt(buffer[..], offset, mask, i);
      x := buffer[Slot(i)];
    }

    // ----- Resizing -----

    /** Copies the one or two contiguous segments of the circular buffer to the start of new storage. */
    method MoveToNewBuffer(newCapacity: nat)
      requires Valid() && mask > 0 && newCapacity >= size
      modifies this`buffer, this`offset, this`copied
      ensures fresh(buffer) && buffer.Length == newCapacity && offset == 0
      ensures buffer[..size] == old(Contents())
      ensures copied == old(copied) + size
    {
      var newEntries := new T[newCapacity];
      var oldCapacity := mask + 1;
      var firstLen := oldCapacity - offset;
      if size <= firstLen {
        forall i | 0 <= i < size { newEntries[i] := buffer[offset + i]; }
      } else {
        forall i | 0 <= i < firstLen { newEntries[i] := buffer[offset + i]; }
        forall i | 0 <= i < size - firstLen { newEntries[firstLen + i] := buffer[i]; }
      }
      assert newEntries[..size] == Contents();
      buffer, offset := newEntries, 0;
      copied := copied + size;
    }

    /** Reallocation: the slots that exist in both the old and the new storage keep their places. */
    method Reallocate(newCapacity: nat)
      requires Valid()
      modifies this`buffer, this`copied
      ensures fresh(buffer) && buffer.Length == newCapacity
      ensures forall i :: 0 <= i < newCapacity && i < old(buffer.Length) ==> buffer[i] == old(buffer[i])
      ensures copied == old(copied) + size
    {
      var newEntries := new T[newCapacity];
      forall i | 0 <= i < newCapacity && i < buffer.Length { newEntries[i] := buffer[i]; }
      buffer := newEntries;
      copied := copied + size;
    }

    /** Exceeding the limit is a fatal error in the source; here it is reported. */
    method RaiseCapacity(newCapacity: nat) returns (ok: bool)
      requires Valid() && Capacity() < newCapacity && MIN_CAPACITY <= newCapacity && IsPow2(newCapacity)
      modifies this`buffer, this`offset, this`mask, this`copied
      ensures Valid() && Contents() == old(Contents())
      ensures buffer == old(buffer) || fresh(buffer)
      ensures ok <==> newCapacity <= maxCapacity
      ensures GetShape() == if ok then Shape(old(size), newCapacity, old(copied) + old(size)) else old(GetShape())
    {
      if newCapacity > maxCapacity {
        return false;
      }
      hide IsPow2;
      ghost var b := buffer[..];
      if mask == 0 {
        buffer := new T[newCapacity];
      } else if offset + size <= mask + 1 {
        Reallocate(newCapacity);
        SameSegment(b, buffer[..], offset, size);
      } else {
        MoveToNewBuffer(newCapacity);
        FromZero(buffer[..], size);
      }
      mask := newCapacity - 1;
      return true;
    }

    method ShrinkCapacity(newCapacity: nat)
      requires Valid() && size <= newCapacity < Capacity() && MIN_CAPACITY <= newCapacity && IsPow2(newCapacity)
      modifies this`buffer, this`offset, this`mask, this`copied
      ensures Valid() && Contents() == old(Contents()) && fresh(buffer)
      ensures GetShape() == Shape(old(size), newCapacity, old(copied) + old(size))
    {
      hide IsPow2;
      ghost var b := buffer[..];
      if offset + size < newCapacity {
        Reallocate(newCapacity);
        SameSegment(b, buffer[..], offset, size);
      } else {
        MoveToNewBuffer(newCapacity);
        FromZero(buffer[..], size);
      }
      mask := newCapacity - 1;
    }

    /** `oldSize` is the size before the removal for pop and popFront, and the size after it for unset. */
    method TryShrinkCapacity(oldSize: nat)
      requires Valid() && size <= oldSize <= size + 1
      modifies this`buffer, this`offset, this`mask, this`copied
      ensures Valid() && Contents() == old(Contents())
      ensures buffer == old(buffer) || fresh(buffer)
      ensures GetShape() == MaybeShrink(old(GetShape()), oldSize)
    {
      var less := if oldSize == 0 then U32_LIMIT - 1 else oldSize - 1;
      if less <= mask / 4 && mask > MIN_MASK {
        assert IsPow2(MIN_CAPACITY);
        Pow2Gap(MIN_CAPACITY, mask + 1);
        ShrinkCapacity(mask / 2 + 1);
      }
    }

    // ----- Iterators -----

    predicate IteratorIsValid(id: nat)
      reads this
      requires id < |currents|
    {
      currents[id] < size
    }

    /** Reading past the end throws the invalid-index exception. */
    method IteratorCurrent(id: nat) returns (x: Option<T>)
      requires Valid() && id < |currents|
      ensures x == if currents[id] < |Contents()| then Some(Contents()[currents[id]]) else None
    {
      if !IteratorIsValid(id) {
        return None;
      }
      var y := GetEntryAt(currents[id]);
      return Some(y);
    }

    method IteratorMoveForward(id: nat)
      requires id < |currents|
      modifies this`currents
      ensures currents == old(currents)[id := MoveForward(old(currents)[id])]
    {
      currents := currents[id := MoveForward(currents[id])];
    }

    /** A new iterator joins the live ones; where it stands is open until it is rewound. */
    method GetIterator() returns (id: nat)
      modifies this`currents
      ensures id == old(|currents|) && |currents| == id + 1 && currents[..id] == old(currents)
    {
      id := |currents|;
      var start: nat := *;
      currents := currents + [start];
    }

    method IteratorRewind(id: nat)
      requires id < |currents|
      modifies this`currents
      ensures currents == old(currents)[id := 0]
    {
      currents := currents[id := 0];
    }

    method AdjustIteratorsBeforeRemove(removed: nat)
      requires Valid() && removed < size
      modifies this`currents
      ensures Valid() && Contents() == old(Contents()) && GetShape() == old(GetShape())
      ensures AdjustedForRemove(old(currents), currents, removed, size)
    {
      for i := 0 to |currents|
        invariant |currents| == old(|currents|)
        invariant forall j :: 0 <= j < |currents| ==>
                    currents[j] ==
                      if j < i then AdjustBeforeRemove(old(currents)[j], removed, size) else old(currents)[j]
      {
        currents := currents[i := AdjustBeforeRemove(currents[i], removed, size)];
      }
    }

    method AdjustIteratorsBeforeInsert(inserted: nat, n: nat)
      requires Valid() && inserted <= size
      modifies this`currents
      ensures Valid() && Contents() == old(Contents()) && GetShape() == old(GetShape())
      ensures AdjustedForInsert(old(currents), currents, inserted, n, size)
    {
      for i := 0 to |currents|
        invariant |currents| == old(|currents|)
        invariant forall j :: 0 <= j < |currents| ==>
                    currents[j] ==
                      if j < i then AdjustBeforeInsert(old(currents)[j], inserted, n, size) else old(currents)[j]
      {
        currents := currents[i := AdjustBeforeInsert(currents[i], inserted, n, size)];
      }
    }

    // ----- Both ends -----

    /** `None` is the underflow exception. */
    method Pop() returns (popped: Option<T>)
      requires Valid()
      modifies this
      ensures Valid() && (buffer == old(buffer) || fresh(buffer))
      ensures popped == (var c := old(Contents()); if c == [] then None else Some(c[|c| - 1]))
      ensures Contents() == (var c := old(Contents()); if c == [] then [] else c[..|c| - 1])
      ensures GetShape() == PopShape(old(GetShape()))
      ensures popped.Some? ==> AdjustedForRemove(old(currents), currents, old(size) - 1, old(size))
      ensures popped.None? ==> currents == old(currents)
    {
      SizeFacts();
      hide *;
      if size == 0 {
        return None;
      }
      AdjustIteratorsBeforeRemove(size - 1);
      var oldSize := size;
      var val := GetEntryAt(size - 1);
      DropLast();
      TryShrinkCapacity(oldSize);
      return Some(val);
    }

    /** The size as the contents and the shape tell it, and what removals make of the shape. */
    lemma SizeFacts()
      requires Valid()
      ensures |Contents()| == size == GetShape().size && (size == 0 <==> Contents() == [])
      ensures size == 0 ==> PopShape(GetShape()) == GetShape() == UnsetShape(GetShape())
      ensures size > 0 ==> PopShape(GetShape()) == MaybeShrink(GetShape().(size := size - 1), size)
      ensures size > 0 ==> UnsetShape(GetShape()) == MaybeShrink(GetShape().(size := size - 1), size - 1)
    {
      hide MaybeShrink, View;
    }

    method DropLast()
      requires Valid() && size > 0
      modifies this`size
      ensures Valid() && size == old(size) - 1 && GetShape() == old(GetShape()).(size := size)
      ensures Contents() == old(Contents())[..size]
    {
      hide View;
      size := size - 1;
    }

    /** Advances the front, and returns the slot it left. */
    method DropFirst() returns (oldOffset: nat)
      requires Valid() && size > 0
      modifies this`size, this`offset
      ensures Valid() && size == old(size) - 1 && GetShape() == old(GetShape()).(size := size)
      ensures Contents() == old(Contents())[1..]
      ensures oldOffset < buffer.Length && buffer[oldOffset] == old(Contents())[0]
    {
      oldOffset := offset;
      PopFrontView(buffer[..], offset, mask, size);
      ViewAt(buffer[..], offset, mask, 0);
      hide View, IsPow2;
      size := size - 1;
      offset := Wrap(offset + 1, mask);
    }

    method PopFront() returns (popped: Option<T>)
      requires Valid()
      modifies this
      ensures Valid() && (buffer == old(buffer) || fresh(buffer))
      ensures popped == (var c := old(Contents()); if c == [] then None else Some(c[0]))
      ensures Contents() == (var c := old(Contents()); if c == [] then [] else c[1..])
      ensures GetShape() == PopShape(old(GetShape()))
      ensures popped.Some? ==> AdjustedForRemove(old(currents), currents, 0, old(size))
      ensures popped.None? ==> currents == old(currents)
    {
      SizeFacts();
      hide *;
      if size == 0 {
        return None;
      }
      AdjustIteratorsBeforeRemove(0);
      var oldSize := size;
      var oldOffset := DropFirst();
      var val := buffer[oldOffset];
      TryShrinkCapacity(oldSize);
      return Some(val);
    }

    /** Appends values. */
    method Push(args: seq<T>) returns (outcome: Outcome)
      requires Valid()
      modifies this, buffer
      ensures Valid() && (buffer == old(buffer) || fresh(buffer)) && currents == old(currents)
      ensures outcome == AfterPush(old(GetShape()), |args|, maxCapacity)
      ensures Contents() == if outcome == Done then old(Contents()) + args else old(Contents())
      ensures GetShape() == if outcome == Done then PushShape(old(GetShape()), |args|) else old(GetShape())
    {
      PushFacts(GetShape(), |args|);
      hide *;
      if |args| == 0 {
        return Done;
      }
      outcome := Reserve(|args|);
      if outcome != Done {
        return;
      }
      AppendAll(args);
    }

    /** Writes the values after the last one. */
    method AppendAll(args: seq<T>)
      requires Valid() && mask > 0 && size + |args| <= mask + 1
      modifies this`size, buffer
      ensures Valid() && size == old(size) + |args| && GetShape() == old(GetShape()).(size := size)
      ensures Contents() == old(Contents()) + args
    {
      hide IsPow2, Wrap, View;
      WriteFrom(size, args);
      size := size + |args|;
    }

    /** Prepends values one by one, so that they end up in reverse order. */
    method PushFront(args: seq<T>) returns (outcome: Outcome)
      requires Valid()
      modifies this, buffer
      ensures Valid() && (buffer == old(buffer) || fresh(buffer))
      ensures outcome == AfterPush(old(GetShape()), |args|, maxCapacity)
      ensures Contents() == if outcome == Done then Reversed(args) + old(Contents()) else old(Contents())
      ensures GetShape() == if outcome == Done then PushShape(old(GetShape()), |args|) else old(GetShape())
      ensures args != [] ==> AdjustedForInsert(old(currents), currents, 0, |args|, old(size))
      ensures args == [] ==> currents == old(currents)
    {
      PushFacts(GetShape(), |args|);
      ReversedFacts(args, Contents());
      hide *;
      if |args| == 0 {
        return Done;
      }
      AdjustIteratorsBeforeInsert(0, |args|);
      outcome := Reserve(|args|);
      if outcome != Done {
        return;
      }
      PrependEach(args);
    }

    /** Writes each value into the slot before the front, which moves back with it. */
    method PrependEach(args: seq<T>)
      requires Valid() && mask > 0 && size + |args| <= mask + 1
      modifies this`offset, this`size, buffer
      ensures Valid() && size == old(size) + |args| && GetShape() == old(GetShape()).(size := size)
      ensures Contents() == Reversed(args) + old(Contents())
    {
      ghost var c := Contents();
      hide IsPow2, Wrap, Reversed, View, GoodMask;
      assert GoodMask(buffer[..], mask) by { GoodBuffer(); }
      var o: nat := offset;
      assert Reversed(args[..0]) == [] by { ReversedEmpty(args[..0]); }
      for k := 0 to |args|
        invariant o <= mask && GoodMask(buffer[..], mask)
        invariant View(buffer[..], o)[..size + k] == Reversed(args[..k]) + c
        modifies buffer
      {
        PrependOne(buffer[..], o, mask, size + k, args, k, c);
        o := Wrap(o - 1, mask);
        Store(o, 0, args[k]);
      }
      assert args[..|args|] == args;
      offset := o;
      size := size + |args|;
    }

    lemma GoodBuffer()
      requires Valid() && mask > 0
      ensures GoodMask(buffer[..], mask)
    {
    }

    /** Writes one slot, addressed by its logical position from a front at `o`. */
    method Store(o: nat, i: nat, x: T)
      requires Valid() && mask > 0 && o <= mask && i <= mask
      modifies buffer
      ensures View(buffer[..], o) == old(View(buffer[..], o))[i := x] && GoodMask(buffer[..], mask)
    {
      ghost var b := buffer[..];
      ViewStore(b, o, mask, i, x);
      buffer[Wrap(o + i, mask)] := x;
      assert buffer[..] == b[Wrap(o + i, mask) := x];
    }

    // ----- The middle -----

    /** Inserts values at an index, in order. */
    method Insert(at: int, args: seq<T>) returns (outcome: Outcome, ghost moved: nat)
      requires Valid()
      modifies this, buffer
      ensures Valid() && (buffer == old(buffer) || fresh(buffer))
      ensures outcome == InvalidIndex <==> !(0 <= at <= old(size))
      ensures outcome != InvalidIndex ==> outcome == AfterPush(old(GetShape()), |args|, maxCapacity)
      ensures Contents() == (var c := old(Contents()); if outcome == Done then c[..at] + args + c[at..] else c)
      ensures GetShape() == if outcome == Done then PushShape(old(GetShape()), |args|) else old(GetShape())
      ensures outcome == Done && args != [] ==> AdjustedForInsert(old(currents), currents, at, |args|, old(size))
      ensures outcome != Done || args == [] ==> currents == old(currents)
      ensures moved <= (old(size) + 1) / 2
    {
      SizeFacts();
      PushFacts(GetShape(), |args|);
      moved := 0;
      if !(0 <= at <= size) {
        return InvalidIndex, moved;
      }
      assert args == [] ==> Contents()[..at] + args + Contents()[at..] == Contents();
      hide *;
      if |args| == 0 {
        return Done, moved;
      }
      outcome := Reserve(|args|);
      if outcome != Done {
        return;
      }
      AdjustIteratorsBeforeInsert(at, |args|);
      moved := OpenGap(at, |args|, args);
      return Done, moved;
    }

    /** Removes the element at an index, moving the shorter side over it. */
    method OffsetUnset(at: int) returns (ok: bool, ghost moved: nat)
      requires Valid()
      modifies this, buffer
      ensures Valid() && (buffer == old(buffer) || fresh(buffer))
      ensures ok <==> 0 <= at < old(size)
      ensures Contents() == (var c := old(Contents()); if ok then c[..at] + c[at + 1..] else c)
      ensures GetShape() == if ok then UnsetShape(old(GetShape())) else old(GetShape())
      ensures if ok then AdjustedForRemove(old(currents), currents, at, old(size)) else currents == old(currents)
      ensures moved <= old(size) / 2
    {
      moved := 0;
      if !(0 <= at < size) {
        return false, moved;
      }
      SizeFacts();
      hide *;
      AdjustIteratorsBeforeRemove(at);
      moved := CloseGap(at);
      TryShrinkCapacity(size);
      return true, moved;
    }

    /** Slides the shorter side over the removed element. */
    method CloseGap(at: nat) returns (ghost moved: nat)
      requires Valid() && at < size
      modifies this`offset, this`size, buffer
      ensures Valid() && size == old(size) - 1 && GetShape() == old(GetShape()).(size := size)
      ensures Contents() == (var c := old(Contents()); c[..at] + c[at + 1..])
      ensures moved <= old(size) / 2
    {
      hide IsPow2, Wrap, View, Pos, TailOver, HeadOver;
      ghost var v := View(buffer[..], offset);
      if at >= size / 2 {
        TailOverRemoves(v, size, at);
        moved := SlideTail(at);
      } else {
        moved := SlideHead(at);
        HeadOverRemoves(buffer[..], offset, mask, v, size, at);
        offset := Wrap(offset + 1, mask);
      }
      size := size - 1;
    }

    /** Moves each later element one slot forward. */
    method SlideTail(at: nat) returns (ghost moved: nat)
      requires Valid() && at < size
      modifies buffer
      ensures View(buffer[..], offset) == TailOver(old(View(buffer[..], offset)), at, size - 1)
      ensures moved == size - 1 - at
    {
      hide IsPow2, Wrap, View, Pos, TailOver;
      ghost var v, j := View(buffer[..], offset), at;
      var it := Wrap(offset + at, mask);
      var end := Wrap(offset + size - 1, mask);
      PosIs(offset, mask, at);
      PosIs(offset, mask, size - 1);
      TailOverStart(v, at);
      moved := 0;
      while it != end
        invariant at <= j <= size - 1 && moved == j - at
        invariant it == Pos(offset, mask, j)
        invariant View(buffer[..], offset) == TailOver(v, at, j)
        decreases size - j
      {
        var next := Wrap(it + 1, mask);
        PosStep(offset, mask, j);
        TailOverMove(buffer[..], offset, mask, v, at, j);
        StoreAt(it, j, buffer[next]);
        it := next;
        j := j + 1;
        moved := moved + 1;
      }
      PosInjective(offset, mask, j, size - 1);
    }

    /** Moves each earlier element one slot back. */
    method SlideHead(at: nat) returns (ghost moved: nat)
      requires Valid() && at < size
      modifies buffer
      ensures View(buffer[..], offset) == HeadOver(old(View(buffer[..], offset)), at, 0)
      ensures moved == at
    {
      hide IsPow2, Wrap, View, Pos, HeadOver;
      ghost var v, j: nat := View(buffer[..], offset), at;
      var it: int := Wrap(offset + at, mask);
      var end := Wrap(offset, mask);
      PosIs(offset, mask, at);
      PosIs(offset, mask, 0);
      HeadOverStart(v, at);
      moved := 0;
      while it != end
        invariant j <= at && moved == at - j
        invariant it == Pos(offset, mask, j)
        invariant View(buffer[..], offset) == HeadOver(v, at, j)
        decreases j
      {
        var next := Wrap(it - 1, mask);
        PosStep(offset, mask, j - 1);
        HeadOverMove(buffer[..], offset, mask, v, at, j);
        StoreAt(it, j, buffer[next]);
        it := next;
        j := j - 1;
        moved := moved + 1;
      }
      PosInjective(offset, mask, j, 0);
    }

    /** Overwrites the element at an index. */
    method OffsetSet(at: int, value: T) returns (ok: bool)
      requires Valid()
      modifies buffer
      ensures Valid() && (ok <==> 0 <= at < size)
      ensures Contents() == (var c := old(Contents()); if ok then c[at := value] else c)
    {
      if !(0 <= at < size) {
        return false;
      }
      hide IsPow2, Wrap;
      Store(offset, at, value);
      return true;
    }

    /** Moves the shorter side away from the insertion point and fills the gap. */
    method OpenGap(at: nat, argc: nat, args: seq<T>) returns (ghost moved: nat)
      requires Valid() && mask > 0 && at <= size && 0 < argc == |args| && size + argc <= mask + 1
      modifies this`offset, this`size, buffer
      ensures Valid() && size == old(size) + argc && GetShape() == old(GetShape()).(size := size)
      ensures Contents() == (var c := old(Contents()); c[..at] + args + c[at..])
      ensures moved <= (old(size) + 1) / 2
    {
      ghost var v := View(buffer[..], offset);
      ghost var c := Contents();
      hide IsPow2, Wrap, View;
      if at >= size / 2 {
        moved := ShiftTailBack(at, argc);
      } else {
        moved := ShiftHeadForward(at, argc);
      }
      GapFilled(View(buffer[..], offset), c, at, args);
      WriteFrom(at, args);
      size := size + argc;
    }

    /** Nearer the end: moves the tail, last element first, `argc` slots towards the back. */
    method ShiftTailBack(at: nat, argc: nat) returns (ghost moved: nat)
      requires Valid() && mask > 0 && at <= size && 0 < argc && size + argc <= mask + 1
      modifies buffer
      ensures GapAt(View(buffer[..], offset), old(Contents()), at, argc)
      ensures moved == size - at
    {
      hide IsPow2, Wrap, View, Pos, TailView;
      ghost var v, n, o := View(buffer[..], offset), size, offset;
      ghost var j: nat := size;
      var src := Wrap(offset + size, mask);
      var dst := src + argc;
      var srcEnd := Wrap(offset + at, mask);
      TailSlots(o, mask, size, argc, at);
      TailStart(v, n, argc);
      moved := 0;
      while src != srcEnd
        invariant at <= j <= n && moved == n - j
        invariant src == Pos(o, mask, j)
        invariant 0 <= dst < 2 * (mask + 1) && Wrap(dst, mask) == Pos(o, mask, j + argc)
        invariant View(buffer[..], o) == TailView(v, n, argc, j)
        decreases j
      {
        j := j - 1;
        TailSlotStep(o, mask, j, argc, dst);
        src := Wrap(src - 1, mask);
        dst := Wrap(dst - 1, mask);
        TailMove(buffer[..], o, mask, v, n, argc, j);
        StoreAt(dst, j + argc, buffer[src]);
        moved := moved + 1;
      }
      PosInjective(o, mask, j, at);
      TailGap(v, n, argc, at);
    }

    /** Nearer the front: moves the front back and the head, first element first, with it. */
    method ShiftHeadForward(at: nat, argc: nat) returns (ghost moved: nat)
      requires Valid() && mask > 0 && at < size / 2 && 0 < argc && size + argc <= mask + 1
      modifies this`offset, buffer
      ensures Valid() && GapAt(View(buffer[..], offset), old(Contents()), at, argc)
      ensures moved == at
    {
      hide IsPow2, Wrap, View, Pos, HeadView, GapAt;
      var src := offset;
      var dst := Wrap(offset - argc, mask);
      var srcEnd := Wrap(src + at, mask);
      HeadSlots(offset, mask, argc, at);
      HeadGap(buffer[..], offset, mask, size, argc, at);
      offset := dst;
      moved := MoveHead(src, dst, srcEnd, at, argc);
    }

    method MoveHead(src0: nat, dst0: nat, srcEnd: nat, ghost at: nat, ghost argc: nat) returns (ghost moved: nat)
      requires Valid() && mask > 0 && 0 < argc && argc + at <= mask
      requires src0 == Pos(offset, mask, argc) && dst0 == Pos(offset, mask, 0) && srcEnd == Pos(offset, mask, argc + at)
      modifies buffer
      ensures View(buffer[..], offset) == HeadView(old(View(buffer[..], offset)), argc, at)
      ensures moved == at
    {
      hide IsPow2, Wrap, View, Pos, HeadView;
      ghost var w, j: nat := View(buffer[..], offset), 0;
      var src, dst := src0, dst0;
      moved := 0;
      HeadStart(w, argc);
      while src != srcEnd
        invariant j <= at && moved == j
        invariant src == Pos(offset, mask, argc + j) && dst == Pos(offset, mask, j)
        invariant View(buffer[..], offset) == HeadView(w, argc, j)
        decreases at - j
      {
        HeadMove(buffer[..], offset, mask, w, argc, j);
        StoreAt(dst, j, buffer[src]);
        PosStep(offset, mask, argc + j);
        PosStep(offset, mask, j);
        src := Wrap(src + 1, mask);
        dst := Wrap(dst + 1, mask);
        j := j + 1;
        moved := moved + 1;
      }
      PosInjective(offset, mask, argc + j, argc + at);
    }

    /** Writes a physical slot that is known to be logical position `i`. */
    method StoreAt(slot: nat, ghost i: nat, x: T)
      requires Valid() && mask > 0 && i <= mask && slot == Pos(offset, mask, i)
      modifies buffer
      ensures View(buffer[..], offset) == old(View(buffer[..], offset))[i := x]
    {
      hide IsPow2, Wrap, View, Pos;
      ghost var b := buffer[..];
      ViewStorePos(b, offset, mask, i, x);
      buffer[slot] := x;
      assert buffer[..] == b[slot := x];
    }

    /** Makes room for `n` more elements. */
    method Reserve(n: nat) returns (outcome: Outcome)
      requires Valid() && n > 0
      modifies this`buffer, this`offset, this`mask, this`copied
      ensures Valid() && Contents() == old(Contents())
      ensures buffer == old(buffer) || fresh(buffer)
      ensures outcome == AfterPush(old(GetShape()), n, maxCapacity)
      ensures outcome == Done ==> size + n <= mask + 1 && mask > 0
      ensures GetShape() == if outcome == Done then RoomFor(old(GetShape()), size + n) else old(GetShape())
    {
      assert AfterPush(GetShape(), n, maxCapacity) ==
             if size + n <= Capacity() then Done else if size + n > MAX_CAPACITY then CapacityWrapped
             else if NextPow2(size + n, MIN_CAPACITY) <= maxCapacity then Done else CapacityExceeded;
      assert RoomFor(GetShape(), size + n) ==
             if size + n <= Capacity() then GetShape()
              else Shape(size, NextPow2(size + n, MIN_CAPACITY), copied + size);
      hide NextPow2, AfterPush, RoomFor;
      if size + n <= Capacity() {
        return Done;
      }
      // Beyond this the 32-bit sum or the 32-bit shift of the next power of two wraps around.
      if size + n > MAX_CAPACITY {
        return CapacityWrapped;
      }
      FourIsPow2();
      hide *;
      var ok := RaiseCapacity(NextPow2(size + n, MIN_CAPACITY));
      return if ok then Done else CapacityExceeded;
    }

    /** Writes values to consecutive logical positions, across the wrap point if need be. */
    method WriteFrom(at: nat, args: seq<T>)
      requires Valid() && mask > 0 && at + |args| <= mask + 1
      modifies buffer
      ensures View(buffer[..], offset) == (var v := old(View(buffer[..], offset)); v[..at] + args + v[at + |args|..])
    {
      hide IsPow2, Wrap, View;
      ghost var v := View(buffer[..], offset);
      for k := 0 to |args|
        invariant View(buffer[..], offset) == v[..at] + args[..k] + v[at + k..]
      {
        WriteStep(v, at, args, k);
        Store(offset, at + k, args[k]);
      }
    }
  }

  lemma PushFacts(s: Shape, n: nat)
    ensures n == 0 ==> PushShape(s, n) == s
    ensures n > 0 ==> PushShape(s, n) == RoomFor(s, s.size + n).(size := s.size + n)
    ensures forall max :: n == 0 ==> AfterPush(s, n, max) == Done
  {
    hide RoomFor;
  }

  lemma ReversedFacts<T>(args: seq<T>, c: seq<T>)
    ensures args == [] ==> Reversed(args) + c == c
  {
    if args == [] {
      ReversedEmpty(args);
    }
    hide Reversed;
  }

  lemma FourIsPow2()
    ensures IsPow2(MIN_CAPACITY)
  {
  }

  /** One value written before the front, seen from the new front. */
  lemma PrependOne<T>(b: seq<T>, o: nat, mask: nat, n: nat, args: seq<T>, k: nat, c: seq<T>)
    requires GoodMask(b, mask) && o <= mask && n <= mask && k < |args|
    requires View(b, o)[..n] == Reversed(args[..k]) + c
    ensures View(b, Wrap(o - 1, mask))[0 := args[k]][..n + 1] == Reversed(args[..k + 1]) + c
  {
    hide IsPow2, Wrap, View, Reversed;
    PrependView(b, o, mask, n, args[k]);
    PrependOneMore(args, k, c);
  }

  /** The elements before `at` and from `at` on are in place around a gap of `n` slots. */
  ghost predicate GapAt<T>(v: seq<T>, c: seq<T>, at: nat, n: nat)
    requires at <= |c|
  {
    |c| + n <= |v| && v[..at] == c[..at] && v[at + n..|c| + n] == c[at..]
  }

  lemma GapFilled<T>(v: seq<T>, c: seq<T>, at: nat, args: seq<T>)
    requires at <= |c| && GapAt(v, c, at, |args|)
    ensures (v[..at] + args + v[at + |args|..])[..|c| + |args|] == c[..at] + args + c[at..]
  {
  }

  /** The first source and target slots of a backward move. */
  lemma TailSlots(o: nat, mask: nat, n: nat, a: nat, at: nat)
    requires FrontOk(o, mask) && at <= n && n + a <= mask + 1 && a > 0
    ensures Wrap(o + n, mask) == Pos(o, mask, n) && Wrap(o + at, mask) == Pos(o, mask, at)
    ensures Wrap(Pos(o, mask, n) + a, mask) == Pos(o, mask, n + a)
  {
  }

  lemma HeadSlots(o: nat, mask: nat, a: nat, at: nat)
    requires FrontOk(o, mask) && a + at <= mask
    ensures var o' := Wrap(o - a, mask);
            && o == Pos(o', mask, a) && o' == Pos(o', mask, 0) && Wrap(o + at, mask) == Pos(o', mask, a + at)
  {
  }

  lemma TailSlotStep(o: nat, mask: nat, j: nat, a: nat, dst: nat)
    requires FrontOk(o, mask) && j + a <= mask && dst < 2 * (mask + 1)
    requires Wrap(dst, mask) == Pos(o, mask, j + 1 + a)
    ensures Wrap(Pos(o, mask, j + 1) - 1, mask) == Pos(o, mask, j)
    ensures Wrap(dst - 1, mask) == Pos(o, mask, j + a)
    ensures Wrap(Wrap(dst - 1, mask), mask) == Wrap(dst - 1, mask)
  {
    hide IsPow2, Wrap, Pos;
    PosStep(o, mask, j);
    PosStep(o, mask, j + a);
  }

  /** The buffer when the tail from `j` on has moved `a` positions back. */
  function TailView<T>(v: seq<T>, n: nat, a: nat, j: nat): seq<T>
    requires j <= n && n + a <= |v|
  {
    v[..j + a] + v[j..n] + v[n + a..]
  }

  lemma TailStart<T>(v: seq<T>, n: nat, a: nat)
    requires n + a <= |v|
    ensures TailView(v, n, a, n) == v
  {
  }

  lemma TailMove<T>(b: seq<T>, o: nat, mask: nat, v: seq<T>, n: nat, a: nat, j: nat)
    requires GoodMask(b, mask) && o <= mask && |v| == |b|
    requires j < n && n + a <= |v| && a > 0
    requires View(b, o) == TailView(v, n, a, j + 1)
    ensures View(b, o)[j + a := b[Pos(o, mask, j)]] == TailView(v, n, a, j)
  {
    hide IsPow2, Pos, View;
    ViewPos(b, o, mask, j);
  }

  lemma TailGap<T>(v: seq<T>, n: nat, a: nat, at: nat)
    requires at <= n && n + a <= |v|
    ensures GapAt(TailView(v, n, a, at), v[..n], at, a)
  {
  }

  /** The buffer, from its new front, when the first `j` elements have moved `a` positions forward. */
  function HeadView<T>(w: seq<T>, a: nat, j: nat): seq<T>
    requires a + j <= |w|
  {
    w[a..a + j] + w[j..]
  }

  lemma HeadStart<T>(w: seq<T>, a: nat)
    requires a <= |w|
    ensures HeadView(w, a, 0) == w
  {
  }

  lemma HeadMove<T>(b: seq<T>, o: nat, mask: nat, w: seq<T>, a: nat, j: nat)
    requires GoodMask(b, mask) && o <= mask && |w| == |b|
    requires a > 0 && a + j < |w|
    requires View(b, o) == HeadView(w, a, j)
    ensures View(b, o)[j := b[Pos(o, mask, a + j)]] == HeadView(w, a, j + 1)
  {
    hide IsPow2, Pos, View;
    ViewPos(b, o, mask, a + j);
  }

  /** Moving the front back by `a` and `at` elements with it opens a gap of `a` slots. */
  lemma HeadGap<T>(b: seq<T>, o: nat, mask: nat, n: nat, a: nat, at: nat)
    requires GoodMask(b, mask) && o <= mask && at <= n && n + a <= mask + 1
    ensures GapAt(HeadView(View(b, Wrap(o - a, mask)), a, at), View(b, o)[..n], at, a)
  {
    ViewBack(b, o, mask, a);
    hide IsPow2, Wrap, View;
    RotatedGap(View(b, o), View(b, Wrap(o - a, mask)), n, a, at);
  }

  lemma RotatedGap<T>(v: seq<T>, w: seq<T>, n: nat, a: nat, at: nat)
    requires at <= n && n + a <= |v| && w == v[|v| - a..] + v[..|v| - a]
    ensures GapAt(HeadView(w, a, at), v[..n], at, a)
  {
    assert w[a..] == v[..|v| - a];
    var r := HeadView(w, a, at);
    assert r[..at] == w[a..a + at] == w[a..][..at] == v[..at];
    assert r[at + a..n + a] == w[at + a..n + a] == w[a..][at..n] == v[at..n];
    assert v[..n][..at] == v[..at] && v[..n][at..] == v[at..n];
  }

  /** The buffer when elements `at + 1..j + 1` have moved one position forward, over the removed one. */
  function TailOver<T>(v: seq<T>, at: nat, j: nat): seq<T>
    requires at <= j < |v|
  {
    v[..at] + v[at + 1..j + 1] + v[j..]
  }

  lemma TailOverStart<T>(v: seq<T>, at: nat)
    requires at < |v|
    ensures TailOver(v, at, at) == v
  {
  }

  lemma TailOverMove<T>(b: seq<T>, o: nat, mask: nat, v: seq<T>, at: nat, j: nat)
    requires GoodMask(b, mask) && o <= mask && |v| == |b|
    requires at <= j < mask && View(b, o) == TailOver(v, at, j)
    ensures View(b, o)[j := b[Pos(o, mask, j + 1)]] == TailOver(v, at, j + 1)
  {
    hide IsPow2, Pos, View;
    ViewPos(b, o, mask, j + 1);
  }

  lemma TailOverRemoves<T>(v: seq<T>, n: nat, at: nat)
    requires at < n <= |v|
    ensures TailOver(v, at, n - 1)[..n - 1] == v[..n][..at] + v[..n][at + 1..]
  {
  }

  /** The buffer when elements `j..at` have moved one position back, over the removed one. */
  function HeadOver<T>(v: seq<T>, at: nat, j: nat): seq<T>
    requires j <= at < |v|
  {
    v[..j + 1] + v[j..at] + v[at + 1..]
  }

  lemma HeadOverStart<T>(v: seq<T>, at: nat)
    requires at < |v|
    ensures HeadOver(v, at, at) == v
  {
  }

  lemma HeadOverMove<T>(b: seq<T>, o: nat, mask: nat, v: seq<T>, at: nat, j: nat)
    requires GoodMask(b, mask) && o <= mask && |v| == |b|
    requires 0 < j <= at <= mask && View(b, o) == HeadOver(v, at, j)
    ensures View(b, o)[j := b[Pos(o, mask, j - 1)]] == HeadOver(v, at, j - 1)
  {
    hide IsPow2, Pos, View;
    ViewPos(b, o, mask, j - 1);
  }

  /** Then the front moves forward by one, past the slot that was vacated. */
  lemma HeadOverRemoves<T>(b: seq<T>, o: nat, mask: nat, v: seq<T>, n: nat, at: nat)
    requires GoodMask(b, mask) && o <= mask && at < n <= mask + 1 && |v| == |b|
    requires View(b, o) == HeadOver(v, at, 0)
    ensures View(b, Wrap(o + 1, mask))[..n - 1] == v[..n][..at] + v[..n][at + 1..]
  {
    ViewForward(b, o, mask);
    hide IsPow2, Wrap, View;
    assert HeadOver(v, at, 0)[1..] == v[..at] + v[at + 1..];
  }

  lemma WriteStep<T>(v: seq<T>, at: nat, args: seq<T>, k: nat)
    requires k < |args| && at + |args| <= |v|
    ensures (v[..at] + args[..k] + v[at + k..])[at + k := args[k]] == v[..at] + args[..k + 1] + v[at + (k + 1)..]
  {
  }

  // ----- What each operation does to the shape -----

  /** What adding `n` elements leads to: nothing when they fit the storage, the limit or 32 bits otherwise. */
  function AfterPush(s: Shape, n: nat, maxCapacity: nat): Outcome {
    if n == 0 || s.size + n <= s.capacity then Done
    else if s.size + n > MAX_CAPACITY then CapacityWrapped
    else if NextPow2(s.size + n, MIN_CAPACITY) <= maxCapacity then Done
    else CapacityExceeded
  }

  function PushShape(s: Shape, n: nat): Shape {
    if n == 0 then s else RoomFor(s, s.size + n).(size := s.size + n)
  }

  function PopShape(s: Shape): Shape {
    if s.size == 0 then s else MaybeShrink(s.(size := s.size - 1), s.size)
  }

  function UnsetShape(s: Shape): Shape {
    if s.size == 0 then s else MaybeShrink(s.(size := s.size - 1), s.size - 1)
  }
}
