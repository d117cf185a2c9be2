/**
 What resizing costs a Deque over whole runs. Each operation's effect on size, capacity and copied elements
 is the one its method guarantees; here any run of single-element operations is bounded.
 */
module DequeCost {
  import opened Bitwise
  import opened Deques

  datatype Step =
    | Push | PushFront | InsertOne(at: int)
    | Pop | PopFront | Unset(at: int)

  function Effect(s: Shape, step: Step, maxCapacity: nat): Shape {
    match step
    case Push | PushFront => if AfterPush(s, 1, maxCapacity) == Done then PushShape(s, 1) else s
    case InsertOne(at) => if 0 <= at <= s.size && AfterPush(s, 1, maxCapacity) == Done then PushShape(s, 1) else s
    case Pop | PopFront => PopShape(s)
    case Unset(at) => if 0 <= at < s.size then UnsetShape(s) else s
  }

  function RunShape(steps: seq<Step>, maxCapacity: nat): Shape {
    if |steps| == 0 then Shape(0, 0, 0)
    else Effect(RunShape(steps[..|steps| - 1], maxCapacity), steps[|steps| - 1], maxCapacity)
  }

  /** Storage is a power of two, holds the elements, and is never more than four times as large as needed. */
  predicate Sound(s: Shape) {
    && s.size <= s.capacity <= 0x8000_0000
    && (s.capacity > 0 ==> IsPow2(s.capacity) && MIN_CAPACITY <= s.capacity)
    && (s.capacity > MIN_CAPACITY ==> s.capacity <= 4 * s.size)
  }

  /** Distance from a half-full buffer, counting twice what lies above it. */
  function Potential(s: Shape): int {
    if 2 * s.size >= s.capacity then 2 * s.size - s.capacity else s.capacity / 2 - s.size
  }

  lemma Grown(s: Shape)
    requires Sound(s)
    ensures s.size < s.capacity ==> PushShape(s, 1) == s.(size := s.size + 1)
    ensures s.size == s.capacity ==>
              PushShape(s, 1) ==
               Shape(s.size + 1, if s.capacity == 0 then MIN_CAPACITY else 2 * s.capacity, s.copied + s.size)
  {
    if s.size == s.capacity {
      assert IsPow2(MIN_CAPACITY);
      var r := NextPow2(s.size + 1, MIN_CAPACITY);
      if s.capacity > 0 {
        Pow2Gap(s.capacity, r);
        assert r % 2 == 0;
      }
    }
  }

  lemma Shrunk(s: Shape, threshold: nat)
    requires s.capacity <= 0x8000_0000
    requires s.capacity > 0 ==> IsPow2(s.capacity) && MIN_CAPACITY <= s.capacity
    requires s.size <= threshold <= s.size + 1
    ensures MaybeShrink(s, threshold) ==
            if s.capacity > MIN_CAPACITY && 0 < threshold <= s.capacity / 4
            then Shape(s.size, s.capacity / 2, s.copied + s.size) else s
    ensures s.capacity > MIN_CAPACITY ==> s.capacity % 8 == 0 && IsPow2(s.capacity / 2)
  {
    if s.capacity > MIN_CAPACITY {
      assert IsPow2(MIN_CAPACITY);
      Pow2Gap(MIN_CAPACITY, s.capacity);
      assert IsPow2(s.capacity / 2) && IsPow2(s.capacity / 4) && s.capacity / 4 > 1;
    }
  }

  /** `t` is sound and cost at most two elements more than the potential it released. */
  predicate Paid(s: Shape, t: Shape) {
    Sound(t) && t.copied + Potential(t) <= s.copied + Potential(s) + 2
  }

  lemma PushCost(s: Shape, maxCapacity: nat)
    requires Sound(s) && maxCapacity <= 0x8000_0000 && AfterPush(s, 1, maxCapacity) == Done
    ensures Paid(s, PushShape(s, 1))
  {
    Grown(s);
    assert IsPow2(MIN_CAPACITY);
    if s.size == s.capacity > 0 {
      Pow2Twice(s.capacity);
    }
    hide IsPow2, RoomFor;
  }

  lemma RemoveCost(s: Shape, threshold: nat)
    requires Sound(s) && s.size > 0 && s.size - 1 <= threshold <= s.size
    ensures Paid(s, MaybeShrink(s.(size := s.size - 1), threshold))
  {
    Shrunk(s.(size := s.size - 1), threshold);
    hide IsPow2, MaybeShrink;
  }

  /** One operation pays for its resize with at most two elements of potential. */
  lemma StepCost(s: Shape, step: Step, maxCapacity: nat)
    requires Sound(s) && maxCapacity <= 0x8000_0000
    ensures Paid(s, Effect(s, step, maxCapacity))
  {
    hide AfterPush, PushShape, MaybeShrink, IsPow2;
    match step
    case Push | PushFront | InsertOne(_) =>
      if AfterPush(s, 1, maxCapacity) == Done {
        PushCost(s, maxCapacity);
      }
    case Pop | PopFront =>
      if s.size > 0 {
        RemoveCost(s, s.size);
      }
    case Unset(_) =>
      if s.size > 0 {
        RemoveCost(s, s.size - 1);
      }
  }

  /**
   Any `m` single-element operations on a Deque that starts empty copy at most `2 * m` elements in all
   resizes together, and after each of them the storage fits within four times the number of elements.
   */
  lemma {:induction false} RunCost(steps: seq<Step>, maxCapacity: nat)
    requires maxCapacity <= 0x8000_0000
    ensures var s := RunShape(steps, maxCapacity);
            && Sound(s) && s.copied + Potential(s) <= 2 * |steps| && s.copied <= 2 * |steps|
            && s.size <= s.capacity && (s.capacity > 4 ==> s.capacity <= 4 * s.size)
  {
    if |steps| > 0 {
      RunCost(steps[..|steps| - 1], maxCapacity);
      StepCost(RunShape(steps[..|steps| - 1], maxCapacity), steps[|steps| - 1], maxCapacity);
    }
  }

  // ----- The steps on a Deque -----

  method PerformStep<T(0)>(d: Deque<T>, step: Step, x: T)
    requires d.Valid()
    modifies d, d.buffer
    ensures d.Valid() && (d.buffer == old(d.buffer) || fresh(d.buffer))
    ensures d.GetShape() == Effect(old(d.GetShape()), step, d.maxCapacity)
  {
    hide AfterPush, PushShape, PopShape, UnsetShape;
    match step
    case Push =>
      var _ := d.Push([x]);
    case PushFront =>
      var _ := d.PushFront([x]);
    case InsertOne(at) =>
      var _, _ := d.Insert(at, [x]);
    case Pop =>
      var _ := d.Pop();
    case PopFront =>
      var _ := d.PopFront();
    case Unset(at) =>
      var _, _ := d.OffsetUnset(at);
  }

  /** Any run of single-element operations on an empty Deque copies at most two elements for each. */
  method RunSteps<T(0)>(d: Deque<T>, steps: seq<Step>, x: T)
    requires d.Valid() && d.GetShape() == Shape(0, 0, 0)
    modifies d, d.buffer
    ensures d.Valid() && d.GetShape() == RunShape(steps, d.maxCapacity) && Sound(d.GetShape())
    ensures d.copied <= 2 * |steps|
  {
    assert RunShape(steps[..0], d.maxCapacity) == Shape(0, 0, 0);
    hide Effect, RunShape, Sound;
    for i := 0 to |steps|
      invariant d.Valid() && (d.buffer == old(d.buffer) || fresh(d.buffer))
      invariant d.GetShape() == RunShape(steps[..i], d.maxCapacity)
    {
      RunShapeStep(steps, i, d.maxCapacity);
      PerformStep(d, steps[i], x);
    }
    assert steps[..|steps|] == steps;
    RunCost(steps, d.maxCapacity);
  }

  lemma RunShapeStep(steps: seq<Step>, i: nat, maxCapacity: nat)
    requires i < |steps|
    ensures RunShape(steps[..i + 1], maxCapacity) == Effect(RunShape(steps[..i], maxCapacity), steps[i], maxCapacity)
  {
    assert steps[..i + 1][..i] == steps[..i];
  }
}
