/**
 Binary search over the slots of a PHP array, some of which are holes left by deletions. Slots hold the key
 or the value that is compared, as the caller asks; `compare` answers how the target compares with one of them.
 */
module BinarySearch {
  import opened Wrappers

  /** What is reported: a slot, and whether its entry equals the target. */
  datatype Outcome = Outcome(found: bool, at: nat)

  /** Entries below the target come first, then those equal to it, then those above. */
  ghost predicate InOrder<T(!new)>(slots: seq<Option<T>>, compare: T -> int) {
    forall i, j :: 0 <= i < j < |slots| && slots[i].Some? && slots[j].Some? ==>
      && (compare(slots[j].value) > 0 ==> compare(slots[i].value) > 0)
      && (compare(slots[i].value) < 0 ==> compare(slots[j].value) < 0)
  }

  ghost predicate Below<T(!new)>(slots: seq<Option<T>>, compare: T -> int, i: nat) {
    i < |slots| && slots[i].Some? && compare(slots[i].value) > 0
  }

  ghost predicate Equal<T(!new)>(slots: seq<Option<T>>, compare: T -> int, i: nat) {
    i < |slots| && slots[i].Some? && compare(slots[i].value) == 0
  }

  ghost predicate Above<T(!new)>(slots: seq<Option<T>>, compare: T -> int, i: nat) {
    i < |slots| && slots[i].Some? && compare(slots[i].value) < 0
  }

  /** Every live slot from `start` up to `end` is below the target. */
  ghost predicate AllBelow<T(!new)>(slots: seq<Option<T>>, compare: T -> int, start: nat, end: nat) {
    forall i :: start <= i < end && i < |slots| && slots[i].Some? ==> Below(slots, compare, i)
  }

  ghost predicate AllAbove<T(!new)>(slots: seq<Option<T>>, compare: T -> int, start: nat, end: nat) {
    forall i :: start <= i < end && i < |slots| && slots[i].Some? ==> Above(slots, compare, i)
  }

  method Search<T(!new)>(slots: seq<Option<T>>, compare: T -> int) returns (r: Option<Outcome>)
    ensures r.Some? && r.value.found ==> Equal(slots, compare, r.value.at)
    ensures r.Some? && !r.value.found ==> Below(slots, compare, r.value.at)
    ensures InOrder(slots, compare) && (r == None || !r.value.found) ==>
              && AllBelow(slots, compare, 0, if r == None then 0 else r.value.at + 1)
              && AllAbove(slots, compare, if r == None then 0 else r.value.at + 1, |slots|)
  {
    var start: nat, end: nat := 0, |slots|;
    var largestSmaller: Option<nat> := None;
    while start < end
      invariant end <= |slots|
      invariant largestSmaller == None ==> start == 0
      invariant largestSmaller.Some? ==>
                start == largestSmaller.value + 1 && Below(slots, compare, largestSmaller.value)
      invariant InOrder(slots, compare) ==> AllBelow(slots, compare, 0, start) && AllAbove(slots, compare, end, |slots|)
      invariant start <= end
      decreases end - start
    {
      var midOrig := start + (end - start) / 2;
      var mid := midOrig;
      while mid < end && slots[mid].None?
        invariant midOrig <= mid <= end
        invariant forall i :: midOrig <= i < mid ==> slots[i].None?
      {
        mid := mid + 1;
      }
      if mid >= end {
        end := midOrig;
        continue;
      }
      var result := compare(slots[mid].value);
      if result == 0 {
        return Some(Outcome(true, mid));
      }
      if result > 0 {
        largestSmaller := Some(mid);
        start := mid + 1;
      } else {
        end := midOrig;
      }
    }
    if largestSmaller == None {
      return None;
    }
    return Some(Outcome(false, largestSmaller.value));
  }

  // ----- What a caller may conclude -----

  /** The entries ascend by `order`. */
  ghost predicate Ascending<T(!new)>(slots: seq<Option<T>>, order: (T, T) -> int) {
    forall i, j :: 0 <= i < j < |slots| && slots[i].Some? && slots[j].Some? ==>
      order(slots[i].value, slots[j].value) <= 0
  }

  ghost predicate TotalPreorder<T(!new)>(order: (T, T) -> int) {
    && (forall a, b :: order(a, b) < 0 <==> order(b, a) > 0)
    && (forall a, b, c :: order(a, b) <= 0 && order(b, c) <= 0 ==> order(a, c) <= 0)
  }

  /** An ascending array is in order for every target, wherever the holes are. */
  lemma AscendingIsInOrder<T(!new)>(slots: seq<Option<T>>, order: (T, T) -> int, target: T)
    requires TotalPreorder(order) && Ascending(slots, order)
    ensures InOrder(slots, (x: T) => order(target, x))
  {
  }

  /**
   Searching an ascending array: an equal entry if there is one, else the last live entry below the target,
   else nothing.
   */
  method SearchAscending<T(!new)>(slots: seq<Option<T>>, order: (T, T) -> int, target: T) returns (r: Option<Outcome>)
    requires TotalPreorder(order) && Ascending(slots, order)
    ensures (r.Some? && r.value.found) <==>
            exists i: nat :: i < |slots| && slots[i].Some? && order(target, slots[i].value) == 0
    ensures r.Some? && r.value.found ==>
              r.value.at < |slots| && slots[r.value.at].Some? && order(target, slots[r.value.at].value) == 0
    ensures r.Some? && !r.value.found ==>
              && r.value.at < |slots| && slots[r.value.at].Some? && order(target, slots[r.value.at].value) > 0
              && forall i :: r.value.at < i < |slots| && slots[i].Some? ==> order(target, slots[i].value) < 0
    ensures r == None ==> forall i :: 0 <= i < |slots| && slots[i].Some? ==> order(target, slots[i].value) < 0
  {
    ghost var compare := (x: T) => order(target, x);
    AscendingIsInOrder(slots, order, target);
    r := Search(slots, x => order(target, x));
    if r == None || !r.value.found {
      forall i: nat | i < |slots| && slots[i].Some?
        ensures compare(slots[i].value) != 0
        ensures i >= (if r == None then 0 else r.value.at + 1) ==> compare(slots[i].value) < 0
      {
        assert i < (if r == None then 0 else r.value.at + 1) ==> Below(slots, compare, i);
        assert i >= (if r == None then 0 else r.value.at + 1) ==> Above(slots, compare, i);
      }
    }
  }
}
