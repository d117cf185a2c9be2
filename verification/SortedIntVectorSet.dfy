/**
 Teds\SortedIntVectorSet: a set of integers kept as a strictly ascending IntVector.
 */
module SortedIntVectorSets {
  import opened Lists
  import opened Float64s
  import opened IntVectors
  import opened Deduplication
  import opened Sorting

  ghost predicate Ascending(s: seq<int>) {
    forall i, j :: 0 <= i < j < |s| ==> s[i] <= s[j]
  }

  ghost predicate StrictlyAscending(s: seq<int>) {
    forall i, j :: 0 <= i < j < |s| ==> s[i] < s[j]
  }

  ghost function Members(s: seq<int>): set<int> {
    set x | x in s
  }

  /** Storage is allocated before the type is promoted, so no operation frees the static empty list. */
  ghost predicate ValidSet(v: IntVector)
    reads v, v.entries
  {
    v.Valid() && StrictlyAscending(v.Contents()) && (v.capacity > 0 || v.typeTag == UNINITIALIZED)
  }

  // ----- Search -----

  /** The binary search that every operation repeats: the value, or where it would go. */
  method Locate(v: IntVector, target: int) returns (found: bool, at: nat)
    requires ValidSet(v)
    ensures found ==> at < v.size && v.entries[at] == target
    ensures !found ==> at <= v.size && target !in v.Contents()
    ensures !found ==> forall i :: 0 <= i < at ==> v.entries[i] < target
    ensures !found ==> forall i :: at <= i < v.size ==> v.entries[i] > target
  {
    var start: nat, end: nat := 0, v.size;
    assert forall i, j :: 0 <= i < j < v.size ==> v.Contents()[i] < v.Contents()[j];
    hide Fits, AllFit, TagFor;
    while start < end
      invariant start <= end <= v.size
      invariant forall i :: 0 <= i < start ==> v.entries[i] < target
      invariant forall i :: end <= i < v.size ==> v.entries[i] > target
    {
      var mid := start + (end - start) / 2;
      if target < v.entries[mid] {
        end := mid;
      } else if target > v.entries[mid] {
        start := mid + 1;
      } else {
        return true, mid;
      }
    }
    return false, start;
  }

  method Contains(v: IntVector, value: Int64) returns (r: bool)
    requires ValidSet(v)
    ensures r <==> value in v.Contents()
  {
    if v.size == 0 {
      return false;
    }
    if Cast(value, v.typeTag) != value {
      TooWideIsAbsent(v, value);
      return false;
    }
    var at;
    r, at := Locate(v, Cast(value, v.typeTag));
  }

  /** A value that the current width cannot hold is not stored. */
  lemma TooWideIsAbsent(v: IntVector, value: Int64)
    requires v.Valid() && v.size > 0 && v.typeTag != UNINITIALIZED && !Fits(value, v.typeTag)
    ensures value !in v.Contents()
  {
  }

  datatype Index = At(offset: nat) | NullIndex | FalseIndex

  /** Documented as an offset or null; a value too wide for the current type is answered with false. */
  method IndexOf(v: IntVector, value: Int64) returns (r: Index)
    requires ValidSet(v)
    ensures r.At? ==> r.offset < v.size && v.Contents()[r.offset] == value
    ensures r.At? <==> value in v.Contents()
    ensures r == FalseIndex <==> v.Contents() != [] && !Fits(value, TagFor(v.offered))
  {
    if v.size == 0 {
      return NullIndex;
    }
    if Cast(value, v.typeTag) != value {
      TooWideIsAbsent(v, value);
      return FalseIndex;
    }
    var found, at := Locate(v, Cast(value, v.typeTag));
    return if found then At(at) else NullIndex;
  }

  /** An input on which the answer is neither of those documented. */
  method IndexOfTooWide() returns (r: Index)
    ensures r == FalseIndex
  {
    hide *;
    var v := Construct([1]);
    OneByteIsEnoughForOne();
    NoMembers([1]);
    NoMembers(v.Contents());
    r := IndexOf(v, 1000);
  }

  lemma OneByteIsEnoughForOne()
    ensures TagFor([1]) == INT8 && !Fits(1000, INT8)
  {
    FitsIsRange(1, INT8);
    FitsIsRange(1000, INT8);
    TagOfIsNarrowest(1, INT8);
    assert [1][..0] == [];
    hide Fits, Cast, TagOf;
  }

  // ----- Add and remove -----

  method Add(v: IntVector, value: Int64) returns (added: bool)
    requires ValidSet(v)
    modifies v, v.entries
    ensures ValidSet(v) && (added <==> value !in old(v.Contents()))
    ensures Members(v.Contents()) == old(Members(v.Contents())) + {value}
    ensures v.offered == old(v.offered) + [value]
    ensures v.entries == old(v.entries) || fresh(v.entries)
  {
    hide Fits, AllFit, TagFor, Members, StrictlyAscending;
    var oldSize := v.size;
    var badFree := v.UpdateTypeTag(value);
    assert !badFree;
    if oldSize >= v.capacity {
      v.Reallocate(if oldSize > 2 then oldSize * 2 else 4);
    }
    var found, at := Locate(v, value);
    if found {
      AlreadyMember(v.Contents(), at);
      return false;
    }
    ghost var s := v.Contents();
    Spliced(s, at, value);
    FitsAlone(value, v.typeTag);
    v.SpliceAt(at, [value]);
    return true;
  }

  lemma AlreadyMember(s: seq<int>, at: nat)
    requires at < |s|
    ensures s[at] in s && Members(s) == Members(s) + {s[at]}
  {
  }

  lemma FitsAlone(value: int, tag: nat)
    requires INT8 <= tag <= INT64 && Fits(value, tag)
    ensures AllFit([value], tag)
  {
  }

  lemma Spliced(s: seq<int>, at: nat, value: int)
    requires StrictlyAscending(s) && at <= |s|
    requires (forall i :: 0 <= i < at ==> s[i] < value) && (forall i :: at <= i < |s| ==> s[i] > value)
    ensures StrictlyAscending(s[..at] + [value] + s[at..])
    ensures Members(s[..at] + [value] + s[at..]) == Members(s) + {value}
  {
  }

  method Remove(v: IntVector, value: Int64) returns (removed: bool)
    requires ValidSet(v)
    modifies v, v.entries
    ensures ValidSet(v) && (removed <==> value in old(v.Contents()))
    ensures Members(v.Contents()) == old(Members(v.Contents())) - {value}
    ensures v.offered == old(v.offered)
    ensures v.entries == old(v.entries) || fresh(v.entries)
  {
    if v.size == 0 {
      return false;
    }
    if Cast(value, v.typeTag) != value {
      TooWideIsAbsent(v, value);
      return false;
    }
    hide Fits, AllFit, TagFor, Cast;
    var found, at := Locate(v, value);
    if !found {
      return false;
    }
    Cut(v.Contents(), at);
    var oldSize := v.size;
    v.RemoveAt(at);
    v.ShrinkIfSparse(oldSize);
    return true;
  }

  lemma Cut(s: seq<int>, at: nat)
    requires StrictlyAscending(s) && at < |s|
    ensures StrictlyAscending(s[..at] + s[at + 1..])
    ensures s[at] in s && Members(s[..at] + s[at + 1..]) == Members(s) - {s[at]}
  {
  }

  // ----- Construction -----

  /** Pushes every value, then sorts and keeps one of each. */
  method Construct(values: seq<Int64>) returns (v: IntVector)
    ensures fresh(v) && fresh(v.entries) && ValidSet(v) && v.size <= v.entries.Length && v.offered == values
    ensures Members(v.Contents()) == Members(values)
  {
    v := new IntVector();
    hide Fits, AllFit, TagFor, Members, StrictlyAscending;
    for i := 0 to |values|
      invariant fresh(v) && fresh(v.entries) && v.Valid() && (v.capacity > 0 || v.typeTag == UNINITIALIZED)
      invariant v.Contents() == values[..i] && v.offered == values[..i]
    {
      var badFree := v.Push(values[i]);
      assert !badFree;
    }
    assert values[..|values|] == values && v.Contents() == values;
    SortAndDeduplicate(v);
  }

  method IsSorted(v: IntVector) returns (r: bool)
    requires v.Valid()
    ensures r <==> StrictlyAscending(v.Contents())
  {
    hide Fits, AllFit, TagFor;
    var i := 1;
    while i < v.size
      invariant v.size > 0 ==> 1 <= i <= v.size
      invariant forall a, b :: 0 <= a < b < i && b < v.size ==> v.entries[a] < v.entries[b]
    {
      if v.entries[i] <= v.entries[i - 1] {
        assert !(v.Contents()[i - 1] < v.Contents()[i]);
        return false;
      }
      i := i + 1;
    }
    return true;
  }

  /** What the library's sort leaves. */
  function SortedInts(s: seq<int>): seq<int> {
    Sorted((a: int, b: int) => a <= b, s)
  }

  lemma SortedIntsAscend(s: seq<int>)
    ensures Ascending(SortedInts(s)) && multiset(SortedInts(s)) == multiset(s)
  {
    SortedIsOrdered((a: int, b: int) => a <= b, s);
    SortedPermutes((a: int, b: int) => a <= b, s);
  }

  /** Sorts unless the array is strictly ascending already, then drops duplicates. */
  method SortAndDeduplicate(v: IntVector)
    requires v.Valid() && (v.capacity > 0 || v.typeTag == UNINITIALIZED)
    modifies v`size, v.entries
    ensures ValidSet(v) && Members(v.Contents()) == old(Members(v.Contents()))
  {
    if v.size <= 1 {
      return;
    }
    var alreadySorted := IsSorted(v);
    if alreadySorted {
      return;
    }
    ghost var s := v.Contents();
    var sorted := SortedInts(v.entries[..v.size]);
    SortedIntsAscend(s);
    SameMembers(s, sorted);
    AllFitMembers(s, sorted, v.typeTag);
    hide AllFit, TagFor, SortedInts;
    forall i | 0 <= i < v.size { v.entries[i] := sorted[i]; }
    assert v.Contents() == sorted;
    DropDuplicates(v);
  }

  lemma SameMembers(s: seq<int>, t: seq<int>)
    requires multiset(s) == multiset(t)
    ensures |s| == |t| && Members(s) == Members(t) && forall x :: x in t <==> x in s
  {
    assert |multiset(s)| == |s| && |multiset(t)| == |t|;
    assert forall x :: x in s <==> x in multiset(s);
    assert forall x :: x in t <==> x in multiset(t);
  }

  /** While neighbours differ, nothing is dropped; the first repeated element is. */
  lemma Repeats(s: seq<int>, i: nat)
    requires 0 < i < |s| && Deduplicated(s[..i]) == s[..i]
    ensures Deduplicated(s[..i + 1]) == if s[i] == s[i - 1] then s[..i] else s[..i + 1]
  {
    DeduplicatedStep(s, i);
    hide Deduplicated;
    assert s[..i + 1] == s[..i] + [s[i]];
  }

  /** The first element that equals its neighbour below, or the length. */
  method FirstDuplicate(v: IntVector, ghost s: seq<int>) returns (i: nat)
    requires 0 < v.size <= v.entries.Length && v.entries[..v.size] == s
    ensures 0 < i <= v.size && Deduplicated(s[..i]) == s[..i]
    ensures i < v.size ==> Deduplicated(s[..i + 1]) == s[..i]
  {
    assert Deduplicated(s[..1]) == s[..1];
    assert forall k :: 0 <= k < v.size ==> v.entries[k] == s[k];
    hide *;
    i := 1;
    while i < v.size
      invariant 0 < i <= v.size && Deduplicated(s[..i]) == s[..i]
    {
      Repeats(s, i);
      if v.entries[i] == v.entries[i - 1] {
        return;
      }
      i := i + 1;
    }
  }

  /** Closes up the gaps that equal neighbours leave. */
  method DropDuplicates(v: IntVector)
    requires v.Valid() && v.size > 0 && Ascending(v.Contents()) && v.capacity > 0
    modifies v`size, v.entries
    ensures ValidSet(v) && v.Contents() == Deduplicated(old(v.Contents()))
    ensures Members(v.Contents()) == old(Members(v.Contents()))
  {
    ghost var s := v.Contents();
    DeduplicatedSet(s);
    AllFitMembers(s, Deduplicated(s), v.typeTag);
    hide AllFit, TagFor, Deduplicated, Members, StrictlyAscending, Ascending, Fits;
    DropFrom(v, s);
  }

  method DropFrom(v: IntVector, ghost s: seq<int>)
    requires 0 < v.size <= v.entries.Length && v.entries[..v.size] == s
    modifies v`size, v.entries
    ensures v.size <= v.entries.Length && v.entries[..v.size] == Deduplicated(s)
  {
    hide *;
    assert s[..|s|] == s;
    var i := FirstDuplicate(v, s);
    if i < v.size {
      CloseUp(v, s, i);
    }
  }

  /** From the first duplicate on, keeps an element when it differs from the last one kept. */
  method CloseUp(v: IntVector, ghost s: seq<int>, first: nat)
    requires 0 < first < v.size <= v.entries.Length && v.entries[..v.size] == s
    requires Deduplicated(s[..first]) == s[..first] == Deduplicated(s[..first + 1])
    modifies v`size, v.entries
    ensures v.size <= v.entries.Length && v.entries[..v.size] == Deduplicated(s)
  {
    assert Closing(v.entries[..], s, first - 1, first + 1);
    hide *;
    var kept := KeepDistinct(v.entries, v.size, first - 1, first + 1, s);
    v.size := kept;
  }

  /** The inner loop: `j` is the last element kept, `i` the next one looked at. */
  method KeepDistinct(entries: array<int>, len: nat, last: nat, next: nat, ghost s: seq<int>) returns (kept: nat)
    requires next <= len == |s| <= entries.Length && Closing(entries[..], s, last, next)
    modifies entries
    ensures kept <= entries.Length && entries[..kept] == Deduplicated(s)
  {
    hide *;
    var j: nat, i: nat := last, next;
    while i < len
      invariant i <= len && Closing(entries[..], s, j, i)
    {
      ClosingStep(entries[..], s, j, i);
      if entries[i] != entries[j] {
        j := j + 1;
        entries[j] := entries[i];
      }
      i := i + 1;
    }
    ClosingDone(entries[..], s, j);
    kept := j + 1;
  }

  /** Elements up to `j` are those kept from the first `i`; the rest of the list is untouched. */
  ghost predicate Closing(e: seq<int>, s: seq<int>, j: nat, i: nat) {
    && j < i <= |s| <= |e|
    && e[..j + 1] == Deduplicated(s[..i])
    && e[i..|s|] == s[i..]
  }

  lemma ClosingStep(e: seq<int>, s: seq<int>, j: nat, i: nat)
    requires Closing(e, s, j, i) && i < |s|
    ensures j < i < |e|
    ensures e[i] != e[j] ==> Closing(e[j + 1 := e[i]], s, j + 1, i + 1)
    ensures e[i] == e[j] ==> Closing(e, s, j, i + 1)
  {
    DeduplicatedStep(s, i);
    hide Deduplicated;
    assert e[i] == e[i..|s|][0] == s[i];
    assert e[j] == e[..j + 1][j];
    assert e[i + 1..|s|] == e[i..|s|][1..];
    var f := e[j + 1 := e[i]];
    assert f[..j + 2] == e[..j + 1] + [e[i]];
    assert f[i + 1..|s|] == e[i + 1..|s|];
  }

  lemma ClosingDone(e: seq<int>, s: seq<int>, j: nat)
    requires Closing(e, s, j, |s|)
    ensures j < |e| && e[..j + 1] == Deduplicated(s)
  {
    assert s[..|s|] == s;
  }

  lemma DeduplicatedSet(s: seq<int>)
    requires Ascending(s)
    ensures StrictlyAscending(Deduplicated(s)) && Members(Deduplicated(s)) == Members(s)
    ensures forall x :: x in Deduplicated(s) ==> x in s
  {
    DeduplicatedAscends(s);
    DeduplicatedMembers(s);
  }

  lemma {:induction false} DeduplicatedAscends(s: seq<int>)
    requires Ascending(s)
    ensures StrictlyAscending(Deduplicated(s))
  {
    if s != [] {
      var n := |s| - 1;
      DeduplicatedAscends(s[..n]);
      var us := Deduplicated(s[..n]);
      assert us != [] ==> us[|us| - 1] == s[n - 1] <= s[n];
    }
  }

  // ----- Runs -----

  datatype Op = AddOp(value: Int64) | RemoveOp(value: Int64)

  /** One operation on the mathematical set. */
  function Step(m: set<int>, op: Op): set<int> {
    match op
    case AddOp(x) => m + {x}
    case RemoveOp(x) => m - {x}
  }

  function SetAfter(m: set<int>, ops: seq<Op>): set<int> {
    if ops == [] then m else Step(SetAfter(m, ops[..|ops| - 1]), ops[|ops| - 1])
  }

  /** What an operation answers: whether it changed the set. */
  function AnswerTo(m: set<int>, op: Op): bool {
    match op
    case AddOp(x) => x !in m
    case RemoveOp(x) => x in m
  }

  lemma SetAfterStep(m: set<int>, ops: seq<Op>, i: nat)
    requires i < |ops|
    ensures SetAfter(m, ops[..i + 1]) == Step(SetAfter(m, ops[..i]), ops[i])
  {
    assert ops[..i + 1][..i] == ops[..i];
  }

  /** Each answer is right for the set that the operations before it led to. */
  ghost predicate RightAnswers(m: set<int>, ops: seq<Op>, answers: seq<bool>) {
    |answers| <= |ops| && forall i :: 0 <= i < |answers| ==> answers[i] == AnswerTo(SetAfter(m, ops[..i]), ops[i])
  }

  lemma OneMoreAnswer(m: set<int>, ops: seq<Op>, answers: seq<bool>, answer: bool)
    requires RightAnswers(m, ops, answers) && |answers| < |ops|
    requires answer == AnswerTo(SetAfter(m, ops[..|answers|]), ops[|answers|])
    ensures RightAnswers(m, ops, answers + [answer])
  {
  }

  method Perform(v: IntVector, op: Op) returns (answer: bool)
    requires ValidSet(v)
    modifies v, v.entries
    ensures ValidSet(v) && v.size <= v.entries.Length && (v.entries == old(v.entries) || fresh(v.entries))
    ensures Members(v.Contents()) == Step(old(Members(v.Contents())), op)
    ensures answer == AnswerTo(old(Members(v.Contents())), op)
  {
    MembersAre(v.Contents());
    hide Members, StrictlyAscending, AllFit, TagFor;
    match op
    case AddOp(x) => answer := Add(v, x);
    case RemoveOp(x) => answer := Remove(v, x);
  }

  /**
   Any run of construction, additions and removals ends in the mathematical set, every answer on the way being
   right.
   */
  method RunOps(values: seq<Int64>, ops: seq<Op>) returns (v: IntVector, answers: seq<bool>)
    ensures fresh(v) && ValidSet(v) && Members(v.Contents()) == SetAfter(Members(values), ops)
    ensures |answers| == |ops| && RightAnswers(Members(values), ops, answers)
  {
    v := Construct(values);
    answers := [];
    ghost var m := Members(values);
    assert SetAfter(m, ops[..0]) == m;
    assert RightAnswers(m, ops, answers);
    hide *;
    for i := 0 to |ops|
      invariant fresh(v) && fresh(v.entries) && ValidSet(v)
      invariant v.size <= v.entries.Length && Members(v.Contents()) == SetAfter(m, ops[..i])
      invariant |answers| == i && RightAnswers(m, ops, answers)
    {
      SetAfterStep(m, ops, i);
      var answer := Perform(v, ops[i]);
      OneMoreAnswer(m, ops, answers, answer);
      answers := answers + [answer];
    }
    assert ops[..|ops|] == ops;
  }

  lemma MembersAre(s: seq<int>)
    ensures forall x :: x in Members(s) <==> x in s
  {
  }

  /** The array is determined by the set it stands for. */
  lemma AscendingIsCanonical(s: seq<int>, t: seq<int>)
    requires StrictlyAscending(s) && StrictlyAscending(t) && Members(s) == Members(t)
    ensures s == t
  {
    forall x
      ensures x in s <==> x in t
    {
      assert x in Members(s) <==> x in Members(t);
    }
    SortedListsAgree((x: int, y: int) => x < y, s, t);
  }

  lemma NoMembers(s: seq<int>)
    ensures Members(s) == {} <==> s == []
  {
    if s != [] {
      assert s[0] in Members(s);
    }
  }
}
