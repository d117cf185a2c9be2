/**
 Whole runs of Teds\IntVector from an empty vector: the list, the type tag, and exactly which runs free the
 static empty list.
 */
module IntVectorRuns {
  import opened Lists
  import opened Float64s
  import opened IntVectors

  datatype Op =
    | Push(value: Int64)
    | Set(offset: int, value: Int64)
    | PushFront(args: seq<Int64>)
    | Insert(offset: int, args: seq<Int64>)

  // ----- The list -----

  function Apply(s: seq<int>, op: Op): seq<int> {
    match op
    case Push(value) => s + [value]
    case Set(at, value) => if 0 <= at < |s| then s[at := value] else s
    case PushFront(args) => Reversed<int>(args) + s
    case Insert(at, args) => if 0 <= at <= |s| then s[..at] + args + s[at..] else s
  }

  function ListAfter(ops: seq<Op>): seq<int> {
    if ops == [] then [] else Apply(ListAfter(ops[..|ops| - 1]), ops[|ops| - 1])
  }

  // ----- The values offered -----

  /** The values whose width is checked; those for a bad offset are, unless they were to be inserted. */
  function OfferedBy(s: seq<int>, op: Op): seq<Int64> {
    match op
    case Push(value) => [value]
    case Set(_, value) => [value]
    case PushFront(args) => args
    case Insert(at, args) => if 0 <= at <= |s| then args else []
  }

  function Offered(ops: seq<Op>): seq<Int64> {
    if ops == [] then [] else Offered(ops[..|ops| - 1]) + OfferedBy(ListAfter(ops[..|ops| - 1]), ops[|ops| - 1])
  }

  // ----- Storage -----

  /** Whether the operation allocates when there is no storage yet. */
  predicate Stores(s: seq<int>, op: Op) {
    match op
    case Push(_) => true
    case Set(_, _) => false
    case PushFront(_) => OfferedBy(s, op) != []
    case Insert(_, _) => OfferedBy(s, op) != []
  }

  /** Whether an operation on a vector that was offered `vs` so far keeps its type after its first value. */
  predicate TypeStays(vs: seq<Int64>, offers: seq<Int64>) {
    offers == [] || AllFit(offers, if vs == [] then TagOf(offers[0]) else TagFor(vs))
  }

  /** Whether there is storage after the operations; a promotion allocates some too. */
  predicate HasStorage(ops: seq<Op>) {
    if ops == [] then false
    else
      var before, op := ops[..|ops| - 1], ops[|ops| - 1];
      HasStorage(before) || Stores(ListAfter(before), op) ||
      !TypeStays(Offered(before), OfferedBy(ListAfter(before), op))
  }

  /** No operation of the run promotes a vector without storage. */
  predicate Safe(ops: seq<Op>) {
    if ops == [] then true
    else
      var before, op := ops[..|ops| - 1], ops[|ops| - 1];
      Safe(before) && (HasStorage(before) || TypeStays(Offered(before), OfferedBy(ListAfter(before), op)))
  }

  /** How the storage of a vector and the free on promotion follow from one operation. */
  ghost predicate StorageFollows(had: bool, has: bool, badFree: bool, vs: seq<Int64>, s: seq<int>, op: Op) {
    && (badFree <==> !had && !TypeStays(vs, OfferedBy(s, op)))
    && (has <==> had || Stores(s, op) || badFree)
  }

  /** One operation on a vector. */
  method Perform(v: IntVector, op: Op) returns (badFree: bool)
    requires v.Valid()
    modifies v, v.entries
    ensures v.Valid() && v.size <= v.entries.Length && (v.entries == old(v.entries) || fresh(v.entries))
    ensures v.Contents() == Apply(old(v.Contents()), op)
    ensures v.offered == old(v.offered + OfferedBy(v.Contents(), op))
    ensures StorageFollows(old(v.capacity) > 0, v.capacity > 0, badFree, old(v.offered), old(v.Contents()), op)
  {
    hide *;
    match op
    case Push(value) => badFree := PerformPush(v, value);
    case Set(at, value) => badFree := PerformSet(v, at, value);
    case PushFront(args) => badFree := PerformPushFront(v, args);
    case Insert(at, args) => badFree := PerformInsert(v, at, args);
  }

  method PerformPush(v: IntVector, value: Int64) returns (badFree: bool)
    requires v.Valid()
    modifies v, v.entries
    ensures v.Valid() && v.size <= v.entries.Length && (v.entries == old(v.entries) || fresh(v.entries))
    ensures v.Contents() == Apply(old(v.Contents()), Push(value))
    ensures v.offered == old(v.offered + OfferedBy(v.Contents(), Push(value)))
    ensures StorageFollows(old(v.capacity) > 0, v.capacity > 0, badFree, old(v.offered), old(v.Contents()), Push(value))
  {
    EmptyTag(v.offered);
    OneFits(value, v.typeTag);
    hide AllFit, TagFor, TagOf, Fits;
    badFree := v.Push(value);
  }

  method PerformSet(v: IntVector, at: int, value: Int64) returns (badFree: bool)
    requires v.Valid()
    modifies v, v.entries
    ensures v.Valid() && v.size <= v.entries.Length && (v.entries == old(v.entries) || fresh(v.entries))
    ensures v.Contents() == Apply(old(v.Contents()), Set(at, value))
    ensures v.offered == old(v.offered + OfferedBy(v.Contents(), Set(at, value)))
    ensures StorageFollows(old(v.capacity) > 0, v.capacity > 0, badFree,
                           old(v.offered), old(v.Contents()), Set(at, value))
  {
    EmptyTag(v.offered);
    OneFits(value, v.typeTag);
    hide AllFit, TagFor, TagOf, Fits;
    var _, bad := v.SetValueAtOffset(at, value);
    badFree := bad;
  }

  method PerformPushFront(v: IntVector, args: seq<Int64>) returns (badFree: bool)
    requires v.Valid()
    modifies v, v.entries
    ensures v.Valid() && v.size <= v.entries.Length && (v.entries == old(v.entries) || fresh(v.entries))
    ensures v.Contents() == Apply(old(v.Contents()), PushFront(args))
    ensures v.offered == old(v.offered + OfferedBy(v.Contents(), PushFront(args)))
    ensures StorageFollows(old(v.capacity) > 0, v.capacity > 0, badFree,
                           old(v.offered), old(v.Contents()), PushFront(args))
  {
    EmptyTag(v.offered);
    hide AllFit, TagFor, TagOf, Fits, Reversed;
    badFree := v.PushFront(args);
  }

  method PerformInsert(v: IntVector, at: int, args: seq<Int64>) returns (badFree: bool)
    requires v.Valid()
    modifies v, v.entries
    ensures v.Valid() && v.size <= v.entries.Length && (v.entries == old(v.entries) || fresh(v.entries))
    ensures v.Contents() == Apply(old(v.Contents()), Insert(at, args))
    ensures v.offered == old(v.offered + OfferedBy(v.Contents(), Insert(at, args)))
    ensures StorageFollows(old(v.capacity) > 0, v.capacity > 0, badFree,
                           old(v.offered), old(v.Contents()), Insert(at, args))
  {
    EmptyTag(v.offered);
    hide AllFit, TagFor, TagOf, Fits;
    var _, bad := v.Insert(at, args);
    badFree := bad;
  }

  lemma EmptyTag(vs: seq<Int64>)
    ensures TagFor(vs) == UNINITIALIZED <==> vs == []
  {
  }

  lemma OneFits(value: Int64, tag: nat)
    requires tag <= INT64
    ensures AllFit([value], TagOf(value))
    ensures tag != UNINITIALIZED ==> (AllFit([value], tag) <==> Fits(value, tag))
  {
    hide Fits;
    assert [value][0] == value;
  }

  /**
   Any run ends with the right list under the narrowest type for all values offered, and frees the static empty
   list exactly when it is not safe.
   */
  method RunOps(ops: seq<Op>) returns (v: IntVector, badFree: bool)
    ensures fresh(v) && v.Valid() && v.Contents() == ListAfter(ops)
    ensures v.offered == Offered(ops) && v.typeTag == TagFor(Offered(ops))
    ensures badFree <==> !Safe(ops)
  {
    v := new IntVector();
    badFree := false;
    RunStart(ops);
    hide ListAfter, Offered, HasStorage, Safe, Apply, OfferedBy, Stores, TypeStays, AllFit, TagFor;
    for i := 0 to |ops|
      invariant fresh(v) && fresh(v.entries) && v.Valid() && v.Contents() == ListAfter(ops[..i])
      invariant v.offered == Offered(ops[..i]) && (v.capacity > 0 <==> HasStorage(ops[..i]))
      invariant badFree <==> !Safe(ops[..i])
    {
      RunStep(ops, i);
      var bad := Perform(v, ops[i]);
      badFree := badFree || bad;
    }
    assert ops[..|ops|] == ops;
  }

  lemma RunStart(ops: seq<Op>)
    ensures ListAfter(ops[..0]) == [] && Offered(ops[..0]) == [] && !HasStorage(ops[..0]) && Safe(ops[..0])
  {
  }

  lemma RunStep(ops: seq<Op>, i: nat)
    requires i < |ops|
    ensures var before, op := ops[..i], ops[i];
            var offers := OfferedBy(ListAfter(before), op);
            && ListAfter(ops[..i + 1]) == Apply(ListAfter(before), op)
            && Offered(ops[..i + 1]) == Offered(before) + offers
            && HasStorage(ops[..i + 1]) ==
               (HasStorage(before) || Stores(ListAfter(before), op) || !TypeStays(Offered(before), offers))
            && Safe(ops[..i + 1]) == (Safe(before) && (HasStorage(before) || TypeStays(Offered(before), offers)))
  {
    assert ops[..i + 1][..i] == ops[..i];
    hide Apply, OfferedBy, Stores, TypeStays;
  }

  // ----- Which runs are safe -----

  /** Whether some operation of the run allocates storage. */
  predicate Stored(ops: seq<Op>) {
    ops != [] && (Stored(ops[..|ops| - 1]) || Stores(ListAfter(ops[..|ops| - 1]), ops[|ops| - 1]))
  }

  /** The values offered up to and with the first operation that allocates storage. */
  function Early(ops: seq<Op>): seq<Int64> {
    if ops == [] then []
    else
      var before := ops[..|ops| - 1];
      if Stored(before) then Early(before) else Early(before) + OfferedBy(ListAfter(before), ops[|ops| - 1])
  }

  lemma {:induction false} BeforeStorage(ops: seq<Op>)
    requires !Stored(ops)
    ensures ListAfter(ops) == [] && Early(ops) == Offered(ops)
  {
    if ops != [] {
      BeforeStorage(ops[..|ops| - 1]);
      hide Reversed;
      ReversedEmpty<Int64>([]);
    }
  }

  /** Offers that extend earlier ones which all fit the type of the very first. */
  lemma FirstTypeStays(vs: seq<Int64>, offers: seq<Int64>)
    requires TypeStays([], vs)
    ensures TypeStays(vs, offers) <==> TypeStays([], vs + offers)
  {
    if vs == [] {
      assert vs + offers == offers;
    } else {
      SafeIffTypeStays([], vs);
      assert [] + vs == vs;
      assert (vs + offers)[0] == vs[0];
      AllFitConcat(vs, offers, TagOf(vs[0]));
      hide AllFit, TagFor, TagOf;
    }
  }

  lemma AllFitConcat(s: seq<int>, t: seq<int>, tag: nat)
    requires INT8 <= tag <= INT64
    ensures AllFit(s + t, tag) <==> AllFit(s, tag) && AllFit(t, tag)
  {
    hide Fits;
    assert forall i :: 0 <= i < |s| ==> (s + t)[i] == s[i];
    assert forall i :: 0 <= i < |t| ==> (s + t)[|s| + i] == t[i];
  }

  lemma FirstTypeLost(vs: seq<Int64>, offers: seq<Int64>)
    requires !TypeStays([], vs)
    ensures !TypeStays([], vs + offers)
  {
    AllFitConcat(vs, offers, TagOf(vs[0]));
    hide AllFit, TagOf;
  }

  /**
   A run is safe exactly when nothing offered up to the first allocation is wider than the very first value;
   in particular when it starts with a push.
   */
  lemma {:induction false} SafeIffNothingWidens(ops: seq<Op>)
    ensures Safe(ops) <==> TypeStays([], Early(ops))
    ensures Safe(ops) ==> (HasStorage(ops) <==> Stored(ops))
  {
    if ops != [] {
      var before, op := ops[..|ops| - 1], ops[|ops| - 1];
      SafeIffNothingWidens(before);
      if !Stored(before) {
        BeforeStorage(before);
        var offers := OfferedBy(ListAfter(before), op);
        hide TypeStays, ListAfter, Offered, OfferedBy, Stores;
        if Safe(before) {
          FirstTypeStays(Early(before), offers);
        } else {
          FirstTypeLost(Early(before), offers);
        }
      }
    }
  }

  /** Four short runs that free the static empty list. */
  lemma UnsafeRuns()
    ensures !Safe([PushFront([1, 1000])])
    ensures !Safe([Insert(0, [1, 1000])])
    ensures !Safe([Set(0, 1), Set(0, 1000)])
    ensures !Safe([Set(0, 1), Push(1000)])
  {
    EarlyOfOne(PushFront([1, 1000]));
    EarlyOfOne(Insert(0, [1, 1000]));
    EarlyOfTwo(Set(0, 1), Set(0, 1000));
    EarlyOfTwo(Set(0, 1), Push(1000));
    hide *;
    WiderSecond();
    SafeIffNothingWidens([PushFront([1, 1000])]);
    SafeIffNothingWidens([Insert(0, [1, 1000])]);
    SafeIffNothingWidens([Set(0, 1), Set(0, 1000)]);
    SafeIffNothingWidens([Set(0, 1), Push(1000)]);
  }

  lemma EarlyOfOne(a: Op)
    ensures Early([a]) == OfferedBy([], a)
  {
    assert [a][..0] == [];
    assert !Stored([]) && Early([]) == [] && ListAfter([]) == [];
  }

  lemma WiderSecond()
    ensures !TypeStays([], [1, 1000])
  {
    var args: seq<Int64> := [1, 1000];
    FitsIsRange(args[0], INT8);
    FitsIsRange(args[1], INT8);
    TagOfIsNarrowest(args[0], INT8);
    hide Cast, Fits, TagOf;
    assert !AllFit(args, INT8);
  }

  lemma EarlyOfTwo(a: Op, b: Op)
    requires a.Set? && (b.Set? || b.Push?)
    ensures Early([a, b]) == [a.value, b.value]
  {
    assert [a, b][..1] == [a] && [a][..0] == [];
    assert !Stored([]) && Early([]) == [];
    assert !Stored([a]) && Early([a]) == [a.value];
  }
}
