/**
 Teds\IntVector: integers stored at 8, 16, 32 or 64 bits each. The width is raised when a value does not fit,
 which must not change the list.
 */
module IntVectors {
  import opened Lists
  import opened Float64s

  const UNINITIALIZED: nat := 0
  const INT8: nat := 1
  const INT16: nat := 2
  const INT32: nat := 3
  const INT64: nat := 4

  /** Half the number of values of a width. */
  function Half(tag: nat): (h: nat)
    requires INT8 <= tag <= INT64
    ensures h > 0
  {
    match tag
    case 1 => 0x80
    case 2 => 0x8000
    case 3 => 0x8000_0000
    case _ => 0x8000_0000_0000_0000
  }

  /** `(intx_t)v`: the low bits, read as a signed number. */
  function Cast(v: int, tag: nat): int
    requires INT8 <= tag <= INT64
  {
    (v + Half(tag)) % (2 * Half(tag)) - Half(tag)
  }

  predicate Fits(v: int, tag: nat)
    requires INT8 <= tag <= INT64
  {
    v == Cast(v, tag)
  }

  lemma FitsIsRange(v: int, tag: nat)
    requires INT8 <= tag <= INT64
    ensures Fits(v, tag) <==> -(Half(tag) as int) <= v < Half(tag)
  {
  }

  /** The four widths, from one byte to eight. */
  lemma WidthRanges(v: int)
    ensures Fits(v, 1) <==> -128 <= v <= 127
    ensures Fits(v, 2) <==> -32768 <= v <= 32767
    ensures Fits(v, 3) <==> -0x8000_0000 <= v <= 0x7FFF_FFFF
    ensures Fits(v, 4) <==> -0x8000_0000_0000_0000 <= v <= 0x7FFF_FFFF_FFFF_FFFF
  {
    FitsIsRange(v, 1);
    FitsIsRange(v, 2);
    FitsIsRange(v, 3);
    FitsIsRange(v, 4);
    hide Fits;
  }

  lemma Int64Fits(v: Int64)
    ensures Fits(v, INT64)
  {
  }

  predicate AllFit(s: seq<int>, tag: nat)
    requires tag <= INT64
  {
    s == [] || (tag != UNINITIALIZED && forall i :: 0 <= i < |s| ==> Fits(s[i], tag))
  }

  lemma AllFitWider(s: seq<int>, tag: nat, wider: nat)
    requires INT8 <= tag <= wider <= INT64 && AllFit(s, tag)
    ensures AllFit(s, wider)
  {
  }

  lemma AllFitSpliced(s: seq<int>, at: nat, args: seq<int>, tag: nat)
    requires at <= |s| && tag <= INT64 && AllFit(s, tag) && AllFit(args, tag)
    ensures AllFit(s[..at] + args + s[at..], tag)
  {
  }

  /** The narrowest width for one value. */
  function TagOf(v: Int64): (tag: nat)
    ensures INT8 <= tag <= INT64 && Fits(v, tag)
  {
    Int64Fits(v);
    if v != Cast(v, INT8) then
      if v != Cast(v, INT32) then INT64
      else if v != Cast(v, INT16) then INT32
      else INT16
    else INT8
  }

  function Max(a: nat, b: nat): nat {
    if a >= b then a else b
  }

  /** The width after all these values were offered. */
  function TagFor(vs: seq<Int64>): (tag: nat)
    ensures tag <= INT64 && (tag == UNINITIALIZED <==> vs == [])
  {
    if vs == [] then UNINITIALIZED else Max(TagFor(vs[..|vs| - 1]), TagOf(vs[|vs| - 1]))
  }

  lemma TagOfIsNarrowest(v: Int64, tag: nat)
    requires INT8 <= tag <= INT64
    ensures TagOf(v) <= tag <==> Fits(v, tag)
  {
    FitsIsRange(v, INT8);
    FitsIsRange(v, INT16);
    FitsIsRange(v, INT32);
    FitsIsRange(v, INT64);
    assert Fits(v, INT8) <==> v == Cast(v, INT8);
    assert Fits(v, INT16) <==> v == Cast(v, INT16);
    assert Fits(v, INT32) <==> v == Cast(v, INT32);
    hide Cast, Fits;
  }

  /** A width holds every value offered so far exactly when it is no narrower than the type tag. */
  lemma {:induction false} TagForIsNarrowest(vs: seq<Int64>, tag: nat)
    requires INT8 <= tag <= INT64
    ensures TagFor(vs) <= tag <==> forall v :: v in vs ==> Fits(v, tag)
  {
    if vs != [] {
      var n := |vs| - 1;
      TagForIsNarrowest(vs[..n], tag);
      TagOfIsNarrowest(vs[n], tag);
      hide Fits;
      assert vs == vs[..n] + [vs[n]];
      assert vs[n] in vs;
    }
  }

  lemma TagForOneMore(vs: seq<Int64>, v: Int64)
    ensures TagFor(vs + [v]) == Max(TagFor(vs), TagOf(v))
  {
  }

  class IntVector {
    var entries: array<int>
    var size: nat
    var capacity: nat
    var typeTag: nat
    /** Whether `entries` is memory of its own; otherwise it is the static empty list, which must not be freed. */
    var onHeap: bool
    /** Every value passed to the width check since construction. */
    ghost var offered: seq<Int64>

    ghost predicate Valid()
      reads this, entries
    {
      && capacity == entries.Length && size <= capacity
      && (onHeap <==> capacity > 0)
      && typeTag == TagFor(offered)
      && AllFit(entries[..size], typeTag)
    }

    ghost function Contents(): seq<int>
      reads this, entries
      requires size <= entries.Length
    {
      entries[..size]
    }

    constructor ()
      ensures Valid() && Contents() == [] && offered == []
      ensures capacity == 0 && typeTag == UNINITIALIZED && fresh(entries)
    {
      entries := new int[0];
      size, capacity, typeTag, onHeap, offered := 0, 0, UNINITIALIZED, false, [];
    }

    // ----- When the storage may be promoted -----

    /** Offering `val` frees nothing that was not allocated. */
    predicate SafeToOffer(val: Int64)
      reads this
      requires typeTag <= INT64
    {
      capacity > 0 || typeTag == UNINITIALIZED || Fits(val, typeTag)
    }

    /** The type that the first of some arguments leaves when it needs no promotion. */
    function TypeAfterFirst(args: seq<Int64>): (tag: nat)
      reads this
      requires args != [] && typeTag <= INT64
      ensures INT8 <= tag <= INT64
    {
      if typeTag == UNINITIALIZED then TagOf(args[0]) else typeTag
    }

    /** Offering the arguments one after the other frees nothing that was not allocated. */
    predicate SafeToOfferAll(args: seq<Int64>)
      reads this
      requires args != [] && typeTag <= INT64
    {
      capacity > 0 || AllFit(args, TypeAfterFirst(args))
    }

    // ----- Capacity -----

    method Reallocate(newCapacity: nat)
      requires Valid() && size <= newCapacity && newCapacity > 0
      modifies this`entries, this`capacity, this`onHeap
      ensures Valid() && fresh(entries) && capacity == newCapacity && Contents() == old(Contents())
    {
      hide AllFit, TagFor;
      var copy := new int[newCapacity];
      forall i | 0 <= i < size { copy[i] := entries[i]; }
      ghost var s := Contents();
      entries, capacity, onHeap := copy, newCapacity, true;
      assert entries[..size] == s;
    }

    method ShrinkIfSparse(oldSize: nat)
      requires Valid() && size <= oldSize
      modifies this`entries, this`capacity, this`onHeap
      ensures (capacity > 0 <==> old(capacity) > 0) && typeTag == old(typeTag)
      ensures Valid() && Contents() == old(Contents()) && (entries == old(entries) || fresh(entries))
    {
      hide AllFit, TagFor;
      if oldSize < capacity / 4 {
        var smaller := if size > 2 then size * 2 else 4;
        if smaller < capacity {
          Reallocate(smaller);
        }
      }
    }

    // ----- Width -----

    /**
     Copies every element into storage of a wider type, then frees the old storage when the capacity, by then the
     new one, is positive. `badFree` reports that what is freed is the static empty list; C promises nothing from
     then on, and the contracts say what the code goes on to write.
     */
    method Promote(larger: nat) returns (badFree: bool)
      requires UNINITIALIZED < typeTag < larger <= INT64
      requires capacity == entries.Length && size <= capacity && AllFit(entries[..size], typeTag)
      requires onHeap <==> capacity > 0
      modifies this`entries, this`capacity, this`typeTag, this`onHeap
      ensures badFree <==> old(capacity) == 0
      ensures typeTag == larger && capacity == entries.Length && size <= capacity && fresh(entries) && onHeap
      ensures capacity == if old(capacity) >= 2 then old(capacity) else 4
      ensures Contents() == old(Contents()) && AllFit(entries[..size], typeTag)
    {
      AllFitWider(entries[..size], typeTag, larger);
      assert forall i :: 0 <= i < size ==> entries[..size][i] == Cast(entries[..size][i], larger);
      hide Cast, AllFit;
      typeTag := larger;
      var original, originalOnHeap := entries, onHeap;
      capacity := if capacity >= 2 then capacity else 4;
      var copy := new int[capacity];
      entries, onHeap := copy, true;
      var dst: nat := 0;
      while dst < size
        invariant dst <= size && copy[..dst] == original[..dst]
        modifies copy
      {
        assert original[dst] == original[..size][dst];
        copy[dst] := Cast(original[dst], larger);
        dst := dst + 1;
      }
      badFree := capacity > 0 && !originalOnHeap;
    }

    method InitTypeTag(val: Int64)
      modifies this`typeTag
      ensures typeTag == TagOf(val)
    {
      if val != Cast(val, INT8) {
        if val != Cast(val, INT32) {
          typeTag := INT64;
          return;
        }
        if val != Cast(val, INT16) {
          typeTag := INT32;
          return;
        }
        typeTag := INT16;
        return;
      }
      typeTag := INT8;
    }

    /** Makes room in width for `val`. */
    method UpdateTypeTag(val: Int64) returns (badFree: bool)
      requires Valid()
      modifies this`entries, this`capacity, this`typeTag, this`onHeap, this`offered
      ensures badFree <==> old(capacity) == 0 && old(typeTag) != UNINITIALIZED && !Fits(val, old(typeTag))
      ensures old(typeTag) == UNINITIALIZED ==> typeTag == TagOf(val) && capacity == old(capacity)
      ensures old(typeTag) != UNINITIALIZED && Fits(val, old(typeTag)) ==>
                typeTag == old(typeTag) && capacity == old(capacity)
      ensures old(typeTag) != UNINITIALIZED && !Fits(val, old(typeTag)) ==>
                capacity == if old(capacity) >= 2 then old(capacity) else 4
      ensures Valid() && size <= entries.Length && Contents() == old(Contents()) && offered == old(offered) + [val]
      ensures typeTag <= INT64 && typeTag != UNINITIALIZED && Fits(val, typeTag)
      ensures entries == old(entries) || fresh(entries)
      ensures capacity >= old(capacity)
    {
      TagForOneMore(offered, val);
      TagOfByRange(val);
      if typeTag != UNINITIALIZED {
        TagOfIsNarrowest(val, typeTag);
      }
      offered := offered + [val];
      badFree := false;
      hide Cast, TagFor, TagOf, AllFit;
      match typeTag
      case 0 =>
        assert entries[..size] == [] by { OnlyEmptyFits(entries[..size]); }
        EmptyFits(TagOf(val));
        InitTypeTag(val);
      case 1 =>
        if val != Cast(val, INT8) {
          if val != Cast(val, INT32) {
            badFree := Promote(INT64);
          } else if val != Cast(val, INT16) {
            badFree := Promote(INT32);
          } else {
            badFree := Promote(INT16);
          }
        }
      case 2 =>
        if val != Cast(val, INT16) {
          if val != Cast(val, INT32) {
            badFree := Promote(INT64);
          } else {
            badFree := Promote(INT32);
          }
        }
      case 3 =>
        if val != Cast(val, INT32) {
          badFree := Promote(INT64);
        }
      case _ =>
    }

    // ----- Operations -----

    /** Writes one element past the end. */
    method Append(value: Int64)
      requires Valid() && size < capacity && typeTag != UNINITIALIZED && Fits(value, typeTag)
      modifies this`size, entries
      ensures Valid() && Contents() == old(Contents()) + [value]
    {
      AllFitSpliced(Contents(), size, [value], typeTag);
      assert AllFit([value], typeTag);
      ghost var s := Contents();
      assert s[..size] + [value] + s[size..] == s + [value];
      assert Cast(value, typeTag) == value;
      hide Cast, AllFit, TagFor;
      entries[size] := Cast(value, typeTag);
      size := size + 1;
      assert entries[..size] == s + [value];
    }

    method Push(value: Int64) returns (badFree: bool)
      requires Valid()
      modifies this, entries
      ensures Valid() && Contents() == old(Contents()) + [value] && offered == old(offered) + [value]
      ensures capacity > 0 && (badFree <==> !old(SafeToOffer(value)))
      ensures entries == old(entries) || fresh(entries)
    {
      hide Fits, AllFit, TagFor;
      var oldSize := size;
      badFree := UpdateTypeTag(value);
      if oldSize >= capacity {
        Reallocate(if oldSize > 2 then oldSize * 2 else 4);
      }
      Append(value);
    }

    /** The width check comes before the bounds check. */
    method SetValueAtOffset(offset: int, value: Int64) returns (ok: bool, badFree: bool)
      requires Valid()
      modifies this, entries
      ensures Valid() && offered == old(offered) + [value] && (ok <==> 0 <= offset < old(size))
      ensures Contents() == if ok then old(Contents())[offset := value] else old(Contents())
      ensures badFree <==> !old(SafeToOffer(value))
      ensures capacity > 0 <==> old(capacity) > 0 || badFree
      ensures entries == old(entries) || fresh(entries)
    {
      badFree := UpdateTypeTag(value);
      if !(0 <= offset < size) {
        return false, badFree;
      }
      ghost var s := Contents();
      assert AllFit(s[offset := value], typeTag);
      assert Cast(value, typeTag) == value;
      hide Cast, AllFit, TagFor;
      entries[offset] := Cast(value, typeTag);
      assert entries[..size] == s[offset := value];
      return true, badFree;
    }

    method OfferAll(args: seq<Int64>) returns (badFree: bool)
      requires Valid() && args != []
      modifies this`entries, this`capacity, this`typeTag, this`onHeap, this`offered
      ensures badFree <==> old(capacity) == 0 && !AllFit(args, old(TypeAfterFirst(args)))
      ensures Valid() && Contents() == old(Contents()) && offered == old(offered) + args
      ensures entries == old(entries) || fresh(entries)
      ensures AllFit(args, typeTag)
    {
      ghost var first := TypeAfterFirst(args);
      EmptyFits(first);
      assert first == if typeTag == UNINITIALIZED then TagOf(args[0]) else typeTag;
      assert args[..|args|] == args && offered + args[..0] == offered && args[..0] == [];
      hide *;
      badFree := false;
      for i := 0 to |args|
        invariant Valid() && size <= entries.Length && typeTag <= INT64
        invariant Contents() == old(Contents()) && offered == old(offered) + args[..i]
        invariant entries == old(entries) || fresh(entries)
        invariant old(capacity) > 0 ==> capacity > 0
        invariant badFree <==> old(capacity) == 0 && !AllFit(args[..i], first)
        invariant old(capacity) == 0 && !badFree ==> capacity == 0 && typeTag == if i == 0 then old(typeTag) else first
      {
        AllFitOneMore(args, i, first);
        AppendOneMore(old(offered), args, i);
        var bad := UpdateTypeTag(args[i]);
        badFree := badFree || bad;
      }
      OfferedFit(offered, args, |old(offered)|);
    }

    /** Moves the elements from `at` on up by `n`; what the gap holds is left open. */
    method MoveUp(at: nat, n: nat)
      requires at <= size && size + n <= entries.Length
      modifies entries
      ensures entries[..at] == old(entries[..at]) && entries[at + n..size + n] == old(entries[at..size])
    {
      forall i | at + n <= i < size + n { entries[i] := entries[i - n]; }
    }

    /** Stores the arguments in the gap, the first one last. */
    method WriteReversed(args: seq<Int64>)
      requires |args| <= entries.Length && UNINITIALIZED < typeTag <= INT64
      requires forall i :: 0 <= i < |args| ==> Fits(args[i], typeTag)
      modifies entries
      ensures entries[..|args|] == Reversed<int>(args) && entries[|args|..] == old(entries[|args|..])
    {
      hide Cast;
      for i := 0 to |args|
        invariant forall k :: |args| - i <= k < |args| ==> entries[k] == args[|args| - 1 - k]
        invariant entries[|args|..] == old(entries[|args|..])
      {
        entries[|args| - i - 1] := Cast(args[i], typeTag);
      }
    }

    /** Stores the arguments in the gap at `at`, in order. */
    method WriteAt(at: nat, args: seq<Int64>)
      requires at + |args| <= entries.Length && UNINITIALIZED < typeTag <= INT64
      requires forall i :: 0 <= i < |args| ==> Fits(args[i], typeTag)
      modifies entries
      ensures entries[at..at + |args|] == args
      ensures entries[..at] == old(entries[..at]) && entries[at + |args|..] == old(entries[at + |args|..])
    {
      hide Cast;
      for i := 0 to |args|
        invariant entries[at..at + i] == args[..i]
        invariant entries[..at] == old(entries[..at]) && entries[at + |args|..] == old(entries[at + |args|..])
      {
        entries[at + i] := Cast(args[i], typeTag);
      }
    }

    method PushFront(args: seq<Int64>) returns (badFree: bool)
      requires Valid()
      modifies this, entries
      ensures Valid() && offered == old(offered) + args
      ensures Contents() == Reversed<int>(args) + old(Contents())
      ensures badFree <==> args != [] && !old(SafeToOfferAll(args))
      ensures capacity > 0 <==> old(capacity) > 0 || args != []
      ensures entries == old(entries) || fresh(entries)
    {
      hide Fits, AllFit, TagFor;
      if |args| == 0 {
        ReversedEmpty<int>(args);
        assert Reversed<int>(args) + Contents() == Contents() && offered + args == offered;
        return false;
      }
      badFree := OfferAll(args);
      var newSize := size + |args|;
      if newSize > capacity {
        Reallocate(if newSize > 2 then newSize * 2 else 4);
      }
      SpliceReversed(args);
    }

    method SpliceReversed(args: seq<Int64>)
      requires Valid() && args != [] && size + |args| <= capacity && AllFit(args, typeTag)
      modifies this`size, entries
      ensures Valid() && Contents() == Reversed<int>(args) + old(Contents())
    {
      AllFitReversed(args, typeTag);
      AllFitSpliced(Contents(), 0, Reversed<int>(args), typeTag);
      Prepended(Reversed<int>(args), Contents());
      assert forall i :: 0 <= i < |args| ==> Fits(args[i], typeTag);
      hide Fits, AllFit, TagFor, Reversed;
      PlaceReversed(args);
      size := size + |args|;
    }

    method PlaceReversed(args: seq<Int64>)
      requires size + |args| <= entries.Length && UNINITIALIZED < typeTag <= INT64
      requires forall i :: 0 <= i < |args| ==> Fits(args[i], typeTag)
      modifies entries
      ensures entries[..size + |args|] == Reversed<int>(args) + old(entries[..size])
    {
      hide *;
      ghost var s := entries[..size];
      MoveUp(0, |args|);
      ghost var moved := entries[..];
      WriteReversed(args);
      Assembled(moved, entries[..], 0, Reversed<int>(args), s);
      Prepended(Reversed<int>(args), s);
    }

    method Insert(offset: int, args: seq<Int64>) returns (ok: bool, badFree: bool)
      requires Valid()
      modifies this, entries
      ensures Valid() && (ok <==> 0 <= offset <= old(size))
      ensures offered == if ok then old(offered) + args else old(offered)
      ensures Contents() == if ok then old(Contents())[..offset] + args + old(Contents())[offset..] else old(Contents())
      ensures badFree <==> ok && args != [] && !old(SafeToOfferAll(args))
      ensures capacity > 0 <==> old(capacity) > 0 || (ok && args != [])
      ensures entries == old(entries) || fresh(entries)
    {
      hide Fits, AllFit, TagFor;
      if !(0 <= offset <= size) {
        return false, false;
      }
      if |args| == 0 {
        return true, false;
      }
      badFree := OfferAll(args);
      var newSize := size + |args|;
      if newSize >= capacity {
        Reallocate(if newSize > 3 then newSize + newSize / 2 else 4);
      }
      SpliceAt(offset, args);
      return true, badFree;
    }

    /** Moves the elements after `at` down by one. */
    method RemoveAt(at: nat)
      requires Valid() && at < size
      modifies this`size, entries
      ensures Valid() && Contents() == old(Contents())[..at] + old(Contents())[at + 1..]
    {
      ghost var s := Contents();
      AllFitMembers(s, s[..at] + s[at + 1..], typeTag);
      hide AllFit, TagFor;
      forall i | at <= i < size - 1 { entries[i] := entries[i + 1]; }
      size := size - 1;
      assert entries[..size] == s[..at] + s[at + 1..];
    }

    method SpliceAt(at: nat, args: seq<Int64>)
      requires Valid() && at <= size && args != [] && size + |args| <= capacity && AllFit(args, typeTag)
      modifies this`size, entries
      ensures Valid() && Contents() == old(Contents())[..at] + args + old(Contents())[at..]
    {
      AllFitSpliced(Contents(), at, args, typeTag);
      assert forall i :: 0 <= i < |args| ==> Fits(args[i], typeTag);
      hide Fits, AllFit, TagFor;
      PlaceAt(at, args);
      size := size + |args|;
    }

    method PlaceAt(at: nat, args: seq<Int64>)
      requires at <= size && size + |args| <= entries.Length && UNINITIALIZED < typeTag <= INT64
      requires forall i :: 0 <= i < |args| ==> Fits(args[i], typeTag)
      modifies entries
      ensures entries[..size + |args|] == (var s := old(entries[..size]); s[..at] + args + s[at..])
    {
      hide *;
      ghost var s := entries[..size];
      MoveUp(at, |args|);
      ghost var moved := entries[..];
      WriteAt(at, args);
      Assembled(moved, entries[..], at, args, s);
    }
  }

  /** Elements drawn from a list that fits fit too. */
  lemma AllFitMembers(s: seq<int>, t: seq<int>, tag: nat)
    requires tag <= INT64 && AllFit(s, tag)
    requires forall x :: x in t ==> x in s
    ensures AllFit(t, tag)
  {
    hide Fits;
    forall x | x in t
      ensures tag != UNINITIALIZED && Fits(x, tag)
    {
      assert x in s;
    }
    forall i | 0 <= i < |t|
      ensures tag != UNINITIALIZED && Fits(t[i], tag)
    {
      var x := t[i];
      assert x in t;
    }
    assert t != [] ==> Fits(t[0], tag);
  }

  lemma TagOfByRange(val: Int64)
    ensures Fits(val, TagOf(val)) && Fits(val, INT64)
    ensures TagOf(val) == if val == Cast(val, INT8) then INT8 else if val == Cast(val, INT16) then INT16
                          else if val == Cast(val, INT32) then INT32 else INT64
    ensures val == Cast(val, INT16) ==> val == Cast(val, INT32)
  {
    FitsIsRange(val, INT8);
    FitsIsRange(val, INT16);
    FitsIsRange(val, INT32);
    FitsIsRange(val, INT64);
    assert Fits(val, INT8) <==> val == Cast(val, INT8);
    assert Fits(val, INT16) <==> val == Cast(val, INT16);
    assert Fits(val, INT32) <==> val == Cast(val, INT32);
    hide Cast, Fits;
  }

  lemma OnlyEmptyFits(s: seq<int>)
    requires AllFit(s, UNINITIALIZED)
    ensures s == []
  {
  }

  lemma EmptyFits(tag: nat)
    requires tag <= INT64
    ensures AllFit([], tag)
  {
  }

  lemma AllFitReversed(s: seq<int>, tag: nat)
    requires tag <= INT64 && AllFit(s, tag)
    ensures AllFit(Reversed(s), tag)
  {
  }

  /** What was offered last fits the tag that all offers led to. */
  lemma OfferedFit(vs: seq<Int64>, args: seq<Int64>, from: nat)
    requires from + |args| == |vs| && vs[from..] == args
    ensures AllFit(args, TagFor(vs))
  {
    if args != [] {
      TagForIsNarrowest(vs, TagFor(vs));
      hide Fits;
      assert forall i :: 0 <= i < |args| ==> args[i] == vs[from + i];
    }
  }

  lemma AllFitOneMore(args: seq<int>, i: nat, tag: nat)
    requires i < |args| && INT8 <= tag <= INT64
    ensures AllFit(args[..i + 1], tag) <==> AllFit(args[..i], tag) && Fits(args[i], tag)
  {
    hide Fits;
    assert args[..i + 1] == args[..i] + [args[i]];
  }

  /** Nothing is promoted exactly when the type for all offers is the one after the first. */
  lemma SafeIffTypeStays(offered: seq<Int64>, args: seq<Int64>)
    requires args != []
    ensures var first := if TagFor(offered) == UNINITIALIZED then TagOf(args[0]) else TagFor(offered);
            AllFit(args, first) <==> TagFor(offered + args) == first
  {
    var first := if TagFor(offered) == UNINITIALIZED then TagOf(args[0]) else TagFor(offered);
    if TagFor(offered) == UNINITIALIZED {
      assert (offered + args)[|offered|] == args[0];
      TagForAtLeast(offered + args, |offered|);
    } else {
      TagForGrows(offered, args, |args|);
      assert args[..|args|] == args;
    }
    OfferedFit(offered + args, args, |offered|);
    if AllFit(args, first) {
      AllFitTag(offered, args, first);
    }
  }

  lemma AllFitTag(offered: seq<Int64>, args: seq<Int64>, tag: nat)
    requires INT8 <= tag <= INT64 && TagFor(offered) <= tag && AllFit(args, tag)
    ensures TagFor(offered + args) <= tag
  {
    TagForIsNarrowest(offered, tag);
    TagForIsNarrowest(offered + args, tag);
    hide Fits, TagFor;
    forall v | v in offered + args
      ensures Fits(v, tag)
    {
      assert v in offered || v in args;
    }
  }

  lemma {:induction false} TagForGrows(vs: seq<Int64>, args: seq<Int64>, n: nat)
    requires n <= |args|
    ensures TagFor(vs) <= TagFor(vs + args[..n])
  {
    hide TagFor, TagOf;
    if n == 0 {
      assert vs + args[..0] == vs;
    } else {
      TagForGrows(vs, args, n - 1);
      assert vs + args[..n] == vs + args[..n - 1] + [args[n - 1]];
      TagForOneMore(vs + args[..n - 1], args[n - 1]);
    }
  }

  lemma TagForAtLeast(vs: seq<Int64>, i: nat)
    requires i < |vs|
    ensures TagOf(vs[i]) <= TagFor(vs)
  {
    TagForIsNarrowest(vs, TagFor(vs));
    TagOfIsNarrowest(vs[i], TagFor(vs));
  }

  /** After the move and the writes the list is spliced. */
  lemma Assembled(moved: seq<int>, done: seq<int>, at: nat, args: seq<int>, s: seq<int>)
    requires at <= |s| && |s| + |args| <= |moved| == |done|
    requires moved[..at] == s[..at] && moved[at + |args|..|s| + |args|] == s[at..]
    requires done[..at] == moved[..at] && done[at..at + |args|] == args && done[at + |args|..] == moved[at + |args|..]
    ensures done[..|s| + |args|] == s[..at] + args + s[at..]
  {
  }

  lemma Prepended(r: seq<int>, s: seq<int>)
    ensures s[..0] + r + s[0..] == r + s
  {
  }
}
