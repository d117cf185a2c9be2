/**
 Teds\BitVector: a growable packed bit list. Insertion and removal carry bits across all later bytes, and
 pushFront and popFront have a 64-bit little-endian path that must leave the same bytes as the byte loop.
 */
module BitVectors {
  import opened Wrappers
  import opened Lists
  import opened Bitwise
  import opened PackedBits
  import opened BitCodec

  /** A size at which growing further is a fatal error on 64-bit builds. */
  const MAX_BITS: nat := 0x4000_0000_0000_0000

  /** `(size + 64) & ~63` */
  function NextValidCapacity(size: nat): (c: nat)
    ensures size < c <= size + 64 && c % 64 == 0
  {
    (size + 64) / 64 * 64
  }

  /** `n & 7` */
  function Low3(n: nat): (r: nat) {
    n % 8
  }

  lemma LowOfZero()
    ensures Low3(0) == 0
  {
  }

  lemma LowBelowEight(n: nat)
    requires Low3(n) == 0 && n < 8
    ensures n == 0
  {
  }

  lemma WholeBytes(capacity: nat)
    requires capacity % 64 == 0
    ensures 8 * (capacity / 8) == capacity
  {
    DivModUnique(capacity, 8, 8 * (capacity / 64), 0);
  }

  class BitVector {
    var bits: array<byte>
    var bitSize: nat
    var bitCapacity: nat

    ghost predicate Valid()
      reads this
    {
      && bitCapacity == 8 * bits.Length
      && bitSize <= bitCapacity
    }

    /** The next larger capacity is beyond the limit. */
    predicate AtMaximum()
      reads this
    {
      NextValidCapacity(bitSize + bitSize / 2) >= 0x4000_0000_0000_0000
    }

    /** That takes two thirds of 2^62 bits, so every ordinary vector can grow. */
    lemma MaximumIsFar()
      ensures AtMaximum() <==> bitSize >= 3074457345618258560
      ensures AtMaximum() ==> bitSize >= 0x2000_0000_0000_0000
    {
    }

    ghost function Contents(): seq<bool>
      reads this, bits
      requires Valid()
    {
      Bits(bits[..], bitSize)
    }

    constructor ()
      ensures Valid() && Contents() == [] && fresh(bits)
    {
      bits := new byte[0];
      bitSize, bitCapacity := 0, 0;
    }

    // ----- Capacity -----

    /** Reallocation keeps the bytes that fit. */
    method Reallocate(newCapacity: nat)
      requires Valid() && newCapacity % 64 == 0 && bitSize <= newCapacity
      modifies this`bits, this`bitCapacity
      ensures Valid() && bitCapacity == newCapacity && fresh(bits)
      ensures Contents() == old(Contents())
    {
      var copy := CopyBytes(bits[..], newCapacity / 8);
      SameBytesSameBits(copy[..], bits[..], bitSize);
      hide Bits;
      bits, bitCapacity := copy, newCapacity;
    }

    method RaiseCapacity(newCapacity: nat) returns (ok: bool)
      requires Valid() && bitSize <= bitCapacity < newCapacity && newCapacity % 64 == 0
      modifies this`bits, this`bitCapacity
      ensures Valid() && Contents() == old(Contents()) && (bits == old(bits) || fresh(bits))
      ensures ok <==> newCapacity < 0x4000_0000_0000_0000
      ensures bitCapacity == if ok then newCapacity else old(bitCapacity)
    {
      assert MAX_BITS == 0x4000_0000_0000_0000;
      hide *;
      if newCapacity >= MAX_BITS {
        return false;
      }
      Reallocate(newCapacity);
      return true;
    }

    /** Room for one more bit. */
    method GrowIfFull() returns (ok: bool)
      requires Valid()
      modifies this`bits, this`bitCapacity
      ensures Valid() && Contents() == old(Contents()) && (bits == old(bits) || fresh(bits))
      ensures ok <==> bitSize < bitCapacity
      ensures !ok ==> AtMaximum()
    {
      if bitSize >= bitCapacity {
        ok := RaiseCapacity(NextValidCapacity(bitSize + bitSize / 2));
      } else {
        ok := true;
      }
    }

    method ShrinkIfBelow(capacity: nat)
      requires Valid() && capacity % 64 == 0 && bitSize <= capacity
      modifies this`bits, this`bitCapacity
      ensures Valid() && Contents() == old(Contents()) && (bits == old(bits) || fresh(bits))
    {
      if capacity < bitCapacity {
        Reallocate(capacity);
      }
    }

    // ----- Single bytes and words -----

    /** Overwrites eight bytes with one little-endian word. */
    method StoreWord(at: nat, w: bv64)
      requires at + 8 <= bits.Length
      modifies bits
      ensures bits[..] == Overlay(old(bits[..]), at, Store64(w))
    {
      var b := Store64(w);
      hide Store64;
      forall k | 0 <= k < 8 { bits[at + k] := b[k]; }
      assert bits[..at] == old(bits[..at]) && bits[at + 8..] == old(bits[at + 8..]);
      assert bits[at..at + 8] == b;
    }

    /** Byte `n` shifted up; `d` and `u` are the bytes before and after the whole operation. */
    method ShiftByteUp(n: nat, ghost d: seq<byte>, ghost u: seq<byte>)
      requires 0 < n < |d| == |u| && u[n] == ShiftUp(d[n], d[n - 1]) && bits[..] == Above(d, u, n + 1)
      modifies bits
      ensures bits[..] == Above(d, u, n)
    {
      ByteStepUp(d, u, n);
      hide *;
      bits[n] := ShiftUp(bits[n], bits[n - 1]);
    }

    method ShiftByteDown(n: nat, ghost d: seq<byte>, ghost u: seq<byte>)
      requires n + 1 < |d| == |u| && u[n] == ShiftDown(d[n], d[n + 1]) && bits[..] == Below(d, u, n)
      modifies bits
      ensures bits[..] == Below(d, u, n + 1)
    {
      ByteStepDown(d, u, n);
      hide *;
      bits[n] := ShiftDown(bits[n], bits[n + 1]);
    }

    /** The bytes from `last` down to the one after `start`. */
    method ShiftTailUp(last: nat, start: nat, ghost d: seq<byte>, ghost u: seq<byte>)
      requires start <= last < |d| == |u| && UpTo(d, u, start, last) && bits[..] == Above(d, u, last + 1)
      modifies bits
      ensures bits[..] == Above(d, u, start + 1)
    {
      hide *;
      var n: nat := last;
      while n > start
        invariant start <= n <= last && bits[..] == Above(d, u, n + 1)
      {
        UpAt(d, u, start, last, n);
        ShiftByteUp(n, d, u);
        n := n - 1;
      }
    }

    // ----- Front -----

    method ShiftFirstByteUp(ghost d: seq<byte>, ghost last: nat, value: bool)
      requires last < |d| && bits[..] == Above(d, UnshiftBytes(d, last, value), 1)
      modifies bits
      ensures bits[..] == UnshiftBytes(d, last, value)
    {
      FirstByteUp(d, last, value);
      hide *;
      bits[0] := ShiftIn(bits[0], ToByte(value));
    }

    method ShiftWordUp(n: nat, ghost d: seq<byte>, ghost last: nat, ghost value: bool)
      requires 0 < n && n + 8 <= last < |d| && bits[..] == Above(d, UnshiftBytes(d, last, value), n + 8)
      modifies bits
      ensures bits[..] == Above(d, UnshiftBytes(d, last, value), n)
    {
      WordStepUp(d, last, value, n, bits[..]);
      hide *;
      StoreWord(n, WordUp(Load64(bits[n..n + 8]), bits[n - 1] >> 7));
    }

    method ShiftFirstWordUp(ghost d: seq<byte>, ghost last: nat, value: bool)
      requires 8 <= last < |d| && bits[..] == Above(d, UnshiftBytes(d, last, value), 8)
      modifies bits
      ensures bits[..] == UnshiftBytes(d, last, value)
    {
      FirstWordUp(d, last, value, bits[..]);
      hide *;
      StoreWord(0, WordUp(Load64(bits[0..8]), ToByte(value)));
    }

    /** The byte-at-a-time path of pushFront, used on big-endian builds. */
    method UnshiftBytewise(last: nat, value: bool)
      requires last < bits.Length
      modifies bits
      ensures bits[..] == UnshiftBytes(old(bits[..]), last, value)
    {
      ghost var d := bits[..];
      UnshiftFacts(d, last, value);
      hide *;
      ShiftTailUp(last, 0, d, UnshiftBytes(d, last, value));
      ShiftFirstByteUp(d, last, value);
    }

    /** Whole words from `top` down. */
    method ShiftWordsUp(top: nat, ghost d: seq<byte>, ghost last: nat, value: bool)
      requires Low3(top) == 0 && 8 <= top <= last < |d|
      requires bits[..] == Above(d, UnshiftBytes(d, last, value), top)
      modifies bits
      ensures bits[..] == UnshiftBytes(d, last, value)
    {
      assert top % 8 == 0;
      hide *;
      var n: nat := top;
      while n > 8
        invariant n % 8 == 0 && 8 <= n <= last && bits[..] == Above(d, UnshiftBytes(d, last, value), n)
      {
        n := n - 8;
        ShiftWordUp(n, d, last, value);
      }
      ShiftFirstWordUp(d, last, value);
    }

    /** Single bytes from the last one down to a multiple of eight. */
    method ShiftToWord(last: nat, ghost d: seq<byte>, ghost value: bool) returns (n: nat)
      requires last < bits.Length && d == bits[..]
      modifies bits
      ensures n <= last && Low3(n) == 0
      ensures bits[..] == Above(d, UnshiftBytes(d, last, value), n + 1)
    {
      UnshiftFacts(d, last, value);
      hide *;
      n := last;
      while Low3(n) != 0
        invariant n <= last && bits[..] == Above(d, UnshiftBytes(d, last, value), n + 1)
        decreases n
      {
        assert n > 0 by { LowOfZero(); }
        UpAt(d, UnshiftBytes(d, last, value), 0, last, n);
        ShiftByteUp(n, d, UnshiftBytes(d, last, value));
        n := n - 1;
      }
    }

    /** The little-endian path: single bytes down to a multiple of eight, then whole words. */
    method UnshiftWords(last: nat, value: bool)
      requires last < bits.Length
      modifies bits
      ensures bits[..] == UnshiftBytes(old(bits[..]), last, value)
    {
      ghost var d := bits[..];
      UnshiftFacts(d, last, value);
      hide *;
      var n := ShiftToWord(last, d, value);
      if n >= 8 {
        UpAt(d, UnshiftBytes(d, last, value), 0, last, n);
        ShiftByteUp(n, d, UnshiftBytes(d, last, value));
        ShiftWordsUp(n, d, last, value);
      } else {
        assert n == 0 by { LowBelowEight(n); }
        ShiftFirstByteUp(d, last, value);
      }
    }

    method UnshiftSingle(value: bool) returns (ok: bool)
      requires Valid()
      modifies this, bits
      ensures Valid() && (bits == old(bits) || fresh(bits))
      ensures Contents() == if ok then [value] + old(Contents()) else old(Contents())
      ensures bitSize == if ok then old(bitSize) + 1 else old(bitSize)
      ensures !ok ==> AtMaximum()
    {
      ok := GrowIfFull();
      if ok {
        UnshiftBits(bits[..], bitSize, value);
        UnshiftWords(bitSize / 8, value);
        bitSize := bitSize + 1;
      }
    }

    /** The arguments end up in front, the last one first. */
    method PushFront(args: seq<bool>) returns (done: nat)
      requires Valid()
      modifies this, bits
      ensures Valid() && done <= |args|
      ensures bits == old(bits) || fresh(bits)
      ensures Contents() == Reversed(args[..done]) + old(Contents())
      ensures done < |args| ==> AtMaximum()
      ensures old(bitSize) + |args| < 0x2000_0000_0000_0000 ==> done == |args|
    {
      done := 0;
      hide *;
      ghost var s, n := Contents(), bitSize;
      PrependNone(args, s);
      while done < |args|
        invariant Valid() && done <= |args| && (bits == old(bits) || fresh(bits))
        invariant Contents() == Reversed(args[..done]) + s && bitSize == n + done
      {
        var ok := UnshiftSingle(args[done]);
        if !ok {
          MaximumIsFar();
          return;
        }
        PrependOneMore(args, done, s);
        done := done + 1;
      }
    }

    method ShiftWordDown(n: nat, ghost d: seq<byte>, ghost last: nat)
      requires n + 8 <= last < |d| && bits[..] == Below(d, ShiftBytes(d, last), n)
      modifies bits
      ensures bits[..] == Below(d, ShiftBytes(d, last), n + 8)
    {
      WordStepDown(d, last, n, bits[..]);
      hide *;
      StoreWord(n, WordDown(Load64(bits[n..n + 8]), bits[n + 8]));
    }

    /** The single bytes from `first` to the last one, which takes a zero. */
    method ShiftTail(first: nat, last: nat, ghost d: seq<byte>, ghost u: seq<byte>)
      requires first <= last < |d| == |u| && bits[..] == Below(d, u, first)
      requires DownTo(d, u, first, last)
      modifies bits
      ensures bits[..] == u
    {
      hide *;
      var n: nat := first;
      while n < last
        invariant n <= last && bits[..] == Below(d, u, n)
      {
        DownAt(d, u, first, last, n);
        ShiftByteDown(n, d, u);
        n := n + 1;
      }
      HalfStep(d, u, first, last);
      bits[last] := Half(bits[last]);
    }

    /** The byte-at-a-time path of popFront, used on big-endian builds. */
    method ShiftBytewise(last: nat)
      requires last < bits.Length
      modifies bits
      ensures bits[..] == ShiftBytes(old(bits[..]), last)
    {
      ghost var d := bits[..];
      ShiftFacts(d, last);
      hide *;
      ShiftTail(0, last, d, ShiftBytes(d, last));
    }

    /** The little-endian path: whole words while one fits, then single bytes. */
    method ShiftWords(last: nat)
      requires last < bits.Length
      modifies bits
      ensures bits[..] == ShiftBytes(old(bits[..]), last)
    {
      ghost var d := bits[..];
      ShiftFacts(d, last);
      hide *;
      var n: nat := 0;
      while n + 8 <= last
        invariant n <= last && bits[..] == Below(d, ShiftBytes(d, last), n)
      {
        ShiftWordDown(n, d, last);
        n := n + 8;
      }
      DownToLater(d, ShiftBytes(d, last), 0, n, last);
      ShiftTail(n, last, d, ShiftBytes(d, last));
    }

    method DropFirst()
      requires Valid() && bitSize > 0
      modifies this`bitSize, bits
      ensures Valid() && Contents() == old(Contents())[1..] && bitSize == old(bitSize) - 1
    {
      ShiftBits(bits[..], bitSize);
      hide Bits, ShiftBytes;
      bitSize := bitSize - 1;
      ShiftWords(bitSize / 8);
    }

    method PopFront() returns (r: Option<bool>)
      requires Valid()
      modifies this, bits
      ensures Valid()
      ensures bits == old(bits) || fresh(bits)
      ensures old(bitSize) == 0 ==> r == None && Contents() == old(Contents())
      ensures old(bitSize) > 0 ==> r == Some(old(Contents())[0]) && Contents() == old(Contents())[1..]
    {
      if bitSize == 0 {
        return None;
      }
      r := Some(Bit(bits[0], 0));
      assert r.value == Contents()[0];
      hide Bits, Bit;
      DropFirst();
      ShrinkIfBelow(NextValidCapacity(bitSize + 1));
    }

    // ----- Any offset -----

    /** Writes the byte that holds the inserted bit. */
    method InsertIntoByte(ghost d: seq<byte>, ghost last: nat, at: nat, value: bool)
      requires at / 8 <= last < |d| && bits[..] == Above(d, InsertBytes(d, last, at, value), at / 8 + 1)
      modifies bits
      ensures bits[..] == InsertBytes(d, last, at, value)
    {
      InsertStep(d, last, at, value);
      hide *;
      bits[at / 8] := InsertBit(bits[at / 8], at % 8, value);
    }

    method InsertCarrying(last: nat, at: nat, value: bool)
      requires at / 8 <= last < bits.Length
      modifies bits
      ensures bits[..] == InsertBytes(old(bits[..]), last, at, value)
    {
      ghost var d := bits[..];
      InsertFacts(d, last, at, value);
      hide *;
      ShiftTailUp(last, at / 8, d, InsertBytes(d, last, at, value));
      InsertIntoByte(d, last, at, value);
    }

    method InsertSingle(at: nat, value: bool) returns (ok: bool)
      requires Valid() && at <= bitSize
      modifies this, bits
      ensures Valid() && (bits == old(bits) || fresh(bits))
      ensures ok ==> Contents() == old(Contents())[..at] + [value] + old(Contents())[at..]
      ensures bitSize == if ok then old(bitSize) + 1 else old(bitSize)
      ensures !ok ==> Contents() == old(Contents()) && AtMaximum()
    {
      ok := GrowIfFull();
      if ok {
        InsertBits(bits[..], bitSize, at, value);
        InsertCarrying(bitSize / 8, at, value);
        bitSize := bitSize + 1;
      }
    }

    /** The arguments are spliced in, in order. */
    method Insert(at: int, args: seq<bool>) returns (done: Option<nat>)
      requires Valid()
      modifies this, bits
      ensures Valid()
      ensures bits == old(bits) || fresh(bits)
      ensures done == None <==> !(0 <= at <= old(bitSize))
      ensures done == None ==> Contents() == old(Contents())
      ensures done.Some? ==> done.value <= |args|
      ensures done.Some? ==> Contents() == old(Contents())[..at] + args[..done.value] + old(Contents())[at..]
      ensures done.Some? && done.value < |args| ==> AtMaximum()
      ensures done.Some? && old(bitSize) + |args| < 0x2000_0000_0000_0000 ==> done.value == |args|
    {
      if at > bitSize || at < 0 {
        return None;
      }
      ghost var s := Contents();
      var n: nat := 0;
      while n < |args|
        invariant Valid() && n <= |args| && (bits == old(bits) || fresh(bits))
        invariant Contents() == s[..at] + args[..n] + s[at..] && bitSize == old(bitSize) + n
      {
        var ok := InsertSingle(at + n, args[n]);
        if !ok {
          MaximumIsFar();
          return Some(n);
        }
        SpliceOneMore(s, at, args, n);
        n := n + 1;
      }
      return Some(n);
    }

    method UnsetOffset(at: nat)
      requires Valid() && at < bitSize
      modifies this`bitSize, bits
      ensures Valid() && Contents() == old(Contents())[..at] + old(Contents())[at + 1..]
    {
      UnsetBits(bits[..], bitSize, at);
      hide Bits, UnsetBytes;
      bitSize := bitSize - 1;
      UnsetCarrying(bitSize / 8, at);
    }

    method UnsetCarrying(last: nat, at: nat)
      requires at / 8 <= last < bits.Length
      modifies bits
      ensures bits[..] == UnsetBytes(old(bits[..]), last, at)
    {
      ghost var d := bits[..];
      UnsetFacts(d, last, at);
      hide *;
      var n: nat := at / 8;
      if n == last {
        bits[n] := RemoveBitFromByte(bits[n], at % 8);
        return;
      }
      bits[n] := RemoveAndFill(bits[n], at % 8, bits[n + 1]);
      ShiftTail(n + 1, last, d, UnsetBytes(d, last, at));
    }

    method OffsetUnset(at: int) returns (ok: bool)
      requires Valid()
      modifies this, bits
      ensures Valid() && (ok <==> 0 <= at < old(bitSize))
      ensures bits == old(bits) || fresh(bits)
      ensures ok ==> Contents() == old(Contents())[..at] + old(Contents())[at + 1..]
      ensures !ok ==> Contents() == old(Contents())
    {
      if !(0 <= at < bitSize) {
        return false;
      }
      UnsetOffset(at);
      ShrinkIfBelow(NextValidCapacity(bitSize + 1));
      return true;
    }

    // ----- Writing and the end -----

    method OffsetSet(at: int, value: bool) returns (ok: bool)
      requires Valid()
      modifies bits
      ensures Valid() && (ok <==> 0 <= at < bitSize)
      ensures Contents() == if ok then old(Contents())[at := value] else old(Contents())
    {
      if at >= bitSize || at < 0 {
        return false;
      }
      WriteBits(bits[..], bitSize, at, value);
      hide SetBit;
      bits[at / 8] := SetBit(bits[at / 8], at % 8, value);
      return true;
    }

    method PushSingle(value: bool) returns (ok: bool)
      requires Valid()
      modifies this, bits
      ensures Valid() && (bits == old(bits) || fresh(bits))
      ensures Contents() == if ok then old(Contents()) + [value] else old(Contents())
      ensures bitSize == if ok then old(bitSize) + 1 else old(bitSize)
      ensures !ok ==> AtMaximum()
    {
      ok := GrowIfFull();
      if ok {
        WriteBits(bits[..], bitSize + 1, bitSize, value);
        AppendBits(bits[..], bitSize, value);
        hide SetBit;
        bits[bitSize / 8] := SetBit(bits[bitSize / 8], bitSize % 8, value);
        bitSize := bitSize + 1;
      }
    }

    method Push(args: seq<bool>) returns (done: nat)
      requires Valid()
      modifies this, bits
      ensures Valid() && done <= |args|
      ensures bits == old(bits) || fresh(bits)
      ensures Contents() == old(Contents()) + args[..done]
      ensures done < |args| ==> AtMaximum()
      ensures old(bitSize) + |args| < 0x2000_0000_0000_0000 ==> done == |args|
    {
      done := 0;
      hide *;
      ghost var s, n := Contents(), bitSize;
      AppendNone(s, args);
      while done < |args|
        invariant Valid() && done <= |args| && (bits == old(bits) || fresh(bits))
        invariant Contents() == s + args[..done] && bitSize == n + done
      {
        var ok := PushSingle(args[done]);
        if !ok {
          MaximumIsFar();
          return;
        }
        AppendOneMore(s, args, done);
        done := done + 1;
      }
    }

    method Pop() returns (r: Option<bool>)
      requires Valid()
      modifies this
      ensures Valid()
      ensures bits == old(bits) || fresh(bits)
      ensures old(bitSize) == 0 ==> r == None && Contents() == old(Contents())
      ensures old(bitSize) > 0 ==> r == Some(old(Contents())[old(bitSize) - 1])
      ensures old(bitSize) > 0 ==> Contents() == old(Contents())[..old(bitSize) - 1]
    {
      if bitSize == 0 {
        return None;
      }
      bitSize := bitSize - 1;
      r := Some(Bit(bits[bitSize / 8], bitSize % 8));
      ShrinkIfBelow(NextValidCapacity(2 * bitSize));
    }

    /** Bits `start` up to `end` become `value`; whole bytes are filled at once. */
    method SetRange(start: nat, end: nat, value: bool)
      requires start < end <= 8 * bits.Length
      modifies bits
      ensures bits[..] == FillBytes(old(bits[..]), start, end, value)
    {
      hide FillHigh;
      var first, last := (start + 7) / 8, (end + 7) / 8;
      if start % 8 != 0 {
        bits[start / 8] := FillHigh(bits[start / 8], start % 8, value);
      }
      forall j | first <= j < last { bits[j] := if value then 0xff else 0; }
    }

    method SetSize(size: int, value: bool) returns (ok: bool)
      requires Valid()
      modifies this, bits
      ensures Valid()
      ensures bits == old(bits) || fresh(bits)
      ensures size < 0 ==> !ok
      ensures 0 <= size ==>
                (ok <==> size <= old(bitCapacity) || NextValidCapacity(size + size / 4) < 0x4000_0000_0000_0000)
      ensures 0 <= size < 0x2000_0000_0000_0000 ==> ok
      ensures ok ==> bitSize == size
      ensures Contents() == if ok then Resized(old(Contents()), size, value) else old(Contents())
      ensures ok ==> forall i :: 0 <= i < size ==>
                       Contents()[i] == if i < old(bitSize) then old(Contents())[i] else value
    {
      if size < 0 {
        return false;
      }
      if size <= bitSize {
        bitSize := size;
        ShrinkIfBelow(NextValidCapacity(size));
        return true;
      }
      ok := true;
      if size > bitCapacity {
        ok := RaiseCapacity(NextValidCapacity(size + size / 4));
      }
      if ok {
        FillBits(bits[..], bitSize, size, value);
        SetRange(bitSize, size, value);
        bitSize := size;
      }
    }

    // ----- Serialization -----

    /** The bytes in use with the unused high bits cleared, then the number of unused bits. */
    method Serialize() returns (str: seq<byte>)
      requires Valid()
      ensures str == Encode(Contents())
      ensures if Contents() == [] then str == [] else WrittenBits(Contents(), str)
    {
      EncodedBytes(Contents());
      hide WrittenBits;
      if bitSize == 0 {
        return [];
      }
      var copy := MaskedCopy(bits[..], bitSize);
      MaskedCopyIsCanonical(bits[..], bitSize);
      return copy + [CountByte(Padding(bitSize))];
    }

    static method CopyBytes(bytes: seq<byte>, length: nat) returns (copy: array<byte>)
      ensures fresh(copy) && copy.Length == length
      ensures forall j :: 0 <= j < |bytes| && j < length ==> copy[j] == bytes[j]
    {
      copy := new byte[length];
      forall j | 0 <= j < |bytes| && j < length { copy[j] := bytes[j]; }
    }

    /** Sizes are 64-bit words: both may wrap around, and then the storage does not hold the size it is given. */
    constructor FromBytes(bytes: seq<byte>, padding: nat)
      requires padding < 8
      ensures fresh(bits) && bitSize == SizeFromBytes(|bytes|, padding)
      ensures bitCapacity == NextValidCapacity(bitSize) % WORD == 8 * bits.Length
      ensures forall j :: 0 <= j < |bytes| && j < bits.Length ==> bits[j] == bytes[j]
    {
      var size := SizeFromBytes(|bytes|, padding);
      var capacity := WrappedCapacity(size);
      var copy := CopyBytes(bytes, capacity / 8);
      bitSize, bitCapacity, bits := size, capacity, copy;
    }

    /**
     Reads the serialized form. The test of the last byte is the only one, so the vector holds the encoded bits
     exactly when no size wraps. A single zero byte gives an empty vector, against the source's own assertion
     that there is a bit.
     */
    static method Unserialize(str: seq<byte>) returns (r: Option<BitVector>)
      ensures r.Some? <==> Accepted(str)
      ensures r.Some? ==> fresh(r.value)
      ensures r.Some? ==> (r.value.Valid() && Some(r.value.Contents()) == Decode(str) <==> !SizeWraps(str))
      ensures r.Some? && |str| == 1 && SizeWraps(str) ==>
                r.value.bitCapacity == 0 && r.value.bitSize == WORD - ByteCount(str[0])
      ensures r.Some? <==> str == [] || str[|str| - 1] <= 7
      ensures r.Some? && str != [] && !SizeWraps(str) ==> ReadBits(str, r.value.Contents())
    {
      DecodedBits(str);
      hide ByteCount, Bits, ReadBits;
      var v: BitVector;
      if |str| == 0 {
        v := new BitVector();
      } else {
        var count := |str| - 1;
        var padding := ByteCount(str[count]);
        if padding >= 8 {
          return None;
        }
        v := new BitVector.FromBytes(str[..count], padding);
        HoldsDecoded(str, v.bits[..], v.bitSize, v.bitCapacity);
      }
      return Some(v);
    }
  }

  // ----- Reading the serialized form -----

  /** `(size + 64) & ~63` on 64-bit words. */
  function WrappedCapacity(size: nat): (c: nat)
    requires size < WORD
    ensures c == NextValidCapacity(size) % WORD && c == 8 * (c / 8)
    ensures if size < WORD - 64 then c == NextValidCapacity(size) else c == 0
  {
    DivModUnique(NextValidCapacity(size), 64, (size + 64) / 64, 0);
    var c := NextValidCapacity(size) % WORD;
    assert c == if size < WORD - 64 then NextValidCapacity(size) else 0;
    WholeBytes(c);
    c
  }

  /** The storage and size set up for some bytes hold the bits they encode, unless something wrapped. */
  lemma HoldsDecoded(str: seq<byte>, bits: seq<byte>, size: nat, capacity: nat)
    requires str != [] && Accepted(str)
    requires size == SizeFromBytes(|str| - 1, ByteCount(str[|str| - 1]))
    requires capacity == NextValidCapacity(size) % WORD == 8 * |bits|
    requires forall j :: 0 <= j < |str| - 1 && j < |bits| ==> bits[j] == str[j]
    ensures size <= capacity && Some(Bits(bits, size)) == Decode(str) <==> !SizeWraps(str)
    ensures |str| == 1 && SizeWraps(str) ==> capacity == 0 && size == WORD - ByteCount(str[0])
  {
    var count, padding := |str| - 1, ByteCount(str[|str| - 1]);
    assert capacity == WrappedCapacity(size);
    hide ByteCount, WrappedCapacity, NextValidCapacity;
    if SizeWraps(str) {
      if 8 * count - padding >= WORD {
        assert size != 8 * count - padding;
      }
    } else {
      SameBytesSameBits(bits, str[..count], size);
    }
    hide Bits;
  }

  // ----- The state between two steps of a loop -----

  /** `d` with the bytes from `n` on replaced by those of `u`. */
  ghost function Above(d: seq<byte>, u: seq<byte>, n: nat): seq<byte>
    requires n <= |d| == |u|
  {
    d[..n] + u[n..]
  }

  /** `d` with the bytes before `n` replaced by those of `u`. */
  ghost function Below(d: seq<byte>, u: seq<byte>, n: nat): seq<byte>
    requires n <= |d| == |u|
  {
    u[..n] + d[n..]
  }

  /** `d` with the bytes from `at` on overwritten by `w`. */
  function Overlay(d: seq<byte>, at: nat, w: seq<byte>): (r: seq<byte>)
    requires at + |w| <= |d|
    ensures |r| == |d|
  {
    d[..at] + w + d[at + |w|..]
  }

  lemma AboveWord(d: seq<byte>, u: seq<byte>, n: nat)
    requires n + 8 <= |d| == |u|
    ensures Overlay(Above(d, u, n + 8), n, u[n..n + 8]) == Above(d, u, n)
  {
  }

  lemma BelowWord(d: seq<byte>, u: seq<byte>, n: nat)
    requires n + 8 <= |d| == |u|
    ensures Overlay(Below(d, u, n), n, u[n..n + 8]) == Below(d, u, n + 8)
  {
  }

  // ----- Shifting up -----

  /** Reads of byte `n` and of the byte below it still see the old bytes. */
  lemma ByteStepUp(d: seq<byte>, u: seq<byte>, n: nat)
    requires 0 < n < |d| == |u| && u[n] == ShiftUp(d[n], d[n - 1])
    ensures var b := Above(d, u, n + 1);
            |b| == |d| && b[n := ShiftUp(b[n], b[n - 1])] == Above(d, u, n)
  {
  }

  /** The bytes after `start` and up to `last` are those of `d` shifted up. */
  ghost predicate UpTo(d: seq<byte>, u: seq<byte>, start: nat, last: nat)
    requires last < |d| == |u|
  {
    forall n {:trigger u[n]} :: start < n <= last ==> u[n] == ShiftUp(d[n], d[n - 1])
  }

  lemma UpAt(d: seq<byte>, u: seq<byte>, start: nat, last: nat, n: nat)
    requires last < |d| == |u| && UpTo(d, u, start, last) && start < n <= last
    ensures u[n] == ShiftUp(d[n], d[n - 1])
  {
  }

  lemma UnshiftFacts(d: seq<byte>, last: nat, v: bool)
    requires last < |d|
    ensures Above(d, UnshiftBytes(d, last, v), last + 1) == d
    ensures UpTo(d, UnshiftBytes(d, last, v), 0, last)
  {
  }

  lemma FirstByteUp(d: seq<byte>, last: nat, v: bool)
    requires last < |d|
    ensures var u := UnshiftBytes(d, last, v);
            var b := Above(d, u, 1);
            |b| == |d| && b[0 := ShiftIn(b[0], ToByte(v))] == u
  {
  }

  lemma WordUpFromBytes(d: seq<byte>, last: nat, v: bool, n: nat)
    requires last < |d| && 0 < n && n + 8 <= last + 1
    ensures Store64(WordUp(Load64(d[n..n + 8]), d[n - 1] >> 7)) == UnshiftBytes(d, last, v)[n..n + 8]
  {
    hide Load64, Store64, WordUp, ShiftUp, ShiftIn;
    CarryIn(d[n], d[n - 1]);
    WordShiftUp(d[n..n + 8], d[n - 1] >> 7);
  }

  lemma WordStepUp(d: seq<byte>, last: nat, v: bool, n: nat, b: seq<byte>)
    requires last < |d| && 0 < n && n + 8 <= last
    requires b == Above(d, UnshiftBytes(d, last, v), n + 8)
    ensures |b| == |d|
    ensures Overlay(b, n, Store64(WordUp(Load64(b[n..n + 8]), b[n - 1] >> 7))) == Above(d, UnshiftBytes(d, last, v), n)
  {
    WordUpFromBytes(d, last, v, n);
    hide Load64, Store64, WordUp, UnshiftBytes;
    assert b[n..n + 8] == d[n..n + 8];
    AboveWord(d, UnshiftBytes(d, last, v), n);
  }

  lemma FirstWordUp(d: seq<byte>, last: nat, v: bool, b: seq<byte>)
    requires 8 <= last < |d| && b == Above(d, UnshiftBytes(d, last, v), 8)
    ensures |b| == |d|
    ensures Overlay(b, 0, Store64(WordUp(Load64(b[0..8]), ToByte(v)))) == UnshiftBytes(d, last, v)
  {
    assert b[0..8] == d[0..8];
    assert Store64(WordUp(Load64(d[0..8]), ToByte(v))) == UnshiftBytes(d, last, v)[0..8] by {
      hide Load64, Store64, WordUp, ShiftUp, ShiftIn;
      WordShiftUp(d[0..8], ToByte(v));
    }
    hide Load64, Store64, WordUp, UnshiftBytes;
    AboveWord(d, UnshiftBytes(d, last, v), 0);
  }

  lemma InsertFacts(d: seq<byte>, last: nat, at: nat, v: bool)
    requires at / 8 <= last < |d|
    ensures Above(d, InsertBytes(d, last, at, v), last + 1) == d
    ensures UpTo(d, InsertBytes(d, last, at, v), at / 8, last)
  {
    hide ShiftUp, InsertBit;
  }

  lemma InsertStep(d: seq<byte>, last: nat, at: nat, v: bool)
    requires at / 8 <= last < |d|
    ensures var u := InsertBytes(d, last, at, v);
            var b := Above(d, u, at / 8 + 1);
            |b| == |d| && b[at / 8 := InsertBit(b[at / 8], at % 8, v)] == u
  {
    hide ShiftUp, InsertBit;
  }

  // ----- Shifting down -----

  lemma ByteStepDown(d: seq<byte>, u: seq<byte>, n: nat)
    requires n + 1 < |d| == |u| && u[n] == ShiftDown(d[n], d[n + 1])
    ensures var b := Below(d, u, n);
            |b| == |d| && b[n := ShiftDown(b[n], b[n + 1])] == Below(d, u, n + 1)
  {
  }

  /** From byte `first`, `u` is `d` shifted down, with a zero entering byte `last`. */
  ghost predicate DownTo(d: seq<byte>, u: seq<byte>, first: nat, last: nat)
    requires last < |d| == |u|
  {
    && (forall n {:trigger u[n]} :: first <= n < last ==> u[n] == ShiftDown(d[n], d[n + 1]))
    && u[last] == Half(d[last])
    && forall n {:trigger u[n]} :: last < n < |d| ==> u[n] == d[n]
  }

  lemma DownToLater(d: seq<byte>, u: seq<byte>, first: nat, n: nat, last: nat)
    requires last < |d| == |u| && DownTo(d, u, first, last) && first <= n
    ensures DownTo(d, u, n, last)
  {
  }

  lemma DownAt(d: seq<byte>, u: seq<byte>, first: nat, last: nat, n: nat)
    requires last < |d| == |u| && DownTo(d, u, first, last) && first <= n < last
    ensures u[n] == ShiftDown(d[n], d[n + 1])
  {
  }

  lemma HalfStep(d: seq<byte>, u: seq<byte>, first: nat, last: nat)
    requires last < |d| == |u| && DownTo(d, u, first, last)
    ensures var b := Below(d, u, last);
            |b| == |d| && b[last := Half(b[last])] == u
  {
  }

  lemma ShiftFacts(d: seq<byte>, last: nat)
    requires last < |d|
    ensures Below(d, ShiftBytes(d, last), 0) == d
    ensures DownTo(d, ShiftBytes(d, last), 0, last)
  {
    hide ShiftDown, Half;
  }

  lemma WordDownFromBytes(d: seq<byte>, last: nat, n: nat)
    requires n + 8 <= last < |d|
    ensures Store64(WordDown(Load64(d[n..n + 8]), d[n + 8])) == ShiftBytes(d, last)[n..n + 8]
  {
    hide Load64, Store64, WordDown, ShiftDown, Half;
    WordShiftDown(d[n..n + 8], d[n + 8]);
  }

  lemma WordStepDown(d: seq<byte>, last: nat, n: nat, b: seq<byte>)
    requires n + 8 <= last < |d| && b == Below(d, ShiftBytes(d, last), n)
    ensures |b| == |d|
    ensures Overlay(b, n, Store64(WordDown(Load64(b[n..n + 8]), b[n + 8]))) == Below(d, ShiftBytes(d, last), n + 8)
  {
    WordDownFromBytes(d, last, n);
    hide Load64, Store64, WordDown, ShiftBytes;
    assert b[n..n + 8] == d[n..n + 8];
    BelowWord(d, ShiftBytes(d, last), n);
  }

  lemma UnsetFacts(d: seq<byte>, last: nat, at: nat)
    requires at / 8 <= last < |d|
    ensures var u := UnsetBytes(d, last, at);
            var n := at / 8;
            if n == last then d[n := RemoveBitFromByte(d[n], at % 8)] == u
            else d[n := RemoveAndFill(d[n], at % 8, d[n + 1])] == Below(d, u, n + 1) && DownTo(d, u, n + 1, last)
  {
    hide ShiftDown, Half, RemoveBitFromByte, RemoveAndFill;
  }

  lemma SameBytesSameBits(a: seq<byte>, b: seq<byte>, n: nat)
    requires n <= 8 * |a| && n <= 8 * |b|
    requires forall j :: 0 <= j < |a| && j < |b| ==> a[j] == b[j]
    ensures Bits(a, n) == Bits(b, n)
  {
  }

  // ----- Lists -----

  lemma SpliceOneMore(s: seq<bool>, at: nat, args: seq<bool>, n: nat)
    requires at <= |s| && n < |args|
    ensures var l := s[..at] + args[..n] + s[at..];
            l[..at + n] + [args[n]] + l[at + n..] == s[..at] + args[..n + 1] + s[at..]
  {
  }

  /** What setSize is documented to give: a prefix, or the list padded with `v`. */
  ghost function Resized(s: seq<bool>, n: nat, v: bool): seq<bool> {
    if n <= |s| then s[..n] else s + seq(n - |s|, _ => v)
  }
}
