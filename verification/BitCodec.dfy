/**
 Writing one bit, filling a range of bits, and the serialized form of Teds\BitVector: the packed bytes, with
 the padding cleared, followed by one byte that counts the padding bits.
 */
module BitCodec {
  import opened Wrappers
  import opened PackedBits

  // ----- Writing one bit -----

  lemma WriteBits(d: seq<byte>, n: nat, at: nat, v: bool)
    requires at < n <= 8 * |d|
    ensures Bits(d[at / 8 := SetBit(d[at / 8], at % 8, v)], n) == Bits(d, n)[at := v]
  {
    var r := d[at / 8 := SetBit(d[at / 8], at % 8, v)];
    forall i | 0 <= i < n
      ensures BitAt(r, i) == if i == at then v else BitAt(d, i)
    {
      SetBitSpec(d[at / 8], at % 8, v, i % 8);
    }
  }

  lemma AppendBits(d: seq<byte>, n: nat, v: bool)
    requires n < 8 * |d|
    ensures Bits(d, n + 1)[n := v] == Bits(d, n) + [v]
  {
  }

  // ----- Filling a range -----

  /** The bits from `k` up become `v`. */
  function FillHigh(b: byte, k: nat, v: bool): byte
    requires k < 8
  {
    if v then b | (0xff ^ LowMask(k)) else b & LowMask(k)
  }

  /** `(1 << k) - 1` */
  function LowMask(k: nat): byte
    requires k <= 8
  {
    ((Shl1(k) - 1) & 0xff) as byte
  }

  function FillBytes(d: seq<byte>, start: nat, end: nat, v: bool): (r: seq<byte>)
    requires start < end <= 8 * |d|
    ensures |r| == |d|
  {
    seq(|d|, j requires 0 <= j < |d| =>
      if (start + 7) / 8 <= j < (end + 7) / 8 then if v then 0xff else 0
      else if j == start / 8 then FillHigh(d[j], start % 8, v) else d[j])
  }

  lemma FillBits(d: seq<byte>, start: nat, end: nat, v: bool)
    requires start < end <= 8 * |d|
    ensures Bits(FillBytes(d, start, end, v), end) == Bits(d, start) + seq(end - start, _ => v)
  {
  }

  // ----- The serialized form -----

  /** The bit of byte `j` at `k`, with false past the end of the list. */
  function PaddedAt(s: seq<bool>, i: nat): bool {
    i < |s| && s[i]
  }

  function ByteOf(s: seq<bool>, j: nat): byte {
    ToByte(PaddedAt(s, 8 * j)) | (ToByte(PaddedAt(s, 8 * j + 1)) << 1) |
    (ToByte(PaddedAt(s, 8 * j + 2)) << 2) | (ToByte(PaddedAt(s, 8 * j + 3)) << 3) |
    (ToByte(PaddedAt(s, 8 * j + 4)) << 4) | (ToByte(PaddedAt(s, 8 * j + 5)) << 5) |
    (ToByte(PaddedAt(s, 8 * j + 6)) << 6) | (ToByte(PaddedAt(s, 8 * j + 7)) << 7)
  }

  function PackBytes(s: seq<bool>): (d: seq<byte>)
    ensures |d| == (|s| + 7) / 8
  {
    seq((|s| + 7) / 8, j requires 0 <= j < (|s| + 7) / 8 => ByteOf(s, j))
  }

  function CountByte(p: nat): byte
    requires p < 8
  {
    p as byte
  }

  function ByteCount(b: byte): (p: nat) {
    b as nat
  }

  lemma CountRoundTrip(p: nat)
    requires p < 8
    ensures ByteCount(CountByte(p)) == p
  {
  }

  lemma CountByteOf(b: byte)
    requires ByteCount(b) < 8
    ensures CountByte(ByteCount(b)) == b
  {
  }

  /** Depends on the list alone. */
  function Encode(s: seq<bool>): (str: seq<byte>)
    ensures s != [] ==> |str| == (|s| + 7) / 8 + 1
  {
    if s == [] then [] else PackBytes(s) + [CountByte(Padding(|s|))]
  }

  /** `(8 - n) & 7` on unsigned words. */
  function Padding(n: nat): (p: nat)
    ensures p == 8 * ((n + 7) / 8) - n && p < 8
  {
    (8 - n) % 8
  }

  /** The bits that the bytes encode; there are none when more bits are unused than there are. */
  function Decode(str: seq<byte>): Option<seq<bool>> {
    if str == [] then Some([])
    else
      var count := |str| - 1;
      var padding := ByteCount(str[count]);
      if padding >= 8 || 8 * count < padding then None else Some(Bits(str[..count], 8 * count - padding))
  }

  // ----- Sizes on 64-bit words -----

  const WORD: nat := 0x1_0000_0000_0000_0000

  /** The only test made before reading. */
  predicate Accepted(str: seq<byte>) {
    str == [] || ByteCount(str[|str| - 1]) < 8
  }

  /** `byte_count * 8 - modulo_bit_len` as an unsigned word. */
  function SizeFromBytes(count: nat, padding: nat): (size: nat)
    ensures size < WORD
    ensures 0 <= 8 * count - padding < WORD ==> size == 8 * count - padding
  {
    (8 * count - padding) % WORD
  }

  /**
   The size or the capacity wraps around: one to seven unused bits in no bytes, or a string longer than any
   address space.
   */
  predicate SizeWraps(str: seq<byte>) {
    Accepted(str) && str != [] &&
    var count, padding := |str| - 1, ByteCount(str[|str| - 1]);
    (count == 0 && padding > 0) || 8 * count - padding >= WORD - 64
  }

  /** On strings that fit in memory the size wraps for seven inputs alone. */
  lemma WrappingInputs(str: seq<byte>)
    requires |str| <= 0x1000_0000_0000_0000
    ensures SizeWraps(str) <==> |str| == 1 && 1 <= ByteCount(str[0]) <= 7
    ensures SizeWraps(str) <==> |str| == 1 && 1 <= str[0] <= 7
  {
    if |str| == 1 {
      CountsAreNumbers(0, str[0]);
      CountsNonzero(str[0]);
    }
    hide ByteCount;
  }

  /** Three unused bits in no bytes: accepted, although nothing is encoded, with a size three below 2^64. */
  lemma ThreeUnusedBitsOfNone()
    ensures Accepted([3]) && SizeWraps([3]) && Decode([3]) == None
    ensures SizeFromBytes(0, 3) == 0xFFFF_FFFF_FFFF_FFFD
  {
  }

  /** What is written never wraps when read. */
  lemma EncodedDoesNotWrap(s: seq<bool>)
    requires |s| < WORD - 64
    ensures Accepted(Encode(s)) && !SizeWraps(Encode(s))
  {
    if s != [] {
      EncodeParts(s);
      CountRoundTrip(Padding(|s|));
      hide ByteCount, CountByte, PackBytes, Encode;
      assert Encode(s)[|Encode(s)| - 1] == CountByte(Padding(|s|));
    }
  }

  lemma ByteOfSpec(s: seq<bool>, j: nat, k: nat)
    requires k < 8
    ensures Bit(ByteOf(s, j), k) == PaddedAt(s, 8 * j + k)
  {
  }

  /** Two bytes with the same bits are the same. */
  lemma SameBits(a: byte, b: byte)
    requires forall k :: 0 <= k < 8 ==> Bit(a, k) == Bit(b, k)
    ensures a == b
  {
    assert Bit(a, 0) == Bit(b, 0) && Bit(a, 1) == Bit(b, 1) && Bit(a, 2) == Bit(b, 2) && Bit(a, 3) == Bit(b, 3);
    assert Bit(a, 4) == Bit(b, 4) && Bit(a, 5) == Bit(b, 5) && Bit(a, 6) == Bit(b, 6) && Bit(a, 7) == Bit(b, 7);
  }

  lemma LowMaskSpec(b: byte, k: nat, i: nat)
    requires k <= 8 && i < 8
    ensures Bit(b & LowMask(k), i) == (i < k && Bit(b, i))
  {
  }

  lemma BitOfByte(d: seq<byte>, j: nat, k: nat)
    requires j < |d| && k < 8
    ensures BitAt(d, 8 * j + k) == Bit(d[j], k)
  {
  }

  /** Byte `j` of the masked copy. */
  function MaskedByte(d: seq<byte>, n: nat, j: nat): byte
    requires j < (n + 7) / 8 <= |d|
  {
    if j == (n + 7) / 8 - 1 then d[j] & LowMask(8 - Padding(n)) else d[j]
  }

  lemma MaskedBit(d: seq<byte>, n: nat, j: nat, k: nat)
    requires n <= 8 * |d| && j < (n + 7) / 8 && k < 8
    ensures Bit(MaskedByte(d, n, j), k) == PaddedAt(Bits(d, n), 8 * j + k)
  {
    hide Bit, LowMask, BitAt, Padding;
    LowMaskSpec(d[j], 8 - Padding(n), k);
    BitOfByte(d, j, k);
  }

  lemma MaskedByteIsCanonical(d: seq<byte>, n: nat, j: nat)
    requires n <= 8 * |d| && j < (n + 7) / 8
    ensures MaskedByte(d, n, j) == ByteOf(Bits(d, n), j)
  {
    hide *;
    forall k | 0 <= k < 8
      ensures Bit(MaskedByte(d, n, j), k) == Bit(ByteOf(Bits(d, n), j), k)
    {
      ByteOfSpec(Bits(d, n), j, k);
      MaskedBit(d, n, j, k);
    }
    SameBits(MaskedByte(d, n, j), ByteOf(Bits(d, n), j));
  }

  /** The bytes in use, the last one masked. */
  function MaskedCopy(d: seq<byte>, n: nat): (c: seq<byte>)
    requires 0 < n <= 8 * |d|
    ensures |c| == (n + 7) / 8
    ensures forall j :: 0 <= j < |c| ==> c[j] == MaskedByte(d, n, j)
  {
    var m := (n + 7) / 8;
    d[..m][m - 1 := d[m - 1] & LowMask(8 - Padding(n))]
  }

  /** Whatever the padding bits hold, the masked copy is the canonical form of the list. */
  lemma MaskedCopyIsCanonical(d: seq<byte>, n: nat)
    requires 0 < n <= 8 * |d|
    ensures MaskedCopy(d, n) == PackBytes(Bits(d, n))
  {
    hide ByteOf, MaskedByte, BitAt, MaskedCopy;
    forall j | 0 <= j < (n + 7) / 8
      ensures MaskedByte(d, n, j) == ByteOf(Bits(d, n), j)
    {
      MaskedByteIsCanonical(d, n, j);
    }
  }

  lemma UnpackPacked(s: seq<bool>)
    ensures Bits(PackBytes(s), |s|) == s
  {
  }

  lemma DecodeParts(d: seq<byte>, padding: byte)
    requires d != [] && ByteCount(padding) < 8
    ensures Decode(d + [padding]) == Some(Bits(d, 8 * |d| - ByteCount(padding)))
  {
  }

  lemma EncodeParts(s: seq<bool>)
    requires s != []
    ensures Encode(s) == PackBytes(s) + [CountByte(Padding(|s|))]
  {
  }

  lemma EncodedAndDecoded(s: seq<bool>)
    requires s != []
    ensures Decode(Encode(s)) == Some(s)
  {
    hide *;
    EncodeParts(s);
    CountRoundTrip(Padding(|s|));
    UnpackPacked(s);
    DecodeParts(PackBytes(s), CountByte(Padding(|s|)));
  }

  /** Every bit list survives serialization. */
  lemma SerializeRoundTrip(s: seq<bool>)
    ensures Decode(Encode(s)) == Some(s)
  {
    if s != [] {
      EncodedAndDecoded(s);
    }
  }

  /** The bits after the first `n` are zero. */
  ghost predicate PaddingIsZero(d: seq<byte>, n: nat) {
    forall i :: n <= i < 8 * |d| ==> !BitAt(d, i)
  }

  /** Masking leaves the last byte alone exactly when its padding is zero. */
  lemma MaskKeepsIffPaddingIsZero(d: seq<byte>, n: nat)
    requires 0 < |d| && 8 * |d| - 8 < n <= 8 * |d|
    ensures MaskedCopy(d, n) == d <==> PaddingIsZero(d, n)
  {
    hide MaskedCopy, MaskedByte, BitAt, Bit;
    if MaskedCopy(d, n) == d {
      forall i | n <= i < 8 * |d|
        ensures !BitAt(d, i)
      {
        MaskedBit(d, n, i / 8, i % 8);
        BitOfByte(d, i / 8, i % 8);
      }
    }
    if PaddingIsZero(d, n) {
      forall j | 0 <= j < |d|
        ensures MaskedByte(d, n, j) == d[j]
      {
        ZeroPaddedByte(d, n, j);
      }
    }
  }

  lemma ZeroPaddedByte(d: seq<byte>, n: nat, j: nat)
    requires 0 < |d| && 8 * |d| - 8 < n <= 8 * |d| && j < |d| && PaddingIsZero(d, n)
    ensures MaskedByte(d, n, j) == d[j]
  {
    hide MaskedByte, BitAt, Bit;
    forall k | 0 <= k < 8
      ensures Bit(MaskedByte(d, n, j), k) == Bit(d[j], k)
    {
      MaskedBit(d, n, j, k);
      BitOfByte(d, j, k);
    }
    hide *;
    SameBits(MaskedByte(d, n, j), d[j]);
  }

  /** Serializing what was read gives the same bytes exactly when the padding bits are all zero. */
  lemma ReserializedIffPaddingIsZero(d: seq<byte>, padding: byte)
    requires d != [] && ByteCount(padding) < 8
    ensures Decode(d + [padding]).Some?
    ensures Encode(Decode(d + [padding]).value) == d + [padding] <==> PaddingIsZero(d, 8 * |d| - ByteCount(padding))
  {
    hide *;
    var n := 8 * |d| - ByteCount(padding);
    PaddingOf(|d|, ByteCount(padding));
    EncodeParts(Bits(d, n));
    DecodeParts(d, padding);
    MaskedCopyIsCanonical(d, n);
    MaskKeepsIffPaddingIsZero(d, n);
    CountByteOf(padding);
    SameTail(MaskedCopy(d, n), d, padding);
  }

  /** One byte of ones with one unused bit: accepted, but written back with that bit cleared. */
  lemma PaddingIsCleared()
    ensures Decode([0xff, 1]).Some? && Encode(Decode([0xff, 1]).value) != [0xff, 1]
  {
    var d: seq<byte>, padding: byte := [0xff], 1;
    assert d + [padding] == [0xff, 1];
    assert BitAt(d, 7) && ByteCount(padding) == 1;
    assert !PaddingIsZero(d, 8 * |d| - ByteCount(padding));
    hide *;
    ReserializedIffPaddingIsZero(d, padding);
  }

  lemma PaddingOf(count: nat, p: nat)
    requires count > 0 && p < 8
    ensures Padding(8 * count - p) == p && (8 * count - p + 7) / 8 == count
  {
  }

  lemma SameTail(a: seq<byte>, b: seq<byte>, x: byte)
    ensures a + [x] == b + [x] <==> a == b
  {
    assert (a + [x])[..|a + [x]| - 1] == a && (b + [x])[..|b + [x]| - 1] == b;
  }

  // ----- The bytes themselves -----

  /** Bit `k` of a byte as its mask picks it out. */
  function Picked(b: byte, k: nat): bool
    requires k < 8
  {
    var masks: seq<byte> := [0x01, 0x02, 0x04, 0x08, 0x10, 0x20, 0x40, 0x80];
    b & masks[k] != 0
  }

  lemma PickedIsBit(b: byte, k: nat)
    requires k < 8
    ensures Picked(b, k) == Bit(b, k)
  {
  }

  /**
   Element `i` is bit `i % 8` of byte `i / 8`, the lowest bit first; the unused bits are 0, and the last byte is
   their number.
   */
  ghost predicate WrittenBits(s: seq<bool>, str: seq<byte>) {
    && |str| == (|s| + 7) / 8 + 1
    && (forall i :: 0 <= i < |s| ==> Picked(str[i / 8], i % 8) == s[i])
    && (forall i :: |s| <= i < 8 * (|str| - 1) ==> !Picked(str[i / 8], i % 8))
    && var counts: seq<byte> := [0, 7, 6, 5, 4, 3, 2, 1];
       str[|str| - 1] == counts[|s| % 8]
  }

  lemma EncodedBytes(s: seq<bool>)
    ensures Encode([]) == []
    ensures s != [] ==> WrittenBits(s, Encode(s))
  {
    if s != [] {
      EncodeParts(s);
      PaddingByLength(|s|);
      hide Encode, CountByte, Padding, ByteOf;
      forall i | 0 <= i < 8 * (|Encode(s)| - 1)
        ensures Picked(Encode(s)[i / 8], i % 8) == PaddedAt(s, i)
      {
        PickedIsBit(Encode(s)[i / 8], i % 8);
        ByteOfSpec(s, i / 8, i % 8);
        hide Picked, Bit;
      }
      hide Picked;
    }
  }

  lemma PaddingByLength(n: nat)
    ensures var counts: seq<byte> := [0, 7, 6, 5, 4, 3, 2, 1];
            CountByte(Padding(n)) == counts[n % 8]
  {
    CountsAreNumbers(Padding(n), 0);
    hide CountByte;
  }

  /** The count byte is the number itself, both ways. */
  lemma CountsAreNumbers(p: nat, b: byte)
    ensures p < 8 ==>
              var bytes: seq<byte> := [0, 1, 2, 3, 4, 5, 6, 7];
              CountByte(p) == bytes[p]
    ensures ByteCount(0) == 0 && ByteCount(1) == 1 && ByteCount(2) == 2 && ByteCount(3) == 3
    ensures ByteCount(4) == 4 && ByteCount(5) == 5 && ByteCount(6) == 6 && ByteCount(7) == 7
    ensures b > 7 <==> ByteCount(b) >= 8
  {
  }

  lemma CountsNonzero(b: byte)
    ensures b == 0 <==> ByteCount(b) == 0
  {
  }

  /** Three elements: the byte 5, with five bits unused. */
  lemma ThreeBitsWritten()
    ensures Encode([true, false, true]) == [5, 5]
    ensures Decode([5, 5]) == Some([true, false, true])
  {
    var s := [true, false, true];
    EncodedBytes(s);
    SerializeRoundTrip(s);
    var str := Encode(s);
    hide Encode, Decode, Picked;
    FirstByte(s, str, 0);
    FirstByte(s, str, 1);
    FirstByte(s, str, 2);
    FirstByte(s, str, 3);
    FirstByte(s, str, 4);
    FirstByte(s, str, 5);
    FirstByte(s, str, 6);
    FirstByte(s, str, 7);
    PickedByteFive(str[0]);
  }

  lemma FirstByte(s: seq<bool>, str: seq<byte>, k: nat)
    requires s != [] && WrittenBits(s, str) && k < 8
    ensures Picked(str[0], k) == (k < |s| && s[k])
  {
    assert k / 8 == 0 && k % 8 == k;
    hide Picked;
    assert k < |s| ==> Picked(str[k / 8], k % 8) == s[k];
    assert k >= |s| ==> !Picked(str[k / 8], k % 8);
  }

  /** Read the same way: accepted when at most seven bits are unused. */
  ghost predicate ReadBits(str: seq<byte>, s: seq<bool>) {
    && str != [] && 0 <= 8 * (|str| - 1) - |s| < 8
    && (forall i :: 0 <= i < |s| ==> s[i] == Picked(str[i / 8], i % 8))
    && var bytes: seq<byte> := [0, 1, 2, 3, 4, 5, 6, 7];
       str[|str| - 1] == bytes[8 * (|str| - 1) - |s|]
  }

  lemma DecodedBits(str: seq<byte>)
    ensures Accepted(str) <==> str == [] || str[|str| - 1] <= 7
    ensures Decode([]) == Some([])
    ensures str != [] && Decode(str).Some? ==> ReadBits(str, Decode(str).value)
    ensures Accepted(str) && |str| >= 2 ==> Decode(str).Some?
  {
    if str != [] {
      var last := str[|str| - 1];
      CountsAreNumbers(ByteCount(last), last);
      if ByteCount(last) < 8 {
        CountByteOf(last);
      }
      hide ByteCount, CountByte;
      if Decode(str).Some? {
        var s := Decode(str).value;
        forall i | 0 <= i < |s|
          ensures s[i] == Picked(str[i / 8], i % 8)
        {
          PickedIsBit(str[i / 8], i % 8);
          hide Picked, Bit;
        }
      }
      hide Picked, Bits;
    }
  }

  lemma PickedByteFive(b: byte)
    requires Picked(b, 0) && !Picked(b, 1) && Picked(b, 2)
    requires !Picked(b, 3) && !Picked(b, 4) && !Picked(b, 5) && !Picked(b, 6) && !Picked(b, 7)
    ensures b == 5
  {
  }
}
