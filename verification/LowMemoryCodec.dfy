/**
 The serialized forms of a Teds\LowMemoryVector of null, false and true: one bit each when there is no null,
 else two bits each, then a byte that counts the unused places.
 */
module LowMemoryCodec {
  import opened Wrappers
  import opened Bitwise
  import opened ByteStrings
  import opened DigitCodec

  const IS_NULL: nat := 1
  const IS_FALSE: nat := 2
  const IS_TRUE: nat := 3

  /** The type of an element stands for the element. */
  type BoolOrNull = x: int | 1 <= x <= 3 witness 1

  /** The tags written beside the bytes. */
  const BOOL_BITSET: nat := 0
  const BOOL_OR_NULL: nat := 1

  datatype Serialized = Serialized(tag: nat, bytes: Bytes)

  // ----- Digits -----

  function BoolDigit(x: BoolOrNull): nat {
    if x == IS_TRUE then 1 else 0
  }

  function PairDigit(x: BoolOrNull): nat {
    (x - IS_NULL + 1) % 4
  }

  function DigitOf(w: Width, x: BoolOrNull): (d: nat)
    ensures d < Base(w)
  {
    if w == OneBit then BoolDigit(x) else PairDigit(x)
  }

  function TypeFromBit(d: nat): BoolOrNull
    requires d < 2
  {
    IS_FALSE + d
  }

  function TypeFromBitPair(d: nat): BoolOrNull
    requires d < 4
  {
    if d == 0 then IS_NULL else (IS_NULL - 1) + d
  }

  function TypeOf(w: Width, d: nat): BoolOrNull
    requires d < Base(w)
  {
    if w == OneBit then TypeFromBit(d) else TypeFromBitPair(d)
  }

  function DigitsOf(w: Width, src: seq<BoolOrNull>): (s: seq<nat>)
    ensures |s| == |src| && AllDigits(w, s)
    ensures forall i :: 0 <= i < |s| ==> s[i] == DigitOf(w, src[i])
  {
    seq(|src|, i requires 0 <= i < |src| => DigitOf(w, src[i]))
  }

  function TypesOf(w: Width, s: seq<nat>): (dst: seq<BoolOrNull>)
    requires AllDigits(w, s)
    ensures |dst| == |s|
    ensures forall i :: 0 <= i < |s| ==> dst[i] == TypeOf(w, s[i])
  {
    seq(|s|, i requires 0 <= i < |s| => TypeOf(w, s[i]))
  }

  // ----- What is written and read -----

  function WidthFor(src: seq<BoolOrNull>): Width {
    if IS_NULL in src then TwoBits else OneBit
  }

  function EncodeAs(w: Width, src: seq<BoolOrNull>): Bytes {
    EncodeDigits(w, DigitsOf(w, src)) + [Wasted(w, |src|)]
  }

  function Encode(src: seq<BoolOrNull>): Serialized {
    var w := WidthFor(src);
    Serialized(if w == TwoBits then BOOL_OR_NULL else BOOL_BITSET, EncodeAs(w, src))
  }

  /** `limit` is the largest number of elements a collection may have. */
  function DecodeAs(w: Width, bytes: Bytes, limit: nat): Option<seq<BoolOrNull>> {
    if |bytes| <= 1 || bytes[|bytes| - 1] >= PerByte(w) || |bytes| >= limit / PerByte(w) - 1 then None
    else
      var n := PerByte(w) * (|bytes| - 1) - bytes[|bytes| - 1];
      CountMatches(w, |bytes| - 1, bytes[|bytes| - 1]);
      Some(TypesOf(w, DecodeDigits(w, bytes[..|bytes| - 1], n)))
  }

  function Decode(s: Serialized, limit: nat): Option<seq<BoolOrNull>>
    requires s.tag <= BOOL_OR_NULL
  {
    DecodeAs(if s.tag == BOOL_BITSET then OneBit else TwoBits, s.bytes, limit)
  }

  lemma CountMatches(w: Width, count: nat, wasted: nat)
    requires count > 0 && wasted < PerByte(w)
    ensures PerByte(w) * count - wasted > 0 && BytesFor(w, PerByte(w) * count - wasted) == count
    ensures Wasted(w, PerByte(w) * count - wasted) == wasted
  {
  }

  lemma TypesOfDigits(w: Width, src: seq<BoolOrNull>)
    requires w == TwoBits || IS_NULL !in src
    ensures TypesOf(w, DigitsOf(w, src)) == src
  {
  }

  lemma DecodeAsParts(w: Width, body: Bytes, wasted: nat, n: nat, limit: nat)
    requires body != [] && wasted < PerByte(w) && n + wasted == PerByte(w) * |body| && BytesFor(w, n) == |body|
    ensures var bytes := body + [wasted];
            DecodeAs(w, bytes, limit) ==
            if |bytes| >= limit / PerByte(w) - 1 then None else Some(TypesOf(w, DecodeDigits(w, body, n)))
  {
    var bytes := body + [wasted];
    assert bytes[..|bytes| - 1] == body && bytes[|bytes| - 1] == wasted;
    hide TypesOf, DecodeDigits, PerByte, BytesFor;
  }

  lemma DecodeAsEncoded(w: Width, src: seq<BoolOrNull>, limit: nat)
    requires src != [] && (w == TwoBits || IS_NULL !in src)
    ensures DecodeAs(w, EncodeAs(w, src), limit) ==
            if |EncodeAs(w, src)| >= limit / PerByte(w) - 1 then None else Some(src)
  {
    var digits := DigitsOf(w, src);
    assert EncodeDigits(w, digits) != [];
    assert EncodeAs(w, src) == EncodeDigits(w, digits) + [Wasted(w, |src|)];
    hide *;
    DecodeAsParts(w, EncodeDigits(w, digits), Wasted(w, |src|), |src|, limit);
    DecodeEncoded(w, digits);
    TypesOfDigits(w, src);
  }

  /**
   Unpacking what was packed gives the list back exactly when its length, in bytes of the chosen width, is below
   the decoder's overflow limit; a list near the largest size is written but refused when read.
   */
  lemma RoundTrip(src: seq<BoolOrNull>, limit: nat)
    requires src != []
    ensures Decode(Encode(src), limit) == Some(src) <==>
            BytesFor(WidthFor(src), |src|) + 1 < limit / PerByte(WidthFor(src)) - 1
    ensures Decode(Encode(src), limit) != Some(src) ==> Decode(Encode(src), limit) == None
  {
    DecodeAsEncoded(WidthFor(src), src, limit);
    assert |EncodeAs(WidthFor(src), src)| == BytesFor(WidthFor(src), |src|) + 1;
    hide EncodeAs, DecodeAs, BytesFor;
  }

  /** A full-sized list of booleans cannot be read back. */
  lemma LargestIsRefused(src: seq<BoolOrNull>, limit: nat)
    requires |src| == limit && limit >= 8 && limit % 8 == 0 && IS_NULL !in src
    ensures Decode(Encode(src), limit) == None
  {
  }

  // ----- The bytes themselves -----

  /** Bit `k` of a byte. */
  function BitOf(b: nat, k: nat): nat
    requires k < 8
  {
    b / [1, 2, 4, 8, 16, 32, 64, 128][k] % 2
  }

  /** Pair `k` of a byte. */
  function PairOf(b: nat, k: nat): nat
    requires k < 4
  {
    b / [1, 4, 16, 64][k] % 4
  }

  /** One bit for each element, 1 for true (3) alone; unused bits are 0, and the last byte counts them. */
  ghost predicate WrittenAsBits(src: seq<BoolOrNull>, str: Bytes) {
    && |str| == (|src| + 7) / 8 + 1
    && (forall i :: 0 <= i < |src| ==> BitOf(str[i / 8], i % 8) == if src[i] == 3 then 1 else 0)
    && (forall i :: |src| <= i < 8 * (|str| - 1) ==> BitOf(str[i / 8], i % 8) == 0)
    && str[|str| - 1] == 8 * (|str| - 1) - |src|
  }

  /** Two bits for each element: 1 for null, 2 for false, 3 for true. */
  ghost predicate WrittenAsPairs(src: seq<BoolOrNull>, str: Bytes) {
    && |str| == (|src| + 3) / 4 + 1
    && (forall i :: 0 <= i < |src| ==> PairOf(str[i / 4], i % 4) == src[i])
    && (forall i :: |src| <= i < 4 * (|str| - 1) ==> PairOf(str[i / 4], i % 4) == 0)
    && str[|str| - 1] == 4 * (|str| - 1) - |src|
  }

  /** A bit 1 is read as true (3), a bit 0 as false (2). */
  ghost predicate ReadAsBits(bytes: Bytes, dst: seq<BoolOrNull>) {
    && bytes != [] && |dst| + bytes[|bytes| - 1] == 8 * (|bytes| - 1)
    && forall i :: 0 <= i < |dst| ==> dst[i] == if BitOf(bytes[i / 8], i % 8) == 1 then 3 else 2
  }

  /** The pairs 0 and 1 are read as null (1), 2 as false and 3 as true. */
  ghost predicate ReadAsPairs(bytes: Bytes, dst: seq<BoolOrNull>) {
    && bytes != [] && |dst| + bytes[|bytes| - 1] == 4 * (|bytes| - 1)
    && forall i :: 0 <= i < |dst| ==>
         dst[i] == if PairOf(bytes[i / 4], i % 4) == 0 then 1 else PairOf(bytes[i / 4], i % 4)
  }

  lemma PlacesAreDigits(v: nat, k: nat)
    ensures k < 8 ==> BitOf(v, k) == DigitAt(OneBit, v, k)
    ensures k < 4 ==> PairOf(v, k) == DigitAt(TwoBits, v, k)
  {
    SomeWeights(k);
    hide Weight;
  }

  lemma SomeWeights(k: nat)
    ensures k < 8 ==> Weight(OneBit, k) == [1, 2, 4, 8, 16, 32, 64, 128][k]
    ensures k < 4 ==> Weight(TwoBits, k) == [1, 4, 16, 64][k]
  {
    assert Weight(OneBit, 0) == 1 && Weight(OneBit, 1) == 2 && Weight(OneBit, 2) == 4 && Weight(OneBit, 3) == 8;
    assert Weight(OneBit, 4) == 16 && Weight(OneBit, 5) == 32 && Weight(OneBit, 6) == 64;
    assert Weight(OneBit, 7) == 128;
    assert Weight(TwoBits, 0) == 1 && Weight(TwoBits, 1) == 4 && Weight(TwoBits, 2) == 16;
    assert Weight(TwoBits, 3) == 64;
  }

  lemma DigitIs(x: BoolOrNull)
    ensures DigitOf(OneBit, x) == (if x == 3 then 1 else 0) && DigitOf(TwoBits, x) == x
  {
  }

  /** What is written, bit by bit and pair by pair. */
  lemma EncodedBytes(src: seq<BoolOrNull>)
    ensures WrittenAsBits(src, EncodeAs(OneBit, src)) && WrittenAsPairs(src, EncodeAs(TwoBits, src))
  {
    EncodedBits(src);
    EncodedPairs(src);
  }

  lemma EncodedBits(src: seq<BoolOrNull>)
    ensures WrittenAsBits(src, EncodeAs(OneBit, src))
  {
    var s, str := DigitsOf(OneBit, src), EncodeAs(OneBit, src);
    forall i | 0 <= i < 8 * (|str| - 1)
      ensures BitOf(str[i / 8], i % 8) == if i < |src| && src[i] == 3 then 1 else 0
    {
      hide DigitAt, EncodeDigits, BitOf, DigitOf;
      DigitOfEncoded(OneBit, s, i);
      PlacesAreDigits(str[i / 8], i % 8);
      if i < |src| {
        DigitIs(src[i]);
      }
    }
    hide EncodeDigits, BitOf, DigitOf;
  }

  lemma EncodedPairs(src: seq<BoolOrNull>)
    ensures WrittenAsPairs(src, EncodeAs(TwoBits, src))
  {
    var s, str := DigitsOf(TwoBits, src), EncodeAs(TwoBits, src);
    forall i | 0 <= i < 4 * (|str| - 1)
      ensures PairOf(str[i / 4], i % 4) == if i < |src| then src[i] else 0
    {
      hide DigitAt, EncodeDigits, PairOf, DigitOf;
      DigitOfEncoded(TwoBits, s, i);
      PlacesAreDigits(str[i / 4], i % 4);
      if i < |src| {
        DigitIs(src[i]);
      }
    }
    hide EncodeDigits, PairOf, DigitOf;
  }

  /** What is read, bit by bit. */
  lemma DecodedBits(bytes: Bytes, limit: nat)
    requires DecodeAs(OneBit, bytes, limit).Some?
    ensures ReadAsBits(bytes, DecodeAs(OneBit, bytes, limit).value)
  {
    var dst, body := DecodeAs(OneBit, bytes, limit).value, bytes[..|bytes| - 1];
    var n: nat := 8 * |body| - bytes[|bytes| - 1];
    CountMatches(OneBit, |body|, bytes[|bytes| - 1]);
    forall i | 0 <= i < |dst|
      ensures dst[i] == if BitOf(bytes[i / 8], i % 8) == 1 then 3 else 2
    {
      DigitOfDecoded(OneBit, body, n, i);
      PlacesAreDigits(body[i / 8], i % 8);
      hide DigitAt, DecodeDigits;
    }
    hide DecodeDigits, BitOf;
  }

  lemma DecodedPairs(bytes: Bytes, limit: nat)
    requires DecodeAs(TwoBits, bytes, limit).Some?
    ensures ReadAsPairs(bytes, DecodeAs(TwoBits, bytes, limit).value)
  {
    var dst, body := DecodeAs(TwoBits, bytes, limit).value, bytes[..|bytes| - 1];
    var n: nat := 4 * |body| - bytes[|bytes| - 1];
    CountMatches(TwoBits, |body|, bytes[|bytes| - 1]);
    forall i | 0 <= i < |dst|
      ensures dst[i] == if PairOf(bytes[i / 4], i % 4) == 0 then 1 else PairOf(bytes[i / 4], i % 4)
    {
      DigitOfDecoded(TwoBits, body, n, i);
      PlacesAreDigits(body[i / 4], i % 4);
      hide DigitAt, DecodeDigits;
    }
    hide DecodeDigits, PairOf;
  }

  // ----- Whole bytes -----

  /** Eight booleans, each shifted to its place and added. */
  function EightBits(c: seq<BoolOrNull>): nat
    requires |c| == 8
  {
    BoolDigit(c[0]) + BoolDigit(c[1]) * 2 + BoolDigit(c[2]) * 4 + BoolDigit(c[3]) * 8
    + BoolDigit(c[4]) * 16 + BoolDigit(c[5]) * 32 + BoolDigit(c[6]) * 64 + BoolDigit(c[7]) * 128
  }

  /** Four pairs, each shifted to its place and combined with a bitwise or. */
  function FourPairs(c: seq<BoolOrNull>): nat
    requires |c| == 4
  {
    Or(Or(Or(PairDigit(c[0]), PairDigit(c[1]) * 4), PairDigit(c[2]) * 16), PairDigit(c[3]) * 64)
  }

  lemma FourDigits(w: Width, s: seq<nat>)
    requires |s| >= 4
    ensures Digits(w, s) == s[0] + Up(w, s[1] + Up(w, s[2] + Up(w, s[3] + Up(w, Digits(w, s[4..])))))
  {
    assert s[1..][1..] == s[2..] && s[2..][1..] == s[3..] && s[3..][1..] == s[4..];
    assert Digits(w, s[3..]) == s[3] + Up(w, Digits(w, s[4..]));
    assert Digits(w, s[2..]) == s[2] + Up(w, Digits(w, s[3..]));
    assert Digits(w, s[1..]) == s[1] + Up(w, Digits(w, s[2..]));
    hide Up;
  }

  lemma EightBitsAreDigits(c: seq<BoolOrNull>)
    requires |c| == 8
    ensures EightBits(c) == Digits(OneBit, DigitsOf(OneBit, c))
  {
    var s := DigitsOf(OneBit, c);
    FourDigits(OneBit, s);
    FourDigits(OneBit, s[4..]);
    assert s[4..][4..] == [];
    hide BoolDigit;
  }

  /** Or of a number with one whose low bits are all beyond it is their sum. */
  lemma {:induction false} OrDisjoint(x: nat, y: nat, c: nat)
    requires IsPow2(c) && x < c
    ensures Or(x, y * c) == x + y * c
  {
    if c > 1 && x > 0 && y > 0 {
      OrDisjoint(x / 2, y, c / 2);
      hide *;
      HalfProduct(y, c);
      OrStep(x, y * (c / 2));
    }
  }

  lemma HalfProduct(y: nat, c: nat)
    requires IsPow2(c) && c > 1 && y > 0
    ensures y * c == 2 * (y * (c / 2)) && y * (c / 2) > 0
  {
    assert c == 2 * (c / 2);
  }

  lemma OrStep(x: nat, h: nat)
    requires x > 0 && h > 0
    ensures Or(x, 2 * h) == 2 * Or(x / 2, h) + x % 2
  {
  }

  lemma FourPairsAreDigits(c: seq<BoolOrNull>)
    requires |c| == 4
    ensures FourPairs(c) == Digits(TwoBits, DigitsOf(TwoBits, c))
  {
    var s := DigitsOf(TwoBits, c);
    PairsInDigits(c);
    assert FourPairs(c) == Or(Or(Or(s[0], s[1] * 4), s[2] * 16), s[3] * 64) by { hide Or, Digits; }
    hide *;
    OrFour(s[0], s[1], s[2], s[3]);
  }

  lemma PairsInDigits(c: seq<BoolOrNull>)
    requires |c| == 4
    ensures var s := DigitsOf(TwoBits, c);
            Digits(TwoBits, s) == s[0] + s[1] * 4 + s[2] * 16 + s[3] * 64
  {
    var s := DigitsOf(TwoBits, c);
    FourDigits(TwoBits, s);
    assert s[4..] == [];
    assert Digits(TwoBits, []) == 0;
    hide PairDigit, Digits, DigitsOf;
  }

  lemma OrFour(a: nat, b: nat, c: nat, d: nat)
    requires a < 4 && b < 4 && c < 4 && d < 4
    ensures Or(Or(Or(a, b * 4), c * 16), d * 64) == a + b * 4 + c * 16 + d * 64
  {
    assert IsPow2(4) && IsPow2(16) && IsPow2(64);
    hide IsPow2, Or;
    OrDisjoint(a, b, 4);
    OrDisjoint(a + b * 4, c, 16);
    OrDisjoint(a + b * 4 + c * 16, d, 64);
  }

  /** The byte split into eight types. */
  function EightTypes(orig: Octet): (t: seq<BoolOrNull>)
    ensures |t| == 8
  {
    [TypeFromBit(orig % 2), TypeFromBit(orig / 2 % 2), TypeFromBit(orig / 4 % 2), TypeFromBit(orig / 8 % 2),
     TypeFromBit(orig / 16 % 2), TypeFromBit(orig / 32 % 2), TypeFromBit(orig / 64 % 2), TypeFromBit(orig / 128 % 2)]
  }

  function FourTypes(orig: Octet): (t: seq<BoolOrNull>)
    ensures |t| == 4
  {
    [TypeFromBitPair(orig % 4), TypeFromBitPair(orig / 4 % 4),
     TypeFromBitPair(orig / 16 % 4), TypeFromBitPair(orig / 64 % 4)]
  }

  lemma FourPeeled(w: Width, v: nat, n: nat)
    requires n >= 4
    ensures var a := Rest(w, v);
            var b := Rest(w, a);
            var c := Rest(w, b);
            Peel(w, v, n) == [Low(w, v), Low(w, a), Low(w, b), Low(w, c)] + Peel(w, Rest(w, c), n - 4)
  {
    var a := Rest(w, v);
    var b := Rest(w, a);
    var c := Rest(w, b);
    assert Peel(w, a, n - 1) == [Low(w, a)] + Peel(w, b, n - 2);
    assert Peel(w, b, n - 2) == [Low(w, b)] + Peel(w, c, n - 3);
    assert Peel(w, c, n - 3) == [Low(w, c)] + Peel(w, Rest(w, c), n - 4);
    hide Low, Rest;
  }

  lemma EightTypesArePeeled(orig: Octet)
    ensures EightTypes(orig) == TypesOf(OneBit, Peel(OneBit, orig, 8))
  {
    FourPeeled(OneBit, orig, 8);
    FourPeeled(OneBit, orig / 16, 4);
    assert orig / 2 / 2 == orig / 4 && orig / 4 / 2 == orig / 8 && orig / 8 / 2 == orig / 16;
    assert orig / 16 / 2 == orig / 32 && orig / 32 / 2 == orig / 64 && orig / 64 / 2 == orig / 128;
    hide Peel;
  }

  lemma FourTypesArePeeled(orig: Octet)
    ensures FourTypes(orig) == TypesOf(TwoBits, Peel(TwoBits, orig, 4))
  {
    FourPeeled(TwoBits, orig, 4);
    assert orig / 4 / 4 == orig / 16 && orig / 16 / 4 == orig / 64;
    hide Peel;
  }

  // ----- The encoders -----

  /** One whole byte of digits. */
  lemma WholeByte(w: Width, s: seq<nat>, at: nat)
    requires AllDigits(w, s) && at + PerByte(w) <= |s|
    ensures EncodeDigits(w, s[at..]) == [OneByte(w, s[at..at + PerByte(w)])] + EncodeDigits(w, s[at + PerByte(w)..])
  {
    var p := PerByte(w);
    assert s[at..][..p] == s[at..at + p] && s[at..][p..] == s[at + p..];
    if at + p == |s| {
      assert s[at..] == s[at..at + p];
    }
    hide Digits;
  }

  /** The last byte, if it is not full. */
  lemma LastByte(w: Width, s: seq<nat>, at: nat)
    requires AllDigits(w, s) && at <= |s| < at + PerByte(w) && at % PerByte(w) == 0
    ensures at < |s| ==> EncodeDigits(w, s[at..]) == [OneByte(w, s[at..])]
    ensures at == |s| ==> EncodeDigits(w, s[at..]) == [] && Wasted(w, |s|) == 0
  {
  }

  lemma PartDigits(w: Width, src: seq<BoolOrNull>, from: nat, to: nat)
    requires from <= to <= |src|
    ensures DigitsOf(w, src)[from..to] == DigitsOf(w, src[from..to])
  {
  }

  lemma TailDigits(w: Width, src: seq<BoolOrNull>, at: nat)
    requires at <= |src|
    ensures DigitsOf(w, src)[at..] == DigitsOf(w, src[at..])
  {
  }

  method ConvertBoolTypesToBitset(src: seq<BoolOrNull>) returns (str: Bytes)
    requires src != []
    ensures str == EncodeAs(OneBit, src) && WrittenAsBits(src, str)
  {
    hide DigitsOf, EncodeDigits, Digits, EightBits, Wasted, WrittenAsBits;
    ghost var digits := DigitsOf(OneBit, src);
    str := [];
    var at: nat := 0;
    assert digits[0..] == digits;
    while at + 8 <= |src|
      invariant at <= |src| && at % 8 == 0 && str + EncodeDigits(OneBit, digits[at..]) == EncodeDigits(OneBit, digits)
    {
      WholeByte(OneBit, digits, at);
      PartDigits(OneBit, src, at, at + 8);
      EightBitsAreDigits(src[at..at + 8]);
      str := str + [EightBits(src[at..at + 8])];
      at := at + 8;
    }
    str := AppendTail(OneBit, src, at, str);
    EncodedBits(src);
  }

  method ConvertBoolOrNullTypesToBitset(src: seq<BoolOrNull>) returns (str: Bytes)
    requires src != []
    ensures str == EncodeAs(TwoBits, src) && WrittenAsPairs(src, str)
  {
    hide DigitsOf, EncodeDigits, Digits, FourPairs, Wasted, WrittenAsPairs;
    ghost var digits := DigitsOf(TwoBits, src);
    str := [];
    var at: nat := 0;
    assert digits[0..] == digits;
    while at + 4 <= |src|
      invariant at <= |src| && at % 4 == 0 && str + EncodeDigits(TwoBits, digits[at..]) == EncodeDigits(TwoBits, digits)
    {
      WholeByte(TwoBits, digits, at);
      PartDigits(TwoBits, src, at, at + 4);
      FourPairsAreDigits(src[at..at + 4]);
      str := str + [FourPairs(src[at..at + 4])];
      at := at + 4;
    }
    str := AppendTail(TwoBits, src, at, str);
    EncodedPairs(src);
  }

  /** The places left over after the whole bytes, and the count of unused ones. */
  method AppendTail(w: Width, src: seq<BoolOrNull>, at: nat, whole: Bytes) returns (str: Bytes)
    requires at <= |src| < at + PerByte(w) && at % PerByte(w) == 0
    requires whole + EncodeDigits(w, DigitsOf(w, src)[at..]) == EncodeDigits(w, DigitsOf(w, src))
    ensures str == EncodeAs(w, src)
  {
    hide DigitsOf, Digits;
    LastByte(w, DigitsOf(w, src), at);
    if at < |src| {
      var v := TailByte(w, src[at..]);
      TailDigits(w, src, at);
      str := whole + [v] + [Wasted(w, |src|)];
    } else {
      str := whole + [0];
    }
  }

  /** Adds up the remaining digits, each shifted to its place. */
  method TailByte(w: Width, src: seq<BoolOrNull>) returns (v: Octet)
    requires 0 < |src| <= PerByte(w)
    ensures v == OneByte(w, DigitsOf(w, src))
  {
    ghost var digits := DigitsOf(w, src);
    var sum, weight, i := 0, 1, 0;
    while i < |src|
      invariant i <= |src| && weight == Weight(w, i) && sum == Digits(w, digits[..i])
    {
      assert digits[..i + 1] == digits[..i] + [digits[i]];
      DigitsSnoc(w, digits[..i], digits[i]);
      sum := sum + DigitOf(w, src[i]) * weight;
      weight := Up(w, weight);
      i := i + 1;
    }
    assert digits[..|src|] == digits;
    assert sum == OneByte(w, digits);
    v := sum;
  }

  // ----- The decoders -----

  /** How far a decoder has come: the types so far and the `left` digits still to come make up the whole. */
  ghost predicate Decoding(w: Width, body: Bytes, n: nat, at: nat, left: nat, dst: seq<BoolOrNull>) {
    && |body| == BytesFor(w, n) && at <= |body| && |body| - at == BytesFor(w, left)
    && dst + TypesOf(w, DecodeDigits(w, body[at..], left)) == TypesOf(w, DecodeDigits(w, body, n))
  }

  lemma TypesOfConcat(w: Width, s: seq<nat>, t: seq<nat>)
    requires AllDigits(w, s) && AllDigits(w, t)
    ensures AllDigits(w, s + t) && TypesOf(w, s + t) == TypesOf(w, s) + TypesOf(w, t)
  {
  }

  lemma WholeDecoded(w: Width, e: Bytes, m: nat)
    requires |e| == BytesFor(w, m) && m >= PerByte(w)
    ensures |e| > 0 && |e| - 1 == BytesFor(w, m - PerByte(w))
    ensures DecodeDigits(w, e, m) == Peel(w, e[0], PerByte(w)) + DecodeDigits(w, e[1..], m - PerByte(w))
  {
  }

  lemma DecodeWhole(w: Width, body: Bytes, n: nat, at: nat, left: nat, dst: seq<BoolOrNull>)
    requires Decoding(w, body, n, at, left, dst) && left >= PerByte(w)
    ensures at < |body|
    ensures Decoding(w, body, n, at + 1, left - PerByte(w), dst + TypesOf(w, Peel(w, body[at], PerByte(w))))
  {
    var p, e := PerByte(w), body[at..];
    WholeDecoded(w, e, left);
    assert e[0] == body[at] && e[1..] == body[at + 1..];
    hide Peel, TypesOf, BytesFor, DecodeDigits;
    TypesOfConcat(w, Peel(w, e[0], p), DecodeDigits(w, e[1..], left - p));
    Regroup(dst, TypesOf(w, Peel(w, e[0], p)), TypesOf(w, DecodeDigits(w, e[1..], left - p)));
  }

  lemma Regroup<T>(a: seq<T>, b: seq<T>, c: seq<T>)
    ensures a + (b + c) == (a + b) + c
  {
  }

  /** Only part of one byte is left, or nothing. */
  lemma DecodeLast(w: Width, body: Bytes, n: nat, at: nat, left: nat, dst: seq<BoolOrNull>)
    requires Decoding(w, body, n, at, left, dst) && left < PerByte(w)
    ensures left > 0 ==>
              at < |body| && dst + TypesOf(w, Peel(w, body[at], left)) == TypesOf(w, DecodeDigits(w, body, n))
    ensures left == 0 ==> dst == TypesOf(w, DecodeDigits(w, body, n))
  {
  }

  lemma DecodeStart(w: Width, body: Bytes, n: nat)
    requires |body| == BytesFor(w, n)
    ensures Decoding(w, body, n, 0, n, [])
  {
  }

  method UnserializeFromBitset(bytes: Bytes, limit: nat) returns (r: Option<seq<BoolOrNull>>)
    ensures r == DecodeAs(OneBit, bytes, limit)
    ensures r == None <==> |bytes| <= 1 || bytes[|bytes| - 1] >= 8 || |bytes| >= limit / 8 - 1
    ensures r.Some? ==> ReadAsBits(bytes, r.value)
  {
    if DecodeAs(OneBit, bytes, limit).Some? {
      DecodedBits(bytes, limit);
    }
    hide ReadAsBits;
    if |bytes| <= 1 || bytes[|bytes| - 1] >= 8 || |bytes| >= limit / 8 - 1 {
      return None;
    }
    var body, wasted := bytes[..|bytes| - 1], bytes[|bytes| - 1];
    CountMatches(OneBit, |body|, wasted);
    hide TypesOf, DecodeDigits, BytesFor;
    var dst := DecodeBits(body, wasted);
    return Some(dst);
  }

  /** The part of the last byte that is in use. */
  method FinishByte(w: Width, body: Bytes, ghost n: nat, at: nat, wasted: nat, whole: seq<BoolOrNull>)
    returns (dst: seq<BoolOrNull>)
    requires wasted < PerByte(w)
    requires Decoding(w, body, n, at, if wasted > 0 then PerByte(w) - wasted else 0, whole)
    ensures |body| == BytesFor(w, n) && dst == TypesOf(w, DecodeDigits(w, body, n))
  {
    DecodeLast(w, body, n, at, if wasted > 0 then PerByte(w) - wasted else 0, whole);
    hide TypesOf, DecodeDigits, Peel, BytesFor, PerByte;
    dst := whole;
    if wasted > 0 {
      var rest := PeelTypes(w, body[at], PerByte(w) - wasted);
      dst := dst + rest;
    }
  }

  lemma LeftOver(p: nat, count: int, wasted: nat, left: int)
    requires (p == 8 || p == 4) && wasted < p && left == p * count - wasted && 0 <= left < p
    ensures left == if wasted > 0 then p - wasted else 0
  {
  }

  method DecodeBits(body: Bytes, wasted: nat) returns (dst: seq<BoolOrNull>)
    requires |body| > 0 && wasted < 8 && BytesFor(OneBit, 8 * |body| - wasted) == |body|
    ensures dst == TypesOf(OneBit, DecodeDigits(OneBit, body, 8 * |body| - wasted))
  {
    var at: nat := 0;
    var n: nat := 8 * |body| - wasted;
    DecodeStart(OneBit, body, n);
    assert PerByte(OneBit) == 8;
    hide *;
    dst := [];
    while |dst| + 8 <= n
      invariant |dst| == 8 * at <= n && Decoding(OneBit, body, n, at, n - |dst|, dst)
    {
      DecodeWhole(OneBit, body, n, at, n - |dst|, dst);
      EightTypesArePeeled(body[at]);
      dst := dst + EightTypes(body[at]);
      at := at + 1;
    }
    LeftOver(8, |body| - at, wasted, n - |dst|);
    dst := FinishByte(OneBit, body, n, at, wasted, dst);
  }

  method UnserializeFromBoolOrNullSet(bytes: Bytes, limit: nat) returns (r: Option<seq<BoolOrNull>>)
    ensures r == DecodeAs(TwoBits, bytes, limit)
    ensures r == None <==> |bytes| <= 1 || bytes[|bytes| - 1] >= 4 || |bytes| >= limit / 4 - 1
    ensures r.Some? ==> ReadAsPairs(bytes, r.value)
  {
    if DecodeAs(TwoBits, bytes, limit).Some? {
      DecodedPairs(bytes, limit);
    }
    hide ReadAsPairs;
    if |bytes| <= 1 || bytes[|bytes| - 1] >= 4 || |bytes| >= limit / 4 - 1 {
      return None;
    }
    var body, wasted := bytes[..|bytes| - 1], bytes[|bytes| - 1];
    CountMatches(TwoBits, |body|, wasted);
    hide TypesOf, DecodeDigits, BytesFor;
    var dst := DecodeBitPairs(body, wasted);
    return Some(dst);
  }

  method DecodeBitPairs(body: Bytes, wasted: nat) returns (dst: seq<BoolOrNull>)
    requires |body| > 0 && wasted < 4 && BytesFor(TwoBits, 4 * |body| - wasted) == |body|
    ensures dst == TypesOf(TwoBits, DecodeDigits(TwoBits, body, 4 * |body| - wasted))
  {
    var at: nat := 0;
    var n: nat := 4 * |body| - wasted;
    DecodeStart(TwoBits, body, n);
    assert PerByte(TwoBits) == 4;
    hide *;
    dst := [];
    while |dst| + 4 <= n
      invariant |dst| == 4 * at <= n && Decoding(TwoBits, body, n, at, n - |dst|, dst)
    {
      DecodeWhole(TwoBits, body, n, at, n - |dst|, dst);
      FourTypesArePeeled(body[at]);
      dst := dst + FourTypes(body[at]);
      at := at + 1;
    }
    LeftOver(4, |body| - at, wasted, n - |dst|);
    dst := FinishByte(TwoBits, body, n, at, wasted, dst);
  }

  /** Takes the lowest digit and shifts, until the wanted number of digits is taken. */
  method PeelTypes(w: Width, byte: Octet, count: nat) returns (dst: seq<BoolOrNull>)
    ensures dst == TypesOf(w, Peel(w, byte, count))
  {
    hide *;
    var val: nat, remaining: nat := byte, count;
    dst := [];
    while remaining > 0
      invariant dst + TypesOf(w, Peel(w, val, remaining)) == TypesOf(w, Peel(w, byte, count))
      decreases remaining
    {
      OnePeeled(dst, w, val, remaining);
      dst := dst + [TypeOf(w, Low(w, val))];
      val := Rest(w, val);
      remaining := remaining - 1;
    }
    NonePeeled(dst, w, val);
  }

  lemma OnePeeled(dst: seq<BoolOrNull>, w: Width, val: nat, n: nat)
    requires n > 0
    ensures dst + TypesOf(w, Peel(w, val, n)) ==
            dst + [TypeOf(w, Low(w, val))] + TypesOf(w, Peel(w, Rest(w, val), n - 1))
  {
    var rest := Peel(w, Rest(w, val), n - 1);
    assert Peel(w, val, n) == [Low(w, val)] + rest;
    assert TypesOf(w, [Low(w, val)]) == [TypeOf(w, Low(w, val))];
    hide *;
    TypesOfConcat(w, [Low(w, val)], rest);
    Regroup(dst, [TypeOf(w, Low(w, val))], TypesOf(w, rest));
  }

  lemma NonePeeled(dst: seq<BoolOrNull>, w: Width, val: nat)
    ensures dst + TypesOf(w, Peel(w, val, 0)) == dst
  {
  }

  method Unserialize(s: Serialized, limit: nat) returns (r: Option<seq<BoolOrNull>>)
    requires s.tag <= BOOL_OR_NULL
    ensures r == Decode(s, limit)
    ensures r.Some? ==> if s.tag == 0 then ReadAsBits(s.bytes, r.value) else ReadAsPairs(s.bytes, r.value)
  {
    if s.tag == BOOL_BITSET {
      r := UnserializeFromBitset(s.bytes, limit);
    } else {
      r := UnserializeFromBoolOrNullSet(s.bytes, limit);
    }
  }

  method Serialize(src: seq<BoolOrNull>) returns (s: Serialized)
    requires src != []
    ensures s == Encode(src)
    ensures if 1 in src then s.tag == 1 && WrittenAsPairs(src, s.bytes) else s.tag == 0 && WrittenAsBits(src, s.bytes)
  {
    if IS_NULL in src {
      var bytes := ConvertBoolOrNullTypesToBitset(src);
      s := Serialized(BOOL_OR_NULL, bytes);
    } else {
      var bytes := ConvertBoolTypesToBitset(src);
      s := Serialized(BOOL_BITSET, bytes);
    }
  }

  // ----- Two small vectors -----

  lemma ByteFromBits(b: Octet)
    ensures b == BitOf(b, 0) + 2 * BitOf(b, 1) + 4 * BitOf(b, 2) + 8 * BitOf(b, 3) +
                 16 * BitOf(b, 4) + 32 * BitOf(b, 5) + 64 * BitOf(b, 6) + 128 * BitOf(b, 7)
  {
    BitsOfByte(b);
    Halvings(b);
    hide *;
  }

  lemma BitsOfByte(b: Octet)
    ensures BitOf(b, 0) == b % 2 && BitOf(b, 1) == b / 2 % 2 && BitOf(b, 2) == b / 4 % 2 && BitOf(b, 3) == b / 8 % 2
    ensures BitOf(b, 4) == b / 16 % 2 && BitOf(b, 5) == b / 32 % 2
    ensures BitOf(b, 6) == b / 64 % 2 && BitOf(b, 7) == b / 128 % 2
  {
  }

  lemma Halvings(b: Octet)
    ensures b == 2 * (b / 2) + b % 2 && b / 2 == 2 * (b / 4) + b / 2 % 2 && b / 4 == 2 * (b / 8) + b / 4 % 2
    ensures b / 8 == 2 * (b / 16) + b / 8 % 2 && b / 16 == 2 * (b / 32) + b / 16 % 2
    ensures b / 32 == 2 * (b / 64) + b / 32 % 2 && b / 64 == 2 * (b / 128) + b / 64 % 2 && b / 128 == b / 128 % 2
  {
    DivTwice(b, 2, 2);
    DivTwice(b, 4, 2);
    DivTwice(b, 8, 2);
    DivTwice(b, 16, 2);
    DivTwice(b, 32, 2);
    DivTwice(b, 64, 2);
    assert b / 128 <= 1;
    HalvesOf(b, b / 2, b / 4, b / 8, b / 16, b / 32, b / 64, b / 128);
  }

  lemma HalvesOf(b: nat, c: nat, d: nat, e: nat, f: nat, g: nat, h: nat, i: nat)
    requires c == b / 2 && d == c / 2 && e == d / 2 && f == e / 2 && g == f / 2 && h == g / 2 && i == h / 2
    ensures b == 2 * c + b % 2 && c == 2 * d + c % 2 && d == 2 * e + d % 2 && e == 2 * f + e % 2
    ensures f == 2 * g + f % 2 && g == 2 * h + g % 2 && h == 2 * i + h % 2
  {
  }

  lemma ByteFromPairs(b: Octet)
    ensures b == PairOf(b, 0) + 4 * PairOf(b, 1) + 16 * PairOf(b, 2) + 64 * PairOf(b, 3)
  {
    assert b / 16 == b / 4 / 4 && b / 64 == b / 16 / 4;
  }

  /** Eight trues are one byte of ones, and no bit is unused. */
  lemma EightTruesWritten(str: Bytes)
    requires WrittenAsBits([3, 3, 3, 3, 3, 3, 3, 3], str)
    ensures str == [0xFF, 0]
  {
    ByteFromBits(str[0]);
    assert forall i :: 0 <= i < 8 ==> BitOf(str[i / 8], i % 8) == 1;
    assert forall i :: 0 <= i < 8 ==> BitOf(str[0], i) == 1 by {
      forall i | 0 <= i < 8 ensures BitOf(str[0], i) == 1 {
        assert i / 8 == 0 && i % 8 == i;
      }
    }
    hide BitOf;
  }

  /** Four nulls, then true, false, null, true. */
  lemma MixedPairsWritten(str: Bytes)
    requires WrittenAsPairs([1, 1, 1, 1, 3, 2, 1, 3], str)
    ensures str == [0x55, 0xDB, 0]
  {
    var src: seq<BoolOrNull> := [1, 1, 1, 1, 3, 2, 1, 3];
    hide *;
    PairAt(src, str, 0, 0);
    ByteFromPairs(str[0]);
    ByteFromPairs(str[1]);
    PairAt(src, str, 0, 1);
    PairAt(src, str, 0, 2);
    PairAt(src, str, 0, 3);
    PairAt(src, str, 1, 0);
    PairAt(src, str, 1, 1);
    PairAt(src, str, 1, 2);
    PairAt(src, str, 1, 3);
  }

  lemma PairAt(src: seq<BoolOrNull>, str: Bytes, j: nat, k: nat)
    requires WrittenAsPairs(src, str) && k < 4 && 4 * j + k < |src|
    ensures |str| == (|src| + 3) / 4 + 1 && str[|str| - 1] == 4 * (|str| - 1) - |src|
    ensures j < |str| && PairOf(str[j], k) == src[4 * j + k]
  {
    var i := 4 * j + k;
    assert i / 4 == j && i % 4 == k;
    assert PairOf(str[i / 4], i % 4) == src[i];
    hide PairOf;
  }

  method WriteTwoSmall() returns (bools: Serialized, mixed: Serialized)
    ensures bools == Serialized(0, [0xFF, 0])
    ensures mixed == Serialized(1, [0x55, 0xDB, 0])
  {
    hide *;
    bools := Serialize([3, 3, 3, 3, 3, 3, 3, 3]);
    EightTruesWritten(bools.bytes);
    mixed := Serialize([1, 1, 1, 1, 3, 2, 1, 3]);
    MixedPairsWritten(mixed.bytes);
  }

  /** One unused place of eight: the byte 1 and the count 7 are the list of one true. */
  lemma OneTrueRead(dst: seq<BoolOrNull>)
    requires ReadAsBits([1, 7], dst)
    ensures dst == [3]
  {
  }
}
