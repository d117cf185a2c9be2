/**
 Bits packed eight to a byte, least significant first, and the byte arithmetic of Teds\BitVector: what
 each shift, insertion and deletion formula does to the bit list, byte by byte and eight bytes at a time.
 */
module PackedBits {

  type byte = bv8

  /** `(b >> k) & 1` */
  function Bit(b: byte, k: nat): bool
    requires k < 8
  {
    match k
    case 0 => b & 1 == 1
    case 1 => (b >> 1) & 1 == 1
    case 2 => (b >> 2) & 1 == 1
    case 3 => (b >> 3) & 1 == 1
    case 4 => (b >> 4) & 1 == 1
    case 5 => (b >> 5) & 1 == 1
    case 6 => (b >> 6) & 1 == 1
    case 7 => (b >> 7) & 1 == 1
  }

  /** `1 << k` as a C integer. */
  function Shl1(k: nat): bv32
    requires k <= 8
  {
    match k
    case 0 => 1
    case 1 => 2
    case 2 => 4
    case 3 => 8
    case 4 => 16
    case 5 => 32
    case 6 => 64
    case 7 => 128
    case 8 => 256
  }

  function ToByte(v: bool): byte {
    if v then 1 else 0
  }

  // ----- One byte -----

  function SetBit(b: byte, k: nat, v: bool): byte
    requires k < 8
  {
    if v then b | ((Shl1(k) & 0xff) as byte) else b & !((Shl1(k) & 0xff) as byte)
  }

  /** Shifts up, taking the lowest bit from the top of the byte below. */
  function ShiftUp(b: byte, below: byte): byte {
    (b << 1) | (below >> 7)
  }

  /** Shifts up, taking a given lowest bit. */
  function ShiftIn(b: byte, carry: byte): byte {
    (b << 1) | carry
  }

  /** Shifts down, with a zero entering at the top. */
  function Half(b: byte): byte {
    b >> 1
  }

  /** Shifts down, taking the highest bit from the bottom of the byte above. */
  function ShiftDown(b: byte, above: byte): byte {
    (b >> 1) | (above << 7)
  }

  /** Keeps the bits below `k`, puts `v` at `k` and moves the rest up; the top bit is lost. */
  function InsertBit(b: byte, k: nat, v: bool): byte
    requires k < 8
  {
    var mask: bv32 := Shl1(k) - 1;
    var w := b as bv32;
    (((w & mask) | (if v then Shl1(k) else 0) | ((w & !mask) << 1)) & 0xff) as byte
  }

  /** Drops the bit at `k`; a zero enters at the top. */
  function RemoveBitFromByte(b: byte, k: nat): byte
    requires k < 8
  {
    var w := b as bv32;
    (((w & (Shl1(k) - 1)) | ((w & !(Shl1(k + 1) - 1)) >> 1)) & 0xff) as byte
  }

  /** Drops the bit at `k`, taking the highest bit from the bottom of the byte above. */
  function RemoveAndFill(b: byte, k: nat, above: byte): byte
    requires k < 8
  {
    RemoveBitFromByte(b, k) | (above << 7)
  }

  lemma SetBitSpec(b: byte, k: nat, v: bool, i: nat)
    requires k < 8 && i < 8
    ensures Bit(SetBit(b, k, v), i) == if i == k then v else Bit(b, i)
  {
    SetTrue(b, k, i);
    SetFalse(b, k, i);
    hide SetBit, Bit;
  }

  lemma SetTrue(b: byte, k: nat, i: nat)
    requires k < 8 && i < 8
    ensures Bit(SetBit(b, k, true), i) == (i == k || Bit(b, i))
  {
  }

  lemma SetFalse(b: byte, k: nat, i: nat)
    requires k < 8 && i < 8
    ensures Bit(SetBit(b, k, false), i) == (i != k && Bit(b, i))
  {
  }

  lemma ShiftUpSpec(b: byte, below: byte, i: nat)
    requires i < 8
    ensures Bit(ShiftUp(b, below), i) == if i == 0 then Bit(below, 7) else Bit(b, i - 1)
    ensures Bit(ShiftIn(b, ToByte(true)), i) == (i == 0 || Bit(b, i - 1))
    ensures Bit(ShiftIn(b, ToByte(false)), i) == (i != 0 && Bit(b, i - 1))
  {
  }

  lemma ShiftDownSpec(b: byte, above: byte, i: nat)
    requires i < 8
    ensures Bit(ShiftDown(b, above), i) == if i == 7 then Bit(above, 0) else Bit(b, i + 1)
    ensures Bit(Half(b), i) == if i == 7 then false else Bit(b, i + 1)
  {
  }

  lemma InsertBitSpec(b: byte, k: nat, v: bool, i: nat)
    requires k < 8 && i < 8
    ensures Bit(InsertBit(b, k, v), i) == if i < k then Bit(b, i) else if i == k then v else Bit(b, i - 1)
  {
    InsertTrue(b, k, i);
    InsertFalse(b, k, i);
    hide InsertBit, Bit;
  }

  lemma InsertTrue(b: byte, k: nat, i: nat)
    requires k < 8 && i < 8
    ensures Bit(InsertBit(b, k, true), i) == if i < k then Bit(b, i) else i == k || Bit(b, i - 1)
  {
  }

  lemma InsertFalse(b: byte, k: nat, i: nat)
    requires k < 8 && i < 8
    ensures Bit(InsertBit(b, k, false), i) == if i < k then Bit(b, i) else i != k && Bit(b, i - 1)
  {
  }

  lemma RemoveBitSpec(b: byte, k: nat, i: nat)
    requires k < 8 && i < 8
    ensures Bit(RemoveBitFromByte(b, k), i) == if i < k then Bit(b, i) else if i == 7 then false else Bit(b, i + 1)
  {
    if k < 4 {
      RemoveLowBit(b, k, i);
    } else {
      RemoveHighBit(b, k, i);
    }
    hide Bit, RemoveBitFromByte;
  }

  lemma RemoveLowBit(b: byte, k: nat, i: nat)
    requires k < 4 && i < 8
    ensures Bit(RemoveBitFromByte(b, k), i) == if i < k then Bit(b, i) else if i == 7 then false else Bit(b, i + 1)
  {
  }

  lemma RemoveHighBit(b: byte, k: nat, i: nat)
    requires 4 <= k < 8 && i < 8
    ensures Bit(RemoveBitFromByte(b, k), i) == if i < k then Bit(b, i) else if i == 7 then false else Bit(b, i + 1)
  {
  }

  lemma RemoveAndFillSpec(b: byte, k: nat, above: byte, i: nat)
    requires k < 8 && i < 8
    ensures Bit(RemoveAndFill(b, k, above), i) ==
            if i < k then Bit(b, i) else if i == 7 then Bit(above, 0) else Bit(b, i + 1)
  {
    RemoveBitSpec(b, k, i);
    hide RemoveBitFromByte;
    FillTop(RemoveBitFromByte(b, k), above, i);
    hide Bit;
  }

  lemma FillTop(x: byte, above: byte, i: nat)
    requires i < 8
    ensures Bit(x | (above << 7), i) == (Bit(x, i) || (i == 7 && Bit(above, 0)))
  {
  }

  // ----- Eight bytes as one little-endian word -----

  function Load64(b: seq<byte>): bv64
    requires |b| == 8
  {
    (b[0] as bv64) | ((b[1] as bv64) << 8) | ((b[2] as bv64) << 16) | ((b[3] as bv64) << 24) |
    ((b[4] as bv64) << 32) | ((b[5] as bv64) << 40) | ((b[6] as bv64) << 48) | ((b[7] as bv64) << 56)
  }

  function Store64(w: bv64): (b: seq<byte>)
    ensures |b| == 8
  {
    [(w & 0xff) as byte, ((w >> 8) & 0xff) as byte, ((w >> 16) & 0xff) as byte, ((w >> 24) & 0xff) as byte,
     ((w >> 32) & 0xff) as byte, ((w >> 40) & 0xff) as byte, ((w >> 48) & 0xff) as byte, ((w >> 56) & 0xff) as byte]
  }

  function WordUp(w: bv64, carry: byte): bv64 {
    (w << 1) | (carry as bv64)
  }

  function WordDown(w: bv64, above: byte): bv64 {
    (w >> 1) | ((above as bv64) << 63)
  }

  /** Shifting a word up is shifting its bytes up one after the other. */
  lemma WordShiftUp(b: seq<byte>, carry: byte)
    requires |b| == 8 && carry <= 1
    ensures Store64(WordUp(Load64(b), carry)) ==
            [ShiftIn(b[0], carry), ShiftUp(b[1], b[0]), ShiftUp(b[2], b[1]), ShiftUp(b[3], b[2]),
             ShiftUp(b[4], b[3]), ShiftUp(b[5], b[4]), ShiftUp(b[6], b[5]), ShiftUp(b[7], b[6])]
  {
  }

  lemma WordShiftDown(b: seq<byte>, above: byte)
    requires |b| == 8
    ensures Store64(WordDown(Load64(b), above)) ==
            [ShiftDown(b[0], b[1]), ShiftDown(b[1], b[2]), ShiftDown(b[2], b[3]), ShiftDown(b[3], b[4]),
             ShiftDown(b[4], b[5]), ShiftDown(b[5], b[6]), ShiftDown(b[6], b[7]), ShiftDown(b[7], above)]
  {
  }

  lemma CarryIn(b: byte, below: byte)
    ensures ShiftUp(b, below) == ShiftIn(b, below >> 7) && below >> 7 <= 1
  {
  }

  // ----- Bit lists -----

  function BitAt(d: seq<byte>, i: nat): bool
    requires i < 8 * |d|
  {
    Bit(d[i / 8], i % 8)
  }

  /** The first `n` bits. */
  function Bits(d: seq<byte>, n: nat): (s: seq<bool>)
    requires n <= 8 * |d|
    ensures |s| == n
    ensures forall i :: 0 <= i < n ==> s[i] == BitAt(d, i)
  {
    seq(n, i requires 0 <= i < n => BitAt(d, i))
  }

  /** All bytes up to `last` shifted up by one bit, with `v` entering at the bottom. */
  function UnshiftBytes(d: seq<byte>, last: nat, v: bool): (r: seq<byte>)
    requires last < |d|
    ensures |r| == |d|
  {
    seq(|d|, j requires 0 <= j < |d| =>
      if j == 0 then ShiftIn(d[0], ToByte(v)) else if j <= last then ShiftUp(d[j], d[j - 1]) else d[j])
  }

  function ShiftBytes(d: seq<byte>, last: nat): (r: seq<byte>)
    requires last < |d|
    ensures |r| == |d|
  {
    seq(|d|, j requires 0 <= j < |d| =>
      if j < last then ShiftDown(d[j], d[j + 1]) else if j == last then Half(d[j]) else d[j])
  }

  function InsertBytes(d: seq<byte>, last: nat, at: nat, v: bool): (r: seq<byte>)
    requires at / 8 <= last < |d|
    ensures |r| == |d|
  {
    seq(|d|, j requires 0 <= j < |d| =>
      if j == at / 8 then InsertBit(d[j], at % 8, v)
      else if at / 8 < j <= last then ShiftUp(d[j], d[j - 1]) else d[j])
  }

  function UnsetBytes(d: seq<byte>, last: nat, at: nat): (r: seq<byte>)
    requires at / 8 <= last < |d|
    ensures |r| == |d|
  {
    seq(|d|, j requires 0 <= j < |d| =>
      if j == at / 8 then
        if j == last then RemoveBitFromByte(d[j], at % 8) else RemoveAndFill(d[j], at % 8, d[j + 1])
      else if at / 8 < j < last then ShiftDown(d[j], d[j + 1])
      else if at / 8 < j == last then Half(d[j])
      else d[j])
  }

  // The bits next to bit `i`, in its own byte or the neighbouring one.

  lemma BitAfter(d: seq<byte>, i: nat)
    requires i + 1 < 8 * |d|
    ensures i % 8 == 7 ==> i / 8 + 1 < |d| && BitAt(d, i + 1) == Bit(d[i / 8 + 1], 0)
    ensures i % 8 < 7 ==> BitAt(d, i + 1) == Bit(d[i / 8], i % 8 + 1)
  {
    hide Bit;
  }

  lemma BitBefore(d: seq<byte>, i: nat)
    requires 0 < i < 8 * |d|
    ensures i % 8 == 0 ==> i / 8 > 0 && BitAt(d, i - 1) == Bit(d[i / 8 - 1], 7)
    ensures i % 8 > 0 ==> BitAt(d, i - 1) == Bit(d[i / 8], i % 8 - 1)
  {
    hide Bit;
  }

  lemma UnshiftBitAt(d: seq<byte>, last: nat, v: bool, i: nat)
    requires last < |d| && i / 8 <= last
    ensures BitAt(UnshiftBytes(d, last, v), i) == if i == 0 then v else BitAt(d, i - 1)
  {
    var j, k := i / 8, i % 8;
    assert BitAt(UnshiftBytes(d, last, v), i) == Bit(UnshiftBytes(d, last, v)[j], k);
    if i > 0 {
      BitBefore(d, i);
    }
    ShiftUpSpec(d[j], if j > 0 then d[j - 1] else 0, k);
    assert i == 8 * j + k;
    hide Bit, ShiftUp, ShiftIn, BitAt;
  }

  /** Prepending a bit. */
  lemma UnshiftBits(d: seq<byte>, n: nat, v: bool)
    requires n < 8 * |d|
    ensures Bits(UnshiftBytes(d, n / 8, v), n + 1) == [v] + Bits(d, n)
  {
    hide BitAt, UnshiftBytes;
    forall i | 0 <= i < n + 1
      ensures BitAt(UnshiftBytes(d, n / 8, v), i) == if i == 0 then v else BitAt(d, i - 1)
    {
      UnshiftBitAt(d, n / 8, v, i);
    }
  }

  lemma ShiftBitAt(d: seq<byte>, n: nat, i: nat)
    requires 0 < n <= 8 * |d| && i < n - 1
    ensures BitAt(ShiftBytes(d, (n - 1) / 8), i) == BitAt(d, i + 1)
  {
    var j, k, last := i / 8, i % 8, (n - 1) / 8;
    assert BitAt(ShiftBytes(d, last), i) == Bit(ShiftBytes(d, last)[j], k);
    assert j <= last < |d| && (k == 7 ==> j < last);
    BitAfter(d, i);
    ShiftDownSpec(d[j], if j + 1 < |d| then d[j + 1] else 0, k);
    hide Bit, ShiftDown, Half, BitAt;
  }

  /** Dropping the first bit. */
  lemma ShiftBits(d: seq<byte>, n: nat)
    requires 0 < n <= 8 * |d|
    ensures Bits(ShiftBytes(d, (n - 1) / 8), n - 1) == Bits(d, n)[1..]
  {
    hide BitAt, ShiftBytes;
    forall i {:trigger BitAt(ShiftBytes(d, (n - 1) / 8), i)} | 0 <= i < n - 1
      ensures BitAt(ShiftBytes(d, (n - 1) / 8), i) == BitAt(d, i + 1)
    {
      ShiftBitAt(d, n, i);
    }
  }

  lemma InsertBitAt(d: seq<byte>, n: nat, at: nat, v: bool, i: nat)
    requires at <= n < 8 * |d| && i <= n
    ensures BitAt(InsertBytes(d, n / 8, at, v), i) ==
            if i < at then BitAt(d, i) else if i == at then v else BitAt(d, i - 1)
  {
    var j, k, last := i / 8, i % 8, n / 8;
    assert BitAt(InsertBytes(d, last, at, v), i) == Bit(InsertBytes(d, last, at, v)[j], k);
    assert BitAt(d, i) == Bit(d[j], k);
    assert i == 8 * j + k && at == 8 * (at / 8) + at % 8 && j <= last;
    if i > 0 {
      BitBefore(d, i);
    }
    if j == at / 8 {
      InsertBitSpec(d[j], at % 8, v, k);
    } else if j > 0 {
      ShiftUpSpec(d[j], d[j - 1], k);
    }
    hide Bit, ShiftUp, InsertBit, BitAt;
  }

  /** Inserting a bit at any offset, with carries through all later bytes. */
  lemma InsertBits(d: seq<byte>, n: nat, at: nat, v: bool)
    requires at <= n < 8 * |d|
    ensures Bits(InsertBytes(d, n / 8, at, v), n + 1) == Bits(d, n)[..at] + [v] + Bits(d, n)[at..]
  {
    var l, m := Bits(InsertBytes(d, n / 8, at, v), n + 1), Bits(d, n);
    forall i {:trigger l[i]} | 0 <= i <= n
      ensures l[i] == if i < at then m[i] else if i == at then v else m[i - 1]
    {
      InsertBitAt(d, n, at, v, i);
    }
    hide *;
    InsertedList(m, at, v, l);
  }

  lemma InsertedList<T>(m: seq<T>, at: nat, v: T, l: seq<T>)
    requires |l| == |m| + 1 && at <= |m|
    requires forall i {:trigger l[i]} :: 0 <= i < |l| ==>
               l[i] == if i < at then m[i] else if i == at then v else m[i - 1]
    ensures l == m[..at] + [v] + m[at..]
  {
  }

  lemma UnsetBitAt(d: seq<byte>, n: nat, at: nat, i: nat)
    requires at < n <= 8 * |d| && i < n - 1
    ensures BitAt(UnsetBytes(d, (n - 1) / 8, at), i) == if i < at then BitAt(d, i) else BitAt(d, i + 1)
  {
    var j, k, last := i / 8, i % 8, (n - 1) / 8;
    assert BitAt(UnsetBytes(d, last, at), i) == Bit(UnsetBytes(d, last, at)[j], k);
    assert BitAt(d, i) == Bit(d[j], k);
    assert i == 8 * j + k && at == 8 * (at / 8) + at % 8;
    assert j <= last < |d| && (k == 7 ==> j < last);
    BitAfter(d, i);
    var above := if j + 1 < |d| then d[j + 1] else 0;
    if j == at / 8 {
      RemoveBitSpec(d[j], at % 8, k);
      RemoveAndFillSpec(d[j], at % 8, above, k);
    } else {
      ShiftDownSpec(d[j], above, k);
    }
    hide Bit, ShiftDown, Half, RemoveBitFromByte, RemoveAndFill, BitAt;
  }

  /** Deleting the bit at any offset. */
  lemma UnsetBits(d: seq<byte>, n: nat, at: nat)
    requires at < n <= 8 * |d|
    ensures Bits(UnsetBytes(d, (n - 1) / 8, at), n - 1) == Bits(d, n)[..at] + Bits(d, n)[at + 1..]
  {
    var l, m := Bits(UnsetBytes(d, (n - 1) / 8, at), n - 1), Bits(d, n);
    forall i {:trigger l[i]} | 0 <= i < n - 1
      ensures l[i] == if i < at then m[i] else m[i + 1]
    {
      UnsetBitAt(d, n, at, i);
    }
    hide *;
    DeletedList(m, at, l);
  }

  lemma DeletedList<T>(m: seq<T>, at: nat, l: seq<T>)
    requires |l| == |m| - 1 && at < |m|
    requires forall i {:trigger l[i]} :: 0 <= i < |l| ==> l[i] == if i < at then m[i] else m[i + 1]
    ensures l == m[..at] + m[at + 1..]
  {
  }

  /** Deleting the bit just inserted gives the list back, whatever byte the carries reached. */
  lemma UnsetUndoesInsert(d: seq<byte>, n: nat, at: nat, v: bool)
    requires at <= n < 8 * |d|
    ensures Bits(UnsetBytes(InsertBytes(d, n / 8, at, v), n / 8, at), n) == Bits(d, n)
  {
    hide *;
    InsertBits(d, n, at, v);
    var m := n + 1;
    UnsetBits(InsertBytes(d, n / 8, at, v), m, at);
    assert m - 1 == n;
    DeleteInserted(Bits(d, n), at, v);
  }

  lemma DeleteInserted(s: seq<bool>, at: nat, v: bool)
    requires at <= |s|
    ensures var l := s[..at] + [v] + s[at..];
            l[..at] + l[at + 1..] == s
  {
  }
}
