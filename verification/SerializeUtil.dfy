/**
 Little-endian numbers and variable-length sizes: one byte below 253, else a tag and two or four bytes.
 Strings of the engine end in a zero byte that is not part of their length and that the two-byte reader may touch.
 */
module SerializeUtil {
  import opened ByteStrings

  const UINT32_MAX: nat := 0xffff_ffff
  const TAG_16: nat := 253
  const TAG_32: nat := 254

  datatype Error =
    | MissingHeader
    | TooMuchData
    | NotEnoughData
    | NotEnoughForSize
    | UnsupportedTag
    | NotSorted
    | MoreThanUsed

  datatype Result<+T> = Ok(value: T) | Err(error: Error)

  /** A size and the position after it. */
  datatype Sized = Sized(size: nat, next: nat)

  /** The byte at `i`, which may be the terminator. */
  function ByteAt(s: Bytes, i: nat): Octet
    requires i <= |s|
  {
    if i < |s| then s[i] else 0
  }

  // ----- Writers -----

  function Uint16Bytes(v: nat): (b: Bytes)
    ensures |b| == 2
  {
    [v % 256, v / 256 % 256]
  }

  function Uint32Bytes(v: nat): (b: Bytes)
    ensures |b| == 4
  {
    [v % 256, v / 0x100 % 256, v / 0x1_0000 % 256, v / 0x100_0000 % 256]
  }

  /** The encoded size; the argument is cut to 32 bits on the way in. */
  function SizeBytes(v: nat): (b: Bytes)
    ensures |b| >= 1
  {
    var size := v % (UINT32_MAX + 1);
    if size < TAG_16 then [size]
    else if size < 0xffff then [TAG_16] + Uint16Bytes(size)
    else [TAG_32] + Uint32Bytes(size)
  }

  // ----- Readers -----

  /** Sums four bytes and keeps the low sixteen bits. */
  function ReadUint16(s: Bytes, at: nat): nat
    requires at + 3 <= |s|
  {
    (ByteAt(s, at) + ByteAt(s, at + 1) * 0x100 +
     ByteAt(s, at + 2) * 0x1_0000 + ByteAt(s, at + 3) * 0x100_0000) % 0x1_0000
  }

  function ReadUint32(s: Bytes, at: nat): nat
    requires at + 3 <= |s|
  {
    ByteAt(s, at) + ByteAt(s, at + 1) * 0x100 + ByteAt(s, at + 2) * 0x1_0000 + ByteAt(s, at + 3) * 0x100_0000
  }

  /** Both longer forms want at least one byte to follow the size. */
  function ReadSize(s: Bytes, at: nat): (r: Result<Sized>)
    requires at <= |s|
    ensures r.Ok? ==> at < r.value.next <= |s|
  {
    if at + 1 > |s| then Err(NotEnoughForSize)
    else
      var tag := s[at];
      if tag < TAG_16 then Ok(Sized(tag, at + 1))
      else if tag == TAG_16 then
        if at + 3 >= |s| then Err(NotEnoughForSize) else Ok(Sized(ReadUint16(s, at + 1), at + 3))
      else if tag == TAG_32 then
        if at + 5 >= |s| then Err(NotEnoughForSize) else Ok(Sized(ReadUint32(s, at + 1), at + 5))
      else Err(UnsupportedTag)
  }

  // ----- Round trips -----

  lemma Uint32RoundTrip(s: Bytes, at: nat, v: nat)
    requires v <= UINT32_MAX && at + 4 <= |s| && s[at..at + 4] == Uint32Bytes(v)
    ensures ReadUint32(s, at) == v
  {
    assert s[at] == s[at..at + 4][0] && s[at + 1] == s[at..at + 4][1];
    assert s[at + 2] == s[at..at + 4][2] && s[at + 3] == s[at..at + 4][3];
    DigitsOf(v);
  }

  lemma DigitsOf(v: nat)
    requires v <= UINT32_MAX
    ensures v == v % 256 + v / 0x100 % 256 * 0x100 + v / 0x1_0000 % 256 * 0x1_0000 + v / 0x100_0000 % 256 * 0x100_0000
  {
    assert v / 0x1_0000 == v / 0x100 / 256 && v / 0x100_0000 == v / 0x1_0000 / 256;
  }

  /** The two bytes beyond a sixteen-bit number do not show. */
  lemma Uint16RoundTrip(s: Bytes, at: nat, v: nat)
    requires v <= 0xffff && at + 3 <= |s| && s[at..at + 2] == Uint16Bytes(v)
    ensures ReadUint16(s, at) == v
  {
    assert s[at] == s[at..at + 2][0] && s[at + 1] == s[at..at + 2][1];
    LowPart(v % 256, v / 256 % 256, ByteAt(s, at + 2), ByteAt(s, at + 3));
  }

  lemma LowPart(a: Octet, b: Octet, c: Octet, d: Octet)
    ensures (a + b * 0x100 + c * 0x1_0000 + d * 0x100_0000) % 0x1_0000 == a + b * 0x100
  {
    assert a + b * 0x100 + c * 0x1_0000 + d * 0x100_0000 == (a + b * 0x100) + (c + d * 256) * 0x1_0000;
  }

  /** Reading back a size that is followed by that many bytes, through each of the three encodings. */
  lemma SizeRoundTrip(s: Bytes, at: nat, v: nat)
    requires v <= UINT32_MAX
    requires at + |SizeBytes(v)| + v <= |s| && s[at..at + |SizeBytes(v)|] == SizeBytes(v)
    ensures ReadSize(s, at) == Ok(Sized(v, at + |SizeBytes(v)|))
  {
    var b := SizeBytes(v);
    assert s[at] == s[at..at + |b|][0];
    if v < TAG_16 {
    } else if v < 0xffff {
      assert s[at + 1..at + 3] == s[at..at + |b|][1..3] == Uint16Bytes(v);
      Uint16RoundTrip(s, at + 1, v);
    } else {
      assert s[at + 1..at + 5] == s[at..at + |b|][1..5] == Uint32Bytes(v);
      Uint32RoundTrip(s, at + 1, v);
    }
  }

  // ----- The bytes themselves -----

  /** One byte below 253; 253 and two bytes below 65535; else 254 and four bytes, lowest first. */
  lemma SizeIsWrittenAs(v: nat)
    requires v <= 0xFFFF_FFFF
    ensures v < 253 ==> SizeBytes(v) == [v]
    ensures 253 <= v < 65535 ==> SizeBytes(v) == [253, v % 256, v / 256]
    ensures 65535 <= v ==>
              SizeBytes(v) == [254, v % 256, v / 256 % 256, v / 65536 % 256, v / 16777216]
  {
    assert v / 65536 == v / 256 / 256 && v / 16777216 == v / 65536 / 256;
  }

  /** The reader takes the same forms: the first byte says how many follow. */
  lemma SizeIsReadAs(s: Bytes, at: nat)
    requires at <= |s|
    ensures at == |s| ==> ReadSize(s, at).Err?
    ensures at < |s| && s[at] < 253 ==> ReadSize(s, at) == Ok(Sized(s[at], at + 1))
    ensures at < |s| && s[at] == 253 ==>
              ReadSize(s, at) ==
              if at + 3 < |s| then Ok(Sized(s[at + 1] + (s[at + 2] as int) * 256, at + 3)) else Err(NotEnoughForSize)
    ensures at < |s| && s[at] == 254 ==>
              ReadSize(s, at) ==
              if at + 5 < |s|
              then
                var low, high := s[at + 1] + (s[at + 2] as int) * 256, s[at + 3] + (s[at + 4] as int) * 256;
                Ok(Sized(low + high * 65536, at + 5))
              else Err(NotEnoughForSize)
    ensures at < |s| && s[at] == 255 ==> ReadSize(s, at) == Err(UnsupportedTag)
  {
    if at + 3 < |s| {
      LowPart(s[at + 1], s[at + 2], s[at + 3], ByteAt(s, at + 4));
    }
  }

  /** The count at the start is four bytes, lowest first, in both directions. */
  lemma CountIsFourBytes(s: Bytes, v: nat)
    requires v <= 0xFFFF_FFFF
    ensures |s| >= 4 ==>
              ReadUint32(s, 0) == s[0] + (s[1] as int) * 256 + (s[2] as int) * 65536 + (s[3] as int) * 16777216
    ensures Uint32Bytes(v) == [v % 256, v / 256 % 256, v / 65536 % 256, v / 16777216]
  {
  }
}
