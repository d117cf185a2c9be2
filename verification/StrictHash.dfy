/**
 The strict hash of values. Values that are the same key get the same hash, which is what StrictHashMap needs
 of it; and the mixing steps lose nothing, so distinct integers, and distinct doubles, keep distinct 64-bit hashes.
 */
module StrictHashes {
  import opened Bitwise
  import opened ByteStrings
  import opened Float64s
  import opened Zvals
  import opened AssocList

  const MULTIPLIER: nat := 0x5e2d58d8b3bce8d9

  type UInt64 = x: int | 0 <= x < 0x1_0000_0000_0000_0000

  /** Unsigned 64-bit wrap-around. */
  function Low64(x: int): UInt64 {
    x % 0x1_0000_0000_0000_0000
  }

  function Pow256(n: nat): (p: nat)
    ensures p > 0
  {
    if n == 0 then 1 else 256 * Pow256(n - 1)
  }

  /** The lowest `n` bytes in the opposite order. */
  function ReverseBytes(x: nat, n: nat): (r: nat)
    ensures r < Pow256(n)
  {
    if n == 0 then 0
    else
      var top, rest := x % 256, ReverseBytes(x / 256, n - 1);
      TopByteFits(top, Pow256(n - 1), rest);
      top * Pow256(n - 1) + rest
  }

  lemma TopByteFits(top: nat, p: nat, rest: nat)
    requires top < 256 && rest < p
    ensures top * p + rest < 256 * p
  {
  }

  function Bswap64(x: UInt64): UInt64 {
    assert Pow256(8) == 0x1_0000_0000_0000_0000;
    ReverseBytes(x, 8)
  }

  function InlineHash(x: UInt64): UInt64 {
    Bswap64(Low64(x * MULTIPLIER))
  }

  /** Both zeros give 0 and every NaN gives the same number; other patterns are read in the opposite byte order. */
  function ConvertDouble(x: Float64): UInt64 {
    if FloatEq(x, 0) then 0
    else if IsNan(x) then 0xf8ff
    else Bswap64(x)
  }

  // ----- The hash -----

  function KeyHash(stringHash: Bytes -> UInt64, key: ArrayKey): UInt64 {
    match key
    case IntKey(n) => Low64(n)
    case StrKey(s) => stringHash(s)
  }

  /** One entry of an array: the key and the hash of the value are mixed in. */
  function Mix(result: UInt64, key: UInt64, field: UInt64): UInt64 {
    var r := Low64(result + key);
    InlineHash(Low64(r + field + r * 128))
  }

  function Width(v: Zval): nat {
    if v.Arr? then |v.fields| else 0
  }

  function InnerHash(stringHash: Bytes -> UInt64, v: Zval): UInt64
    decreases v, Width(v) + 1
  {
    match v
    case Null => 8310
    case False => 8311
    case True => 8312
    case Long(l) => Low64(l)
    case Double(d) => Low64(ConvertDouble(d) + 8315)
    case Str(s) => stringHash(s)
    case Arr(fields) => if |fields| == 0 then 8313 else FieldsHash(stringHash, v, |fields|)
    case Obj(h) => Low64(h + 31415926)
    case Res(h) => Low64(h + 27182818)
  }

  /** After the first `n` entries of the array `v`. */
  function FieldsHash(stringHash: Bytes -> UInt64, v: Zval, n: nat): UInt64
    requires v.Arr? && n <= |v.fields|
    decreases v, n
  {
    if n == 0 then 1
    else
      var f := v.fields[n - 1];
      Mix(FieldsHash(stringHash, v, n - 1), KeyHash(stringHash, f.key), InnerHash(stringHash, f.value))
  }

  method HashValue(stringHash: Bytes -> UInt64, v: Zval) returns (h: UInt64)
    ensures h == InnerHash(stringHash, v)
    decreases v, 1
  {
    match v
    case Null => h := 8310;
    case False => h := 8311;
    case True => h := 8312;
    case Long(l) => h := Low64(l);
    case Double(d) => h := Low64(ConvertDouble(d) + 8315);
    case Str(s) => h := stringHash(s);
    case Arr(_) => h := HashArray(stringHash, v);
    case Obj(handle) => h := Low64(handle + 31415926);
    case Res(handle) => h := Low64(handle + 27182818);
  }

  method HashArray(stringHash: Bytes -> UInt64, v: Zval) returns (result: UInt64)
    requires v.Arr?
    ensures result == InnerHash(stringHash, v)
    decreases v, 0
  {
    if |v.fields| == 0 {
      return 8313;
    }
    result := 1;
    for i := 0 to |v.fields|
      invariant result == FieldsHash(stringHash, v, i)
    {
      result := Low64(result + KeyHash(stringHash, v.fields[i].key));
      var fieldHash := HashValue(stringHash, v.fields[i].value);
      result := Low64(result + fieldHash + result * 128);
      result := InlineHash(result);
    }
  }

  function StrictHash(stringHash: Bytes -> UInt64, v: Zval): UInt64 {
    InlineHash(InnerHash(stringHash, v))
  }

  function StrictHash32(stringHash: Bytes -> UInt64, v: Zval): nat {
    StrictHash(stringHash, v) % U32_LIMIT
  }

  // ----- Identical keys hash equally -----

  lemma SameDoubleSameBits(x: Float64, y: Float64)
    requires SameDouble(x, y)
    ensures ConvertDouble(x) == ConvertDouble(y)
  {
    EqualValues(x, y);
    EqualValues(x, 0);
    EqualValues(y, 0);
    hide Value, Scaled;
  }

  lemma {:induction false} IdenticalHashEqually(stringHash: Bytes -> UInt64, a: Zval, b: Zval)
    requires IdenticalOrBothNan(a, b)
    ensures InnerHash(stringHash, a) == InnerHash(stringHash, b)
    decreases a, Width(a) + 1
  {
    hide ConvertDouble, InlineHash, Mix, IsNan, FloatEq;
    match a
    case Double(x) => SameDoubleSameBits(x, b.d);
    case Arr(f) => SameFieldsHash(stringHash, a, b, |f|);
    case _ =>
  }

  lemma {:induction false} SameFieldsHash(stringHash: Bytes -> UInt64, a: Zval, b: Zval, n: nat)
    requires a.Arr? && b.Arr? && n <= |a.fields| && IdenticalOrBothNan(a, b)
    ensures FieldsHash(stringHash, a, n) == FieldsHash(stringHash, b, n)
    decreases a, n
  {
    if n > 0 {
      SameFieldsHash(stringHash, a, b, n - 1);
      IdenticalHashEqually(stringHash, a.fields[n - 1].value, b.fields[n - 1].value);
    }
  }

  /** The identity and hash that StrictHashMap is run with. */
  function ZvalKeys(stringHash: Bytes -> UInt64): Keys<Zval> {
    Keys((a, b) => IdenticalOrBothNan(a, b), v => StrictHash32(stringHash, v))
  }

  lemma ZvalKeysAreLawful(stringHash: Bytes -> UInt64)
    ensures ZvalKeys(stringHash).Lawful()
  {
    var keys := ZvalKeys(stringHash);
    hide IdenticalOrBothNan, InnerHash, InlineHash;
    forall a: Zval
      ensures keys.same(a, a)
    {
      IdenticalReflexive(a);
    }
    forall a: Zval, b: Zval | keys.same(a, b)
      ensures keys.same(b, a) && keys.hash(a) == keys.hash(b)
    {
      IdenticalSymmetric(a, b);
      IdenticalHashEqually(stringHash, a, b);
      assert StrictHash(stringHash, a) == StrictHash(stringHash, b);
    }
    forall a: Zval, b: Zval, c: Zval | keys.same(a, b) && keys.same(b, c)
      ensures keys.same(a, c)
    {
      IdenticalTransitive(a, b, c);
    }
  }

  // ----- The mixing steps are one-to-one -----

  lemma {:induction false} ReverseInjective(x: nat, y: nat, n: nat)
    requires x < Pow256(n) && y < Pow256(n) && ReverseBytes(x, n) == ReverseBytes(y, n)
    ensures x == y
  {
    if n > 0 {
      var p := Pow256(n - 1);
      DivModUnique(ReverseBytes(x, n), p, x % 256, ReverseBytes(x / 256, n - 1));
      DivModUnique(ReverseBytes(y, n), p, y % 256, ReverseBytes(y / 256, n - 1));
      ReverseInjective(x / 256, y / 256, n - 1);
    }
  }

  lemma BswapInjective(x: UInt64, y: UInt64)
    requires Bswap64(x) == Bswap64(y)
    ensures x == y
  {
    assert Pow256(8) == 0x1_0000_0000_0000_0000;
    ReverseInjective(x, y, 8);
  }

  const INVERSE: nat := 14591661972270421865

  /** Multiplying by an odd constant can be undone modulo 2^64. */
  lemma MultiplierUndone(x: UInt64)
    ensures Low64(Low64(x * MULTIPLIER) * INVERSE) == x
  {
    var m, laps := 0x1_0000_0000_0000_0000, 5367972452121430674;
    assert MULTIPLIER * INVERSE == 1 + laps * m;
    var q, r := x * MULTIPLIER / m, Low64(x * MULTIPLIER);
    assert x * MULTIPLIER == q * m + r;
    DivModUnique(r * INVERSE, m, x * laps - q * INVERSE, x);
  }

  lemma InlineHashInjective(x: UInt64, y: UInt64)
    requires InlineHash(x) == InlineHash(y)
    ensures x == y
  {
    BswapInjective(Low64(x * MULTIPLIER), Low64(y * MULTIPLIER));
    MultiplierUndone(x);
    MultiplierUndone(y);
  }

  /** The converted pattern of a double tells exactly which key it is. */
  lemma ConvertDoubleExact(x: Float64, y: Float64)
    ensures ConvertDouble(x) == ConvertDouble(y) <==> SameDouble(x, y)
  {
    if SameDouble(x, y) {
      SameDoubleSameBits(x, y);
    } else if ConvertDouble(x) == ConvertDouble(y) {
      SpecialPatterns(x);
      SpecialPatterns(y);
      hide Bswap64, FloatEq, IsNan;
      if ConvertDouble(x) == Bswap64(x) && ConvertDouble(y) == Bswap64(y) {
        BswapInjective(x, y);
      }
    }
  }

  /** No ordinary double is converted to one of the two special numbers. */
  lemma SpecialPatterns(x: Float64)
    ensures Bswap64(x) == 0 ==> x == 0
    ensures Bswap64(x) == 0xf8ff ==> IsNan(x)
  {
    assert Bswap64(0) == 0 && Bswap64(0xfff8_0000_0000_0000) == 0xf8ff;
    if Bswap64(x) == 0 {
      BswapInjective(x, 0);
    }
    if Bswap64(x) == 0xf8ff {
      BswapInjective(x, 0xfff8_0000_0000_0000);
    }
  }

  lemma Low64Injective(x: int, y: int, c: int)
    requires Low64(x + c) == Low64(y + c) && -0x1_0000_0000_0000_0000 < x - y < 0x1_0000_0000_0000_0000
    ensures x == y
  {
  }

  /** Distinct integer keys, and distinct double keys, have distinct 64-bit hashes. */
  lemma NoCollisions(stringHash: Bytes -> UInt64, a: Zval, b: Zval)
    requires (a.Long? && b.Long?) || (a.Double? && b.Double?)
    ensures StrictHash(stringHash, a) == StrictHash(stringHash, b) <==> IdenticalOrBothNan(a, b)
  {
    if StrictHash(stringHash, a) == StrictHash(stringHash, b) {
      InlineHashInjective(InnerHash(stringHash, a), InnerHash(stringHash, b));
      if a.Long? {
        Low64Injective(a.l, b.l, 0);
      } else {
        Low64Injective(ConvertDouble(a.d), ConvertDouble(b.d), 8315);
        ConvertDoubleExact(a.d, b.d);
      }
    }
    if IdenticalOrBothNan(a, b) {
      IdenticalHashEqually(stringHash, a, b);
    }
  }
}
