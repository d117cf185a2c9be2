/**
 What the strict hash is made of: the byte swap, the fold over the entries of an array, which loses neither a
 key nor a value, and the hashes of some ordinary values as numbers.
 */
module StrictHashMixing {
  import opened Bitwise
  import opened ByteStrings
  import opened Float64s
  import opened Lists
  import opened StrictHashes
  import opened Zvals

  // ----- The fold -----

  const INVERSE_OF_129: nat := 9294871044892409729

  /** Multiplying by 129 can be undone modulo 2^64. */
  lemma Times129Undone(x: UInt64)
    ensures Low64(Low64(x * 129) * INVERSE_OF_129) == x
  {
    var m := 0x1_0000_0000_0000_0000;
    assert 129 * INVERSE_OF_129 == 1 + 65 * m;
    var q, r := x * 129 / m, Low64(x * 129);
    assert x * 129 == q * m + r;
    DivModUnique(r * INVERSE_OF_129, m, x * 65 - q * INVERSE_OF_129, x);
  }

  lemma SameSum(x: UInt64, y: UInt64, c: int)
    requires Low64(x + c) == Low64(y + c)
    ensures x == y
  {
    Low64Injective(x, y, c);
  }

  /** Another value hash gives another fold. */
  lemma LosesNoValue(r: UInt64, k: UInt64, f: UInt64, g: UInt64)
    requires Mix(r, k, f) == Mix(r, k, g)
    ensures f == g
  {
    var c: int := Low64(r + k) * 129;
    assert Mix(r, k, f) == InlineHash(Low64(f + c)) && Mix(r, k, g) == InlineHash(Low64(g + c))
      by { hide InlineHash, Low64; }
    hide *;
    InlineHashInjective(Low64(f + c), Low64(g + c));
    SameSum(f, g, c);
  }

  /** Another key hash gives another fold. */
  lemma LosesNoKey(r: UInt64, k: UInt64, l: UInt64, f: UInt64)
    requires Mix(r, k, f) == Mix(r, l, f)
    ensures k == l
  {
    hide InlineHash;
    SameAfterKey(Low64(r + k), Low64(r + l), f);
    SameSum(k, l, r);
  }

  /** After another fold the same entry gives another fold. */
  lemma LosesNoFold(r: UInt64, s: UInt64, k: UInt64, f: UInt64)
    requires Mix(r, k, f) == Mix(s, k, f)
    ensures r == s
  {
    hide InlineHash;
    SameAfterKey(Low64(r + k), Low64(s + k), f);
    SameSum(r, s, k);
  }

  lemma SameAfterKey(t: UInt64, u: UInt64, f: UInt64)
    requires InlineHash(Low64(t + f + t * 128)) == InlineHash(Low64(u + f + u * 128))
    ensures t == u
  {
    InlineHashInjective(Low64(t + f + t * 128), Low64(u + f + u * 128));
    LowOfSum(t, f);
    LowOfSum(u, f);
    hide *;
    SameSum(Low64(t * 129), Low64(u * 129), f);
    Times129Undone(t);
    Times129Undone(u);
  }

  lemma LowOfSum(t: UInt64, f: UInt64)
    ensures Low64(t + f + t * 128) == Low64(Low64(t * 129) + f)
  {
  }

  /** Entry `j` contributes the same key hash and the same value hash to both arrays. */
  predicate SameEntryHash(stringHash: Bytes -> UInt64, f: Field, g: Field) {
    && KeyHash(stringHash, f.key) == KeyHash(stringHash, g.key)
    && InnerHash(stringHash, f.value) == InnerHash(stringHash, g.value)
  }

  lemma {:induction false} SamePrefixFold(stringHash: Bytes -> UInt64, a: Zval, b: Zval, n: nat)
    requires a.Arr? && b.Arr? && n <= |a.fields| && n <= |b.fields|
    requires forall j :: 0 <= j < n ==> SameEntryHash(stringHash, a.fields[j], b.fields[j])
    ensures FieldsHash(stringHash, a, n) == FieldsHash(stringHash, b, n)
  {
    if n > 0 {
      assert SameEntryHash(stringHash, a.fields[n - 1], b.fields[n - 1]);
      SamePrefixFold(stringHash, a, b, n - 1);
    }
    hide InnerHash, KeyHash, Mix;
  }

  /** The hash of a key or of a value differs, not both. */
  predicate OneHashDiffers(stringHash: Bytes -> UInt64, f: Field, g: Field) {
    (KeyHash(stringHash, f.key) == KeyHash(stringHash, g.key)) !=
    (InnerHash(stringHash, f.value) == InnerHash(stringHash, g.value))
  }

  /** One differing hash shows in every later fold. */
  lemma {:induction false} OneDifferenceShows(stringHash: Bytes -> UInt64, a: Zval, b: Zval, i: nat, n: nat)
    requires a.Arr? && b.Arr? && i < n <= |a.fields| && n <= |b.fields|
    requires OneHashDiffers(stringHash, a.fields[i], b.fields[i])
    requires forall j :: 0 <= j < n && j != i ==> SameEntryHash(stringHash, a.fields[j], b.fields[j])
    ensures FieldsHash(stringHash, a, n) != FieldsHash(stringHash, b, n)
    decreases n
  {
    var r, s := FieldsHash(stringHash, a, n - 1), FieldsHash(stringHash, b, n - 1);
    var f, g := a.fields[n - 1], b.fields[n - 1];
    var k, l := KeyHash(stringHash, f.key), KeyHash(stringHash, g.key);
    var x, y := InnerHash(stringHash, f.value), InnerHash(stringHash, g.value);
    assert FieldsHash(stringHash, a, n) == Mix(r, k, x) && FieldsHash(stringHash, b, n) == Mix(s, l, y);
    if i < n - 1 {
      OneDifferenceShows(stringHash, a, b, i, n - 1);
      assert SameEntryHash(stringHash, f, g);
    } else {
      SamePrefixFold(stringHash, a, b, n - 1);
    }
    hide FieldsHash, InnerHash, KeyHash, Mix;
    if Mix(r, k, x) == Mix(s, l, y) {
      if i < n - 1 {
        LosesNoFold(r, s, k, x);
      } else if k == l {
        LosesNoValue(r, k, x, y);
      } else {
        LosesNoKey(r, k, l, x);
      }
    }
  }

  /** Arrays that differ in the hash of one key or one value have different strict hashes. */
  lemma ArraysHashApart(stringHash: Bytes -> UInt64, f: seq<Field>, g: seq<Field>, i: nat)
    requires i < |f| == |g| && OneHashDiffers(stringHash, f[i], g[i])
    requires forall j :: 0 <= j < |f| && j != i ==> SameEntryHash(stringHash, f[j], g[j])
    ensures StrictHash(stringHash, Arr(f)) != StrictHash(stringHash, Arr(g))
  {
    OneDifferenceShows(stringHash, Arr(f), Arr(g), i, |f|);
    if StrictHash(stringHash, Arr(f)) == StrictHash(stringHash, Arr(g)) {
      InlineHashInjective(InnerHash(stringHash, Arr(f)), InnerHash(stringHash, Arr(g)));
    }
    hide FieldsHash, KeyHash, InlineHash;
  }

  /** So do arrays that differ in one integer element. */
  lemma OneElementShows(stringHash: Bytes -> UInt64, f: seq<Field>, i: nat, m: Int64, n: Int64)
    requires i < |f| && m != n
    ensures var key := f[i].key;
            StrictHash(stringHash, Arr(f[i := Field(key, Long(m))])) !=
            StrictHash(stringHash, Arr(f[i := Field(key, Long(n))]))
  {
    var g, h := f[i := Field(f[i].key, Long(m))], f[i := Field(f[i].key, Long(n))];
    if Low64(m) == Low64(n) {
      Low64Injective(m, n, 0);
    }
    ArraysHashApart(stringHash, g, h, i);
    hide *;
  }

  // ----- The byte swap -----

  /** The number with these bytes, lowest first. */
  function Little(b: seq<Octet>): nat {
    if b == [] then 0 else b[0] + 256 * Little(b[1..])
  }

  lemma {:induction false} LittleSnoc(b: seq<Octet>, x: Octet)
    ensures Little(b + [x]) == Little(b) + x * Pow256(|b|)
  {
    if b == [] {
      assert [x][1..] == [];
    } else {
      assert (b + [x])[1..] == b[1..] + [x];
      LittleSnoc(b[1..], x);
      assert x * Pow256(|b|) == 256 * (x * Pow256(|b| - 1));
    }
  }

  /** The bytes come out in the opposite order. */
  lemma {:induction false} SwapsBytes(b: seq<Octet>)
    ensures ReverseBytes(Little(b), |b|) == Little(Reversed(b))
  {
    if b != [] {
      var rest := b[1..];
      assert Reversed(b) == Reversed(rest) + [b[0]];
      assert Little(b) % 256 == b[0] && Little(b) / 256 == Little(rest);
      SwapsBytes(rest);
      LittleSnoc(Reversed(rest), b[0]);
    }
  }

  lemma EightBytes(a: Octet, b: Octet, c: Octet, d: Octet, e: Octet, f: Octet, g: Octet, h: Octet)
    ensures Little([a, b, c, d, e, f, g, h]) ==
            a + 256 * (b + 256 * (c + 256 * (d + 256 * (e + 256 * (f + 256 * (g + 256 * h))))))
  {
    var s := [a, b, c, d, e, f, g, h];
    assert s[1..][1..] == s[2..] && s[2..][1..] == s[3..] && s[3..][1..] == s[4..] && s[4..][1..] == s[5..];
    assert s[5..][1..] == s[6..] && s[6..][1..] == s[7..] && s[7..][1..] == [];
    assert Little(s[7..]) == h + 256 * Little([]);
    assert Little(s[6..]) == g + 256 * Little(s[7..]);
    assert Little(s[4..]) == e + 256 * (f + 256 * Little(s[6..]));
    assert Little(s[2..]) == c + 256 * (d + 256 * Little(s[4..]));
  }

  lemma InlineHashSteps(x: UInt64)
    ensures InlineHash(x) == ReverseBytes(x * 0x5E2D_58D8_B3BC_E8D9 % 0x1_0000_0000_0000_0000, 8)
  {
    hide ReverseBytes;
  }

  /** Swaps the eight bytes of the multiplied number. */
  lemma HashOfBytes(x: UInt64, a: Octet, b: Octet, c: Octet, d: Octet, e: Octet, f: Octet, g: Octet, h: Octet)
    requires x * 0x5E2D_58D8_B3BC_E8D9 % 0x1_0000_0000_0000_0000 ==
             a + 256 * (b + 256 * (c + 256 * (d + 256 * (e + 256 * (f + 256 * (g + 256 * h))))))
    ensures InlineHash(x) == h + 256 * (g + 256 * (f + 256 * (e + 256 * (d + 256 * (c + 256 * (b + 256 * a))))))
  {
    InlineHashSteps(x);
    hide *;
    var s := [a, b, c, d, e, f, g, h];
    EightBytes(a, b, c, d, e, f, g, h);
    EightBytes(h, g, f, e, d, c, b, a);
    SwapsBytes(s);
    assert Reversed(s) == [h, g, f, e, d, c, b, a];
  }

  // ----- The hashes of some values -----

  lemma StrictHashOf(stringHash: Bytes -> UInt64, v: Zval, x: UInt64)
    requires InnerHash(stringHash, v) == x
    ensures StrictHash(stringHash, v) == InlineHash(x)
  {
  }

  /** The strict hash of null, false, true and the empty array. */
  lemma ConstantsHash(stringHash: Bytes -> UInt64)
    ensures StrictHash(stringHash, Null) == 0x0674_2E76_5A0A_0214
    ensures StrictHash(stringHash, False) == 0xDF5C_EB29_3363_2F72
    ensures StrictHash(stringHash, True) == 0xB845_A8DD_0BBC_5CD0
    ensures StrictHash(stringHash, Arr([])) == 0x912E_6591_E414_8A2E
  {
    InnerConstants(stringHash);
    hide *;
    StrictHashOf(stringHash, Null, 0x2076);
    HashOfBytes(0x2076, 0x06, 0x74, 0x2E, 0x76, 0x5A, 0x0A, 0x02, 0x14);
    StrictHashOf(stringHash, False, 0x2077);
    HashOfBytes(0x2077, 0xDF, 0x5C, 0xEB, 0x29, 0x33, 0x63, 0x2F, 0x72);
    StrictHashOf(stringHash, True, 0x2078);
    HashOfBytes(0x2078, 0xB8, 0x45, 0xA8, 0xDD, 0x0B, 0xBC, 0x5C, 0xD0);
    StrictHashOf(stringHash, Arr([]), 0x2079);
    HashOfBytes(0x2079, 0x91, 0x2E, 0x65, 0x91, 0xE4, 0x14, 0x8A, 0x2E);
  }

  lemma InnerConstants(stringHash: Bytes -> UInt64)
    ensures InnerHash(stringHash, Null) == 0x2076 && InnerHash(stringHash, False) == 0x2077
    ensures InnerHash(stringHash, True) == 0x2078 && InnerHash(stringHash, Arr([])) == 0x2079
  {
  }

  lemma SpecialDoubles()
    ensures ConvertDouble(0) == 0 && ConvertDouble(0x8000_0000_0000_0000) == 0
    ensures ConvertDouble(0x7FF8_0000_0000_0000) == 0xF8FF
  {
    FamiliarPatterns();
    hide Bswap64, Value;
  }

  /** Integers by number. */
  lemma IntegersHash(stringHash: Bytes -> UInt64)
    ensures StrictHash(stringHash, Long(5)) == 0x3D8C_B082_3BBC_E2D6
    ensures StrictHash(stringHash, Long(-1)) == 0x2717_434C_27A7_D2A1
  {
    InnerNumbers(stringHash);
    hide *;
    StrictHashOf(stringHash, Long(5), 0x5);
    HashOfBytes(0x5, 0x3D, 0x8C, 0xB0, 0x82, 0x3B, 0xBC, 0xE2, 0xD6);
    StrictHashOf(stringHash, Long(-1), 0xFFFF_FFFF_FFFF_FFFF);
    HashOfBytes(0xFFFF_FFFF_FFFF_FFFF, 0x27, 0x17, 0x43, 0x4C, 0x27, 0xA7, 0xD2, 0xA1);
  }

  /** Zero and not a number. */
  lemma DoublesHash(stringHash: Bytes -> UInt64)
    ensures StrictHash(stringHash, Double(0)) == 0x4300_DFF8_95C6_E4EA
    ensures StrictHash(stringHash, Double(0x7FF8_0000_0000_0000)) == 0x6A28_9D03_9034_22A8
  {
    InnerNumbers(stringHash);
    hide *;
    StrictHashOf(stringHash, Double(0), 0x207B);
    HashOfBytes(0x207B, 0x43, 0x00, 0xDF, 0xF8, 0x95, 0xC6, 0xE4, 0xEA);
    StrictHashOf(stringHash, Double(0x7FF8_0000_0000_0000), 0x0001_197A);
    HashOfBytes(0x0001_197A, 0x6A, 0x28, 0x9D, 0x03, 0x90, 0x34, 0x22, 0xA8);
  }

  /** Objects and resources by handle. */
  lemma HandlesHash(stringHash: Bytes -> UInt64)
    ensures StrictHash(stringHash, Obj(7)) == 0xF55F_C4CE_4642_3CE0
    ensures StrictHash(stringHash, Res(7)) == 0x81C3_F541_C023_7078
  {
    InnerNumbers(stringHash);
    hide *;
    StrictHashOf(stringHash, Obj(7), 0x01DF_5E7D);
    HashOfBytes(0x01DF_5E7D, 0xF5, 0x5F, 0xC4, 0xCE, 0x46, 0x42, 0x3C, 0xE0);
    StrictHashOf(stringHash, Res(7), 0x019E_C6E9);
    HashOfBytes(0x019E_C6E9, 0x81, 0xC3, 0xF5, 0x41, 0xC0, 0x23, 0x70, 0x78);
  }

  lemma InnerNumbers(stringHash: Bytes -> UInt64)
    ensures InnerHash(stringHash, Long(5)) == 5
    ensures InnerHash(stringHash, Long(-1)) == 0xFFFF_FFFF_FFFF_FFFF
    ensures InnerHash(stringHash, Double(0)) == 0x207B
    ensures InnerHash(stringHash, Double(0x7FF8_0000_0000_0000)) == 0x0001_197A
    ensures InnerHash(stringHash, Obj(7)) == 0x01DF_5E7D && InnerHash(stringHash, Res(7)) == 0x019E_C6E9
  {
    SpecialDoubles();
    hide ConvertDouble;
  }

  /** Text is hashed by the engine; its hash is multiplied and swapped like a number. */
  lemma TextHashes(stringHash: Bytes -> UInt64, s: Bytes)
    requires stringHash(s) == 5
    ensures StrictHash(stringHash, Str(s)) == 0x3D8C_B082_3BBC_E2D6
  {
    hide InlineHash;
    HashOfBytes(0x5, 0x3D, 0x8C, 0xB0, 0x82, 0x3B, 0xBC, 0xE2, 0xD6);
  }

  lemma OneEntry(stringHash: Bytes -> UInt64, v: Zval)
    requires v.Arr? && |v.fields| == 1
    ensures StrictHash(stringHash, v) ==
            InlineHash(Mix(1, KeyHash(stringHash, v.fields[0].key), InnerHash(stringHash, v.fields[0].value)))
  {
    var n := |v.fields|;
    assert FieldsHash(stringHash, v, n - 1) == 1;
    assert InnerHash(stringHash, v) == FieldsHash(stringHash, v, n);
    hide InlineHash, Mix, KeyHash, InnerHash;
  }

  /** The arrays `[1]` and `[2]`: one entry mixed into 1. */
  lemma SingletonsHash(stringHash: Bytes -> UInt64)
    ensures StrictHash(stringHash, Arr([Field(IntKey(0), Long(1))])) == 0xDBD9_7FEB_27D6_DE6E
    ensures StrictHash(stringHash, Arr([Field(IntKey(0), Long(2))])) == 0x89A5_7A85_99CF_5326
  {
    InnerEntries(stringHash);
    hide *;
    var a, b := Arr([Field(IntKey(0), Long(1))]), Arr([Field(IntKey(0), Long(2))]);
    OneEntry(stringHash, a);
    OneEntry(stringHash, b);
    MixedIntoOne();
    HashOfBytes(0x323E_EE45_0B1E_07D3, 0xDB, 0xD9, 0x7F, 0xEB, 0x27, 0xD6, 0xDE, 0x6E);
    HashOfBytes(0x0B27_ABF9_E376_3431, 0x89, 0xA5, 0x7A, 0x85, 0x99, 0xCF, 0x53, 0x26);
  }

  /** An array of one entry under a name whose hash is 5. */
  lemma NamedEntryHashes(stringHash: Bytes -> UInt64, name: Bytes)
    requires stringHash(name) == 5
    ensures StrictHash(stringHash, Arr([Field(StrKey(name), Long(1))])) == 0xE3BD_B8B3_1CDE_9EAC
  {
    hide *;
    var v := Arr([Field(StrKey(name), Long(1))]);
    OneEntry(stringHash, v);
    NameHash(stringHash, name);
    InnerEntries(stringHash);
    MixedUnderName();
    HashOfBytes(0xEFE8_E420_08F8_471B, 0xE3, 0xBD, 0xB8, 0xB3, 0x1C, 0xDE, 0x9E, 0xAC);
  }

  lemma NameHash(stringHash: Bytes -> UInt64, name: Bytes)
    ensures KeyHash(stringHash, StrKey(name)) == stringHash(name)
  {
  }

  lemma MixedUnderName()
    ensures Mix(1, 5, 1) == 0xEFE8_E420_08F8_471B
  {
    assert Mix(1, 5, 1) == InlineHash(0x307) by { hide InlineHash; }
    hide *;
    HashOfBytes(0x307, 0xEF, 0xE8, 0xE4, 0x20, 0x08, 0xF8, 0x47, 0x1B);
  }

  lemma InnerEntries(stringHash: Bytes -> UInt64)
    ensures KeyHash(stringHash, IntKey(0)) == 0
    ensures InnerHash(stringHash, Long(1)) == 1 && InnerHash(stringHash, Long(2)) == 2
  {
  }

  lemma MixedIntoOne()
    ensures Mix(1, 0, 1) == 0x323E_EE45_0B1E_07D3 && Mix(1, 0, 2) == 0x0B27_ABF9_E376_3431
  {
    assert Mix(1, 0, 1) == InlineHash(0x82) && Mix(1, 0, 2) == InlineHash(0x83) by { hide InlineHash; }
    hide *;
    HashOfBytes(0x82, 0x32, 0x3E, 0xEE, 0x45, 0x0B, 0x1E, 0x07, 0xD3);
    HashOfBytes(0x83, 0x0B, 0x27, 0xAB, 0xF9, 0xE3, 0x76, 0x34, 0x31);
  }

  /** The hash of a key of StrictHashMap is the low half of its strict hash. */
  lemma KeyHashIsLowHalf(stringHash: Bytes -> UInt64, v: Zval)
    ensures ZvalKeys(stringHash).hash(v) == StrictHash(stringHash, v) % 0x1_0000_0000
    ensures ZvalKeys(stringHash).hash(Null) == 0x5A0A_0214
  {
    ConstantsHash(stringHash);
    hide StrictHash;
  }
}
