/**
 The stable comparison of mixed values: off arrays it is a reference order in which every number stands at
 its exact value, and arrays are compared by count and then entry by entry, calling back for the values.
 */
module StableCompares {
  import opened Bitwise
  import opened ByteStrings
  import opened Float64s
  import opened Zvals

  /**
   What the comparison takes from the engine: the class of each object handle, the name of each class and
   the sign that orders two array keys.
   */
  datatype Engine = Engine(classOf: nat -> nat, nameOf: nat -> Bytes, compareKeys: (ArrayKey, ArrayKey) -> int)
  {
    /** The assumption about the engine under which arrays are ordered: its order of array keys is total. */
    ghost predicate OrdersKeys() {
      && (forall k, l :: compareKeys(k, l) == 0 <==> k == l)
      && (forall k, l :: compareKeys(k, l) < 0 <==> compareKeys(l, k) > 0)
      && (forall k, l, m :: compareKeys(k, l) < 0 && compareKeys(l, m) < 0 ==> compareKeys(k, m) < 0)
    }
  }

  function Spaceship(x: int, y: int): int {
    if x < y then -1 else if x > y then 1 else 0
  }

  // ----- Casts from double -----

  function Truncated(x: Float64): int {
    if Value(x) >= 0 then Value(x) / Unit() else -((-Value(x)) / Unit())
  }

  /** `(zend_long)x`; outside the range of the type C promises nothing, so the result is then `other`. */
  function CastToSigned(x: Float64, other: int): int {
    if !IsNan(x) && -0x8000_0000_0000_0000 <= Truncated(x) < 0x8000_0000_0000_0000 then Truncated(x) else other
  }

  /** `(zend_ulong)x` */
  function CastToUnsigned(x: Float64, other: int): int {
    if !IsNan(x) && 0 <= Truncated(x) < TWO64 then Truncated(x) else other
  }

  // ----- The comparison -----

  function CompareDoubleToLong(x: Float64, i: Int64, other: int): int {
    var n := FromInt(i);
    if !FloatEq(x, n) then
      if FloatLess(x, n) then -1 else 1
    else if i == CastToSigned(x, other) then 1
    else if i > 0 then
      if CastToUnsigned(x, other) < i then -1 else 1
    else
      if CastToUnsigned(Negate(x), other) < 0 - i then 1 else -1
  }

  function CompareLongToDouble(i: Int64, x: Float64, other: int): int {
    var n := FromInt(i);
    if !FloatEq(n, x) then
      if FloatLess(x, n) then 1 else -1
    else if i == CastToSigned(x, other) then -1
    else if i > 0 then
      if i < CastToUnsigned(x, other) then -1 else 1
    else
      if 0 - i < CastToUnsigned(Negate(x), other) then 1 else -1
  }

  function CompareDoubles(x: Float64, y: Float64): int {
    if FloatEq(x, y) then 0
    else if IsNan(y) then if IsNan(x) then 0 else -1
    else if FloatLess(x, y) then -1 else 1
  }

  function CompareObjects(w: Engine, h: nat, k: nat): int {
    if h == k then 0
    else
      var byName := BinaryStrcmp(w.nameOf(w.classOf(h)), w.nameOf(w.classOf(k)));
      if w.classOf(h) != w.classOf(k) && byName != 0 then
        if byName < 0 then -1 else 1
      else if h < k then -1 else 1
  }

  /** `other` is what casting a double that is out of range yields. */
  function StableCompare(w: Engine, other: int, a: Zval, b: Zval): int
    decreases a, 1, 0
  {
    match (a, b)
    case (Double(x), Long(i)) => CompareDoubleToLong(x, i, other)
    case (Long(i), Double(x)) => CompareLongToDouble(i, x, other)
    case (Null, Null) => 0
    case (False, False) => 0
    case (True, True) => 0
    case (Long(i), Long(j)) => Spaceship(i, j)
    case (Double(x), Double(y)) => CompareDoubles(x, y)
    case (Str(s), Str(t)) => Spaceship(BinaryStrcmp(s, t), 0)
    case (Arr(f), Arr(g)) => if |f| != |g| then Spaceship(|f|, |g|) else CompareFrom(w, other, a, b, 0)
    case (Obj(h), Obj(k)) => CompareObjects(w, h, k)
    case (Res(h), Res(k)) => Spaceship(h, k)
    case _ => if TypeTag(a) < TypeTag(b) then -1 else 1
  }

  /** The engine's ordered comparison of two arrays of one size, from entry `i` on. */
  function CompareFrom(w: Engine, other: int, a: Zval, b: Zval, i: nat): int
    requires a.Arr? && b.Arr? && i <= |a.fields| == |b.fields|
    decreases a, 0, |a.fields| - i
  {
    if i == |a.fields| then 0
    else
      var byKey := Spaceship(w.compareKeys(a.fields[i].key, b.fields[i].key), 0);
      if byKey != 0 then byKey
      else
        var byValue := StableCompare(w, other, a.fields[i].value, b.fields[i].value);
        if byValue != 0 then byValue else CompareFrom(w, other, a, b, i + 1)
  }

  // ----- The reference order -----

  /** Where a value stands: its kind, its exact number, integers before doubles, its text and its handle. */
  datatype Rank = Rank(kind: nat, number: int, double: nat, text: Bytes, handle: nat)

  /** Not a number stands above infinity. */
  function NumberOf(x: Float64): int {
    if IsNan(x) then Scaled(INFINITY) + 1 else Value(x)
  }

  function RankOf(w: Engine, v: Zval): Rank {
    match v
    case Long(i) => Rank(4, Exact(i), 0, [], 0)
    case Double(x) => Rank(4, NumberOf(x), 1, [], 0)
    case Str(s) => Rank(6, 0, 0, s, 0)
    case Obj(h) => Rank(8, 0, 0, w.nameOf(w.classOf(h)), h)
    case Res(h) => Rank(9, 0, 0, [], h)
    case _ => Rank(TypeTag(v), 0, 0, [], 0)
  }

  function CompareRanks(a: Rank, b: Rank): int {
    if a.kind != b.kind then Spaceship(a.kind, b.kind)
    else if a.number != b.number then Spaceship(a.number, b.number)
    else if a.double != b.double then Spaceship(a.double, b.double)
    else if a.text != b.text then Spaceship(BinaryStrcmp(a.text, b.text), 0)
    else Spaceship(a.handle, b.handle)
  }

  lemma RanksAntisymmetric(a: Rank, b: Rank)
    ensures CompareRanks(a, b) == -CompareRanks(b, a)
    ensures CompareRanks(a, b) == 0 <==> a == b
  {
  }

  lemma RanksTransitive(a: Rank, b: Rank, c: Rank)
    requires CompareRanks(a, b) <= 0 && CompareRanks(b, c) <= 0
    ensures CompareRanks(a, c) <= 0
  {
    StrcmpIsDictionaryOrder(a.text, b.text);
    StrcmpIsDictionaryOrder(b.text, c.text);
    if BinaryStrcmp(a.text, b.text) <= 0 && BinaryStrcmp(b.text, c.text) <= 0 {
      StrcmpTransitive(a.text, b.text, c.text);
    }
    hide BinaryStrcmp;
  }

  // ----- Integer against double -----

  lemma TruncatedExact(x: Float64, r: int)
    requires Value(x) == Exact(r)
    ensures Truncated(x) == r && Value(Negate(x)) == Exact(-r)
    ensures Truncated(Negate(x)) == -r && IsNan(Negate(x)) == IsNan(x)
  {
    NegateExact(r);
    assert Magnitude(Negate(x)) == Magnitude(x);
    assert Value(Negate(x)) == -Value(x) by { ZeroValue(x); }
    hide Value, IsNan;
    DivModUnique(Abs(r) * Unit(), Unit(), Abs(r), 0);
    assert Exact(r) == r * Unit() && Exact(-r) == (-r) * Unit();
    hide Unit, Exact;
  }

  lemma ZeroValue(x: Float64)
    ensures Scaled(0) == 0
  {
  }

  lemma ExactOrder(i: int, j: int)
    ensures i < j <==> Exact(i) < Exact(j)
  {
  }

  /** Machine integers are below infinity. */
  lemma ExactBelowNan(i: Int64, x: Float64)
    requires IsNan(x)
    ensures Exact(i) < NumberOf(x)
  {
    InfinityIsLarge(i);
  }

  lemma InfinityIsLarge(i: Int64)
    ensures Exact(i) < Scaled(INFINITY)
  {
    var inf: Float64 := INFINITY;
    assert Value(inf) == Scaled(INFINITY);
    assert Value(FromInt(i)) <= Scaled(Magnitude(FromInt(i)));
    hide *;
    FromIntRounds(i, inf);
    ScaledOrder(INFINITY, Magnitude(FromInt(i)));
  }

  /** Equal after rounding: the casts settle it by the exact integers. */
  lemma RoundedTie(x: Float64, i: Int64, other: int)
    requires FloatEq(x, FromInt(i))
    ensures CompareDoubleToLong(x, i, other) == if Exact(i) > Value(x) then -1 else 1
    ensures CompareLongToDouble(i, x, other) == if Exact(i) > Value(x) then 1 else -1
  {
    var r := RoundedInt(i);
    FromIntRounds(i, x);
    RoundedIntRange(i);
    TruncatedExact(x, r);
    ExactOrder(r, i);
    ExactOrder(i, r);
    hide Truncated, Value, FromInt, RoundedInt, Exact, IsNan, Negate;
  }

  /** The exact values decide, and an integer comes before an equal double. */
  lemma DoubleAgainstLong(x: Float64, i: Int64, other: int)
    ensures CompareDoubleToLong(x, i, other) == if Exact(i) > NumberOf(x) then -1 else 1
    ensures CompareLongToDouble(i, x, other) == if Exact(i) > NumberOf(x) then 1 else -1
  {
    if IsNan(x) {
      ExactBelowNan(i, x);
    } else if FloatEq(x, FromInt(i)) {
      RoundedTie(x, i, other);
    } else {
      FromIntRounds(i, x);
    }
    hide Value, FromInt, Exact, IsNan, CastToSigned, CastToUnsigned;
  }

  lemma DoublesByNumber(x: Float64, y: Float64)
    ensures CompareDoubles(x, y) == Spaceship(NumberOf(x), NumberOf(y))
  {
    ScaledOrder(Magnitude(x), INFINITY);
    ScaledOrder(Magnitude(y), INFINITY);
    ScaledOrder(0, INFINITY);
    assert Scaled(0) == 0;
    hide Scaled;
  }

  // ----- The comparison is the reference order -----

  /** Unless both values are arrays, which have one rank. */
  lemma ComparesRanks(w: Engine, other: int, a: Zval, b: Zval)
    requires !(a.Arr? && b.Arr?)
    ensures StableCompare(w, other, a, b) == CompareRanks(RankOf(w, a), RankOf(w, b))
  {
    hide CompareDoubleToLong, CompareLongToDouble, CompareDoubles, NumberOf, Exact, BinaryStrcmp;
    match (a, b)
    case (Double(x), Long(i)) => DoubleAgainstLong(x, i, other);
    case (Long(i), Double(x)) => DoubleAgainstLong(x, i, other);
    case (Long(i), Long(j)) => ExactOrder(i, j); ExactOrder(j, i);
    case (Double(x), Double(y)) => DoublesByNumber(x, y);
    case (Str(s), Str(t)) => StrcmpIsDictionaryOrder(s, t);
    case (Obj(h), Obj(k)) => StrcmpIsDictionaryOrder(w.nameOf(w.classOf(h)), w.nameOf(w.classOf(k)));
    case _ =>
  }

  // ----- The order in plain words -----

  /** `a` comes first in: null, false, true, numbers, strings, arrays, objects, resources. */
  predicate StandsBefore(a: Zval, b: Zval) {
    match a
    case Null => !b.Null?
    case False => !b.Null? && !b.False?
    case True => !b.Null? && !b.False? && !b.True?
    case Long(_) | Double(_) => b.Str? || b.Arr? || b.Obj? || b.Res?
    case Str(_) => b.Arr? || b.Obj? || b.Res?
    case Arr(_) => b.Obj? || b.Res?
    case Obj(_) => b.Res?
    case Res(_) => false
  }

  /** Values of different kinds compare by kind alone. */
  lemma KindsInOrder(w: Engine, other: int, a: Zval, b: Zval)
    ensures StandsBefore(a, b) ==> StableCompare(w, other, a, b) == -1 && StableCompare(w, other, b, a) == 1
    ensures StandsBefore(a, b) || StandsBefore(b, a) ||
            (a.Null? && b.Null?) || (a.False? && b.False?) || (a.True? && b.True?) ||
            ((a.Long? || a.Double?) && (b.Long? || b.Double?)) ||
            (a.Str? && b.Str?) || (a.Arr? && b.Arr?) || (a.Obj? && b.Obj?) || (a.Res? && b.Res?)
  {
  }

  /** Within a kind: integers, strings by the dictionary, objects by class name and then handle, resources. */
  lemma WithinAKind(w: Engine, other: int, a: Zval, b: Zval)
    ensures StableCompare(w, other, Null, Null) == StableCompare(w, other, False, False) == 0
    ensures StableCompare(w, other, True, True) == 0
    ensures a.Long? && b.Long? ==>
              StableCompare(w, other, a, b) == if a.l < b.l then -1 else if a.l > b.l then 1 else 0
    ensures a.Str? && b.Str? ==>
              StableCompare(w, other, a, b) == if Precedes(a.s, b.s) then -1 else if Precedes(b.s, a.s) then 1 else 0
    ensures a.Res? && b.Res? ==>
              StableCompare(w, other, a, b) ==
              if a.handle < b.handle then -1 else if a.handle > b.handle then 1 else 0
    ensures a.Obj? && b.Obj? ==>
              var m, n := w.nameOf(w.classOf(a.handle)), w.nameOf(w.classOf(b.handle));
              StableCompare(w, other, a, b) ==
              if Precedes(m, n) then -1 else if Precedes(n, m) then 1
              else if a.handle < b.handle then -1 else if a.handle > b.handle then 1 else 0
  {
    if a.Str? && b.Str? {
      StrcmpIsDictionaryOrder(a.s, b.s);
    }
    if a.Obj? && b.Obj? {
      var m, n := w.nameOf(w.classOf(a.handle)), w.nameOf(w.classOf(b.handle));
      StrcmpIsDictionaryOrder(m, n);
      StrcmpIsDictionaryOrder(n, m);
    }
    hide BinaryStrcmp, Precedes;
  }

  /** Numbers by exact value, an integer before an equal double, and NaN after all of them. */
  lemma NumbersByValue(w: Engine, other: int, i: Int64, x: Float64, y: Float64)
    ensures !IsNan(x) ==> StableCompare(w, other, Long(i), Double(x)) == if i * Unit() <= Value(x) then -1 else 1
    ensures !IsNan(x) ==> StableCompare(w, other, Double(x), Long(i)) == if i * Unit() <= Value(x) then 1 else -1
    ensures !IsNan(x) && !IsNan(y) ==>
              StableCompare(w, other, Double(x), Double(y)) ==
              if Value(x) < Value(y) then -1 else if Value(x) > Value(y) then 1 else 0
    ensures IsNan(y) ==>
              && StableCompare(w, other, Long(i), Double(y)) == -1
              && StableCompare(w, other, Double(y), Long(i)) == 1
              && StableCompare(w, other, Double(x), Double(y)) == (if IsNan(x) then 0 else -1)
              && StableCompare(w, other, Double(y), Double(x)) == (if IsNan(x) then 0 else 1)
  {
    DoubleAgainstLong(x, i, other);
    DoubleAgainstLong(y, i, other);
    if IsNan(y) {
      ExactBelowNan(i, y);
    }
    assert Exact(i) == i * Unit();
    hide Value, Exact, Unit, CompareDoubleToLong, CompareLongToDouble;
  }

  /** The entries before `i` agree, and at `i` the keys differ or the values are not the same. */
  ghost predicate FirstDiffering(f: seq<Field>, g: seq<Field>, i: nat) {
    && i < |f| == |g|
    && (forall j :: 0 <= j < i ==> f[j].key == g[j].key && IdenticalOrBothNan(f[j].value, g[j].value))
    && (f[i].key != g[i].key || !IdenticalOrBothNan(f[i].value, g[i].value))
  }

  /** Of two arrays the shorter comes first; of equally long ones the first entry that differs decides. */
  lemma ArraysByFirstDifference(w: Engine, other: int, f: seq<Field>, g: seq<Field>, i: nat)
    requires w.OrdersKeys()
    ensures |f| < |g| ==> StableCompare(w, other, Arr(f), Arr(g)) == -1
    ensures |f| > |g| ==> StableCompare(w, other, Arr(f), Arr(g)) == 1
    ensures FirstDiffering(f, g, i) ==>
              StableCompare(w, other, Arr(f), Arr(g)) ==
              if w.compareKeys(f[i].key, g[i].key) < 0 then -1
              else if w.compareKeys(f[i].key, g[i].key) > 0 then 1
              else StableCompare(w, other, f[i].value, g[i].value)
  {
    if FirstDiffering(f, g, i) {
      FirstDifferenceDecides(w, other, Arr(f), Arr(g), i, 0);
    }
    hide CompareFrom;
  }

  lemma {:induction false} FirstDifferenceDecides(w: Engine, other: int, a: Zval, b: Zval, i: nat, from: nat)
    requires w.OrdersKeys() && a.Arr? && b.Arr? && FirstDiffering(a.fields, b.fields, i) && from <= i
    ensures CompareFrom(w, other, a, b, from) ==
            var f, g := a.fields[i], b.fields[i];
            if w.compareKeys(f.key, g.key) < 0 then -1 else if w.compareKeys(f.key, g.key) > 0 then 1
            else StableCompare(w, other, f.value, g.value)
    decreases i - from
  {
    hide StableCompare, IdenticalOrBothNan;
    var f, g := a.fields[from], b.fields[from];
    TiesAreIdentical(w, other, f.value, g.value);
    assert w.compareKeys(f.key, g.key) == 0 <==> f.key == g.key;
    if from < i {
      FirstDifferenceDecides(w, other, a, b, i, from + 1);
    }
  }

  // ----- A total order on all values, arrays included -----

  lemma {:induction false} StableCompareAntisymmetric(w: Engine, other: int, a: Zval, b: Zval)
    requires a.Arr? && b.Arr? ==> w.OrdersKeys()
    ensures StableCompare(w, other, a, b) == -StableCompare(w, other, b, a)
    decreases a, 1, 0
  {
    if a.Arr? && b.Arr? {
      if |a.fields| == |b.fields| {
        EntriesAntisymmetric(w, other, a, b, 0);
      }
    } else {
      ComparesRanks(w, other, a, b);
      ComparesRanks(w, other, b, a);
      RanksAntisymmetric(RankOf(w, a), RankOf(w, b));
    }
    hide CompareRanks, RankOf;
  }

  lemma {:induction false} EntriesAntisymmetric(w: Engine, other: int, a: Zval, b: Zval, i: nat)
    requires w.OrdersKeys() && a.Arr? && b.Arr? && i <= |a.fields| == |b.fields|
    ensures CompareFrom(w, other, a, b, i) == -CompareFrom(w, other, b, a, i)
    decreases a, 0, |a.fields| - i
  {
    hide StableCompare;
    if i < |a.fields| {
      StableCompareAntisymmetric(w, other, a.fields[i].value, b.fields[i].value);
      EntriesAntisymmetric(w, other, a, b, i + 1);
      SpaceshipSign(w, a.fields[i].key, b.fields[i].key);
    }
  }

  lemma SpaceshipSign(w: Engine, k: ArrayKey, l: ArrayKey)
    requires w.OrdersKeys()
    ensures Spaceship(w.compareKeys(k, l), 0) == -Spaceship(w.compareKeys(l, k), 0)
  {
    assert w.compareKeys(k, l) < 0 <==> w.compareKeys(l, k) > 0;
    assert w.compareKeys(l, k) < 0 <==> w.compareKeys(k, l) > 0;
  }

  /** Array keys can be ordered so: integer keys before strings, each kind in its own order. */
  function OrderByKind(k: ArrayKey, l: ArrayKey): int {
    match (k, l)
    case (IntKey(i), IntKey(j)) => Spaceship(i, j)
    case (StrKey(s), StrKey(t)) => BinaryStrcmp(s, t)
    case (IntKey(_), StrKey(_)) => -1
    case (StrKey(_), IntKey(_)) => 1
  }

  lemma KeysCanBeOrdered(w: Engine)
    ensures w.(compareKeys := OrderByKind).OrdersKeys()
  {
    var e := w.(compareKeys := OrderByKind);
    forall k, l
      ensures (e.compareKeys(k, l) == 0 <==> k == l) && (e.compareKeys(k, l) < 0 <==> e.compareKeys(l, k) > 0)
    {
      if k.StrKey? && l.StrKey? {
        StrcmpIsDictionaryOrder(k.s, l.s);
        StrcmpAntisymmetric(k.s, l.s);
      }
    }
    forall k, l, m | e.compareKeys(k, l) < 0 && e.compareKeys(l, m) < 0
      ensures e.compareKeys(k, m) < 0
    {
      if k.StrKey? && l.StrKey? && m.StrKey? {
        StrcmpTransitive(k.s, l.s, m.s);
      }
    }
  }

  /** Not above, and below as soon as one of the two steps is. */
  predicate Chained(ab: int, bc: int, ac: int) {
    ab <= 0 && bc <= 0 ==> ac <= 0 && (ab < 0 || bc < 0 ==> ac < 0)
  }

  lemma {:induction false} StableCompareTransitive(w: Engine, other: int, a: Zval, b: Zval, c: Zval)
    requires a.Arr? && b.Arr? && c.Arr? ==> w.OrdersKeys()
    requires StableCompare(w, other, a, b) <= 0 && StableCompare(w, other, b, c) <= 0
    ensures StableCompare(w, other, a, c) <= 0
    ensures StableCompare(w, other, a, b) < 0 || StableCompare(w, other, b, c) < 0 ==>
              StableCompare(w, other, a, c) < 0
    decreases a, 1, 0
  {
    if a.Arr? && b.Arr? && c.Arr? {
      if |a.fields| == |b.fields| == |c.fields| {
        EntriesTransitive(w, other, a, b, c, 0);
      }
    } else {
      RankedTransitive(w, other, a, b, c);
    }
  }

  lemma RankedTransitive(w: Engine, other: int, a: Zval, b: Zval, c: Zval)
    requires !(a.Arr? && b.Arr? && c.Arr?)
    ensures Chained(StableCompare(w, other, a, b), StableCompare(w, other, b, c), StableCompare(w, other, a, c))
  {
    var p, q, r := RankOf(w, a), RankOf(w, b), RankOf(w, c);
    assert !(a.Arr? && b.Arr?) ==> StableCompare(w, other, a, b) == CompareRanks(p, q) by {
      if !(a.Arr? && b.Arr?) { ComparesRanks(w, other, a, b); }
    }
    assert !(b.Arr? && c.Arr?) ==> StableCompare(w, other, b, c) == CompareRanks(q, r) by {
      if !(b.Arr? && c.Arr?) { ComparesRanks(w, other, b, c); }
    }
    assert !(a.Arr? && c.Arr?) ==> StableCompare(w, other, a, c) == CompareRanks(p, r) by {
      if !(a.Arr? && c.Arr?) { ComparesRanks(w, other, a, c); }
    }
    assert (a.Arr? <==> p.kind == 7) && (b.Arr? <==> q.kind == 7) && (c.Arr? <==> r.kind == 7);
    assert a.Arr? && b.Arr? ==> p == q;
    assert b.Arr? && c.Arr? ==> q == r;
    hide *;
    RanksChained(p, q, r);
    RanksAntisymmetric(p, r);
    RanksAntisymmetric(p, q);
    RanksAntisymmetric(q, r);
  }

  lemma RanksChained(p: Rank, q: Rank, r: Rank)
    ensures Chained(CompareRanks(p, q), CompareRanks(q, r), CompareRanks(p, r))
  {
    if CompareRanks(p, q) <= 0 && CompareRanks(q, r) <= 0 {
      RanksTransitive(p, q, r);
      RanksAntisymmetric(p, r);
      if p == r {
        RanksAntisymmetric(p, q);
      }
    }
    hide CompareRanks;
  }

  lemma {:induction false} EntriesTransitive(w: Engine, other: int, a: Zval, b: Zval, c: Zval, i: nat)
    requires w.OrdersKeys() && a.Arr? && b.Arr? && c.Arr? && i <= |a.fields| == |b.fields| == |c.fields|
    ensures Chained(CompareFrom(w, other, a, b, i), CompareFrom(w, other, b, c, i), CompareFrom(w, other, a, c, i))
    decreases a, 0, |a.fields| - i
  {
    hide StableCompare;
    if i < |a.fields| {
      var x, y, z := a.fields[i], b.fields[i], c.fields[i];
      if StableCompare(w, other, x.value, y.value) <= 0 && StableCompare(w, other, y.value, z.value) <= 0 {
        StableCompareTransitive(w, other, x.value, y.value, z.value);
      }
      EntriesTransitive(w, other, a, b, c, i + 1);
      KeysChained(w, x.key, y.key, z.key);
    }
  }

  lemma KeysChained(w: Engine, k: ArrayKey, l: ArrayKey, m: ArrayKey)
    requires w.OrdersKeys()
    ensures Chained(Spaceship(w.compareKeys(k, l), 0), Spaceship(w.compareKeys(l, m), 0),
                    Spaceship(w.compareKeys(k, m), 0))
  {
  }

  /** Two values tie exactly when they are the same key, so sorting by this order never merges distinct keys. */
  lemma {:induction false} TiesAreIdentical(w: Engine, other: int, a: Zval, b: Zval)
    requires a.Arr? && b.Arr? ==> w.OrdersKeys()
    ensures StableCompare(w, other, a, b) == 0 <==> IdenticalOrBothNan(a, b)
    decreases a, 1, 0
  {
    if a.Arr? && b.Arr? && |a.fields| == |b.fields| {
      EntriesTie(w, other, a, b, 0);
    }
  }

  lemma {:induction false} EntriesTie(w: Engine, other: int, a: Zval, b: Zval, i: nat)
    requires w.OrdersKeys() && a.Arr? && b.Arr? && i <= |a.fields| == |b.fields|
    ensures CompareFrom(w, other, a, b, i) == 0 <==>
            forall j :: i <= j < |a.fields| ==>
              a.fields[j].key == b.fields[j].key && IdenticalOrBothNan(a.fields[j].value, b.fields[j].value)
    decreases a, 0, |a.fields| - i
  {
    hide StableCompare, IdenticalOrBothNan;
    if i < |a.fields| {
      TiesAreIdentical(w, other, a.fields[i].value, b.fields[i].value);
      EntriesTie(w, other, a, b, i + 1);
      assert w.compareKeys(a.fields[i].key, b.fields[i].key) == 0 <==> a.fields[i].key == b.fields[i].key;
    }
  }

  /** What C leaves open about casts does not show. */
  lemma {:induction false} CastsDoNotMatter(w: Engine, other: int, another: int, a: Zval, b: Zval)
    ensures StableCompare(w, other, a, b) == StableCompare(w, another, a, b)
    decreases a, 1, 0
  {
    if a.Arr? && b.Arr? {
      if |a.fields| == |b.fields| {
        CastsInEntriesDoNotMatter(w, other, another, a, b, 0);
      }
    } else {
      ComparesRanks(w, other, a, b);
      ComparesRanks(w, another, a, b);
    }
    hide CompareRanks, RankOf;
  }

  lemma {:induction false} CastsInEntriesDoNotMatter(
    w: Engine, other: int, another: int, a: Zval, b: Zval, i: nat)
    requires a.Arr? && b.Arr? && i <= |a.fields| == |b.fields|
    ensures CompareFrom(w, other, a, b, i) == CompareFrom(w, another, a, b, i)
    decreases a, 0, |a.fields| - i
  {
    hide StableCompare;
    if i < |a.fields| {
      CastsDoNotMatter(w, other, another, a.fields[i].value, b.fields[i].value);
      CastsInEntriesDoNotMatter(w, other, another, a, b, i + 1);
    }
  }

  /** Every number but another NaN is below NaN. */
  lemma NanIsGreatestNumber(w: Engine, other: int, nan: Float64, v: Zval)
    requires IsNan(nan) && (v.Long? || (v.Double? && !IsNan(v.d)))
    ensures StableCompare(w, other, v, Double(nan)) == -1
  {
  }

  /** Numbers are ordered by exact value even where the conversion to double rounds. */
  lemma IntegerBeforeDouble(w: Engine, other: int, i: Int64, x: Float64)
    requires !IsNan(x)
    ensures StableCompare(w, other, Long(i), Double(x)) == -1 <==> Exact(i) <= Value(x)
  {
    DoubleAgainstLong(x, i, other);
  }
}
