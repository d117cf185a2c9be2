/**
 PHP values as the containers see them after references are followed, and the key identity of
 StrictHashMap: identical, or both not a number. Arrays are acyclic, compared entry by entry in order.
 */
module Zvals {
  import opened ByteStrings
  import opened Float64s

  datatype ArrayKey = IntKey(n: Int64) | StrKey(s: Bytes)

  datatype Field = Field(key: ArrayKey, value: Zval)

  datatype Zval =
    | Null
    | False
    | True
    | Long(l: Int64)
    | Double(d: Float64)
    | Str(s: Bytes)
    | Arr(fields: seq<Field>)
    | Obj(handle: nat)
    | Res(handle: nat)

  /** The engine's type tags, which also order values of different types. */
  function TypeTag(v: Zval): nat {
    match v
    case Null => 1
    case False => 2
    case True => 3
    case Long(_) => 4
    case Double(_) => 5
    case Str(_) => 6
    case Arr(_) => 7
    case Obj(_) => 8
    case Res(_) => 9
  }

  predicate SameDouble(x: Float64, y: Float64) {
    FloatEq(x, y) || (IsNan(x) && IsNan(y))
  }

  predicate IdenticalOrBothNan(a: Zval, b: Zval) {
    match (a, b)
    case (Null, Null) => true
    case (False, False) => true
    case (True, True) => true
    case (Long(i), Long(j)) => i == j
    case (Double(x), Double(y)) => if IsNan(x) then IsNan(y) else FloatEq(x, y)
    case (Str(s), Str(t)) => s == t
    case (Arr(f), Arr(g)) => |f| == |g| &&
      forall i :: 0 <= i < |f| ==> f[i].key == g[i].key && IdenticalOrBothNan(f[i].value, g[i].value)
    case (Obj(h), Obj(k)) => h == k
    case (Res(h), Res(k)) => h == k
    case _ => false
  }

  lemma {:induction false} IdenticalReflexive(a: Zval)
    ensures IdenticalOrBothNan(a, a)
  {
    if a.Arr? {
      forall i | 0 <= i < |a.fields|
        ensures IdenticalOrBothNan(a.fields[i].value, a.fields[i].value)
      {
        IdenticalReflexive(a.fields[i].value);
      }
    }
  }

  lemma {:induction false} IdenticalSymmetric(a: Zval, b: Zval)
    requires IdenticalOrBothNan(a, b)
    ensures IdenticalOrBothNan(b, a)
  {
    if a.Arr? {
      forall i | 0 <= i < |a.fields|
        ensures IdenticalOrBothNan(b.fields[i].value, a.fields[i].value)
      {
        IdenticalSymmetric(a.fields[i].value, b.fields[i].value);
      }
    }
  }

  lemma {:induction false} IdenticalTransitive(a: Zval, b: Zval, c: Zval)
    requires IdenticalOrBothNan(a, b) && IdenticalOrBothNan(b, c)
    ensures IdenticalOrBothNan(a, c)
  {
    if a.Arr? {
      forall i | 0 <= i < |a.fields|
        ensures IdenticalOrBothNan(a.fields[i].value, c.fields[i].value)
      {
        IdenticalTransitive(a.fields[i].value, b.fields[i].value, c.fields[i].value);
      }
    }
  }
}
