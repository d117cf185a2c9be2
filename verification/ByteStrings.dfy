/**
 Byte strings and their binary comparison: `memcmp` on the common length, then the shorter string first.
 */
module ByteStrings {

  type Octet = x: int | 0 <= x < 256

  type Bytes = seq<Octet>

  /** How many leading bytes agree, which is as far as `memcmp` looks. */
  function FirstDifference(a: Bytes, b: Bytes): (k: nat)
    ensures k <= |a| && k <= |b| && a[..k] == b[..k]
    ensures k == |a| || k == |b| || a[k] != b[k]
  {
    if a == [] || b == [] || a[0] != b[0] then 0 else 1 + FirstDifference(a[1..], b[1..])
  }

  /** Negative, zero or positive as `a` comes before, equals or follows `b`. */
  function BinaryStrcmp(a: Bytes, b: Bytes): int {
    var k := FirstDifference(a, b);
    if k < |a| && k < |b| then (a[k] as int) - b[k]
    else if |a| != |b| then if |a| > |b| then 1 else -1
    else 0
  }

  /** The order of a dictionary: at the first difference the smaller byte or the end of `a`. */
  ghost predicate Precedes(a: Bytes, b: Bytes) {
    exists k :: 0 <= k <= |a| && k < |b| && a[..k] == b[..k] && (k == |a| || a[k] < b[k])
  }

  /** The comparison is the dictionary order, and answers zero for equal strings alone. */
  lemma StrcmpIsDictionaryOrder(a: Bytes, b: Bytes)
    ensures BinaryStrcmp(a, b) < 0 <==> Precedes(a, b)
    ensures BinaryStrcmp(a, b) == 0 <==> a == b
    ensures BinaryStrcmp(a, b) > 0 <==> Precedes(b, a)
  {
  }

  lemma PrecedesTransitive(a: Bytes, b: Bytes, c: Bytes)
    requires Precedes(a, b) && Precedes(b, c)
    ensures Precedes(a, c)
  {
    var j :| 0 <= j <= |a| && j < |b| && a[..j] == b[..j] && (j == |a| || a[j] < b[j]);
    var k :| 0 <= k <= |b| && k < |c| && b[..k] == c[..k] && (k == |b| || b[k] < c[k]);
    var m := if j < k then j else k;
    assert a[..m] == a[..j][..m] == b[..m] == b[..k][..m] == c[..m];
    if j < k {
      assert b[j] == b[..k][j] == c[..k][j] == c[j];
    } else if k < j {
      assert a[k] == a[..j][k] == b[..j][k] == b[k];
    }
  }

  /** `a` and `b` compare in opposite ways either way round. */
  lemma StrcmpAntisymmetric(a: Bytes, b: Bytes)
    ensures BinaryStrcmp(a, b) < 0 <==> BinaryStrcmp(b, a) > 0
    ensures BinaryStrcmp(a, b) == 0 <==> BinaryStrcmp(b, a) == 0
  {
  }

  lemma StrcmpTransitive(a: Bytes, b: Bytes, c: Bytes)
    requires BinaryStrcmp(a, b) <= 0 && BinaryStrcmp(b, c) <= 0
    ensures BinaryStrcmp(a, c) <= 0
    ensures BinaryStrcmp(a, b) < 0 || BinaryStrcmp(b, c) < 0 ==> BinaryStrcmp(a, c) < 0
  {
    StrcmpIsDictionaryOrder(a, b);
    StrcmpIsDictionaryOrder(b, c);
    StrcmpIsDictionaryOrder(a, c);
    if BinaryStrcmp(a, b) < 0 && BinaryStrcmp(b, c) < 0 {
      PrecedesTransitive(a, b, c);
    }
  }
}
