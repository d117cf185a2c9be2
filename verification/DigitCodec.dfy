/** One-bit or two-bit digits packed into bytes, lowest first; the last byte may hold fewer. */
module DigitCodec {
  import opened Bitwise
  import opened ByteStrings

  datatype Width = OneBit | TwoBits

  function Base(w: Width): nat {
    if w == OneBit then 2 else 4
  }

  /** Digits in a byte. */
  function PerByte(w: Width): nat {
    if w == OneBit then 8 else 4
  }

  function Low(w: Width, v: nat): (d: nat)
    ensures d < Base(w)
  {
    if w == OneBit then v % 2 else v % 4
  }

  function Rest(w: Width, v: nat): nat {
    if w == OneBit then v / 2 else v / 4
  }

  function Up(w: Width, v: nat): nat {
    if w == OneBit then 2 * v else 4 * v
  }

  /** The weight of digit `n`. */
  function Weight(w: Width, n: nat): (p: nat)
    ensures p > 0
  {
    if n == 0 then 1 else Up(w, Weight(w, n - 1))
  }

  predicate AllDigits(w: Width, s: seq<nat>) {
    forall i :: 0 <= i < |s| ==> s[i] < Base(w)
  }

  /** The number with the given digits. */
  function Digits(w: Width, s: seq<nat>): nat {
    if s == [] then 0 else s[0] + Up(w, Digits(w, s[1..]))
  }

  /** The lowest `n` digits of a number. */
  function Peel(w: Width, v: nat, n: nat): (s: seq<nat>)
    ensures |s| == n && AllDigits(w, s)
  {
    if n == 0 then [] else [Low(w, v)] + Peel(w, Rest(w, v), n - 1)
  }

  lemma {:induction false} PeelDigits(w: Width, s: seq<nat>)
    requires AllDigits(w, s)
    ensures Peel(w, Digits(w, s), |s|) == s
  {
    if s != [] {
      PeelDigits(w, s[1..]);
    }
  }

  lemma {:induction false} DigitsBound(w: Width, s: seq<nat>, n: nat)
    requires AllDigits(w, s) && |s| <= n
    ensures Digits(w, s) < Weight(w, n)
  {
    if s != [] {
      DigitsBound(w, s[1..], n - 1);
    }
  }

  lemma ByteWeight(w: Width)
    ensures Weight(w, PerByte(w)) == 256
  {
    assert Weight(OneBit, 4) == 16 && Weight(TwoBits, 4) == 256;
    assert Weight(OneBit, 8) == 16 * Weight(OneBit, 4);
  }

  /** One more digit on top. */
  lemma {:induction false} DigitsSnoc(w: Width, s: seq<nat>, x: nat)
    ensures Digits(w, s + [x]) == Digits(w, s) + x * Weight(w, |s|)
  {
    if s == [] {
      assert [x][1..] == [];
    } else {
      assert (s + [x])[1..] == s[1..] + [x];
      DigitsSnoc(w, s[1..], x);
      var r, p := Digits(w, s[1..]), Weight(w, |s| - 1);
      assert Digits(w, s) == s[0] + Up(w, r) && Weight(w, |s|) == Up(w, p);
      assert Digits(w, s + [x]) == s[0] + Up(w, Digits(w, s[1..] + [x]));
      hide *;
      UpDistributes(w, r, x, p);
    }
  }

  lemma UpDistributes(w: Width, r: nat, x: nat, p: nat)
    ensures Up(w, r + x * p) == Up(w, r) + x * Up(w, p)
  {
  }

  // ----- Lists of digits -----

  /** Bytes needed for `n` digits. */
  function BytesFor(w: Width, n: nat): nat {
    if w == OneBit then (n + 7) / 8 else (n + 3) / 4
  }

  /** Digits of the last byte that are not used. */
  function Wasted(w: Width, n: nat): (p: nat)
    ensures p < PerByte(w) && p + n == PerByte(w) * BytesFor(w, n)
  {
    WastedOf(n, 8);
    WastedOf(n, 4);
    if w == OneBit then (8 - n) % 8 else (4 - n) % 4
  }

  lemma WastedOf(n: nat, p: nat)
    requires p > 0
    ensures (p - n) % p + n == p * ((n + p - 1) / p)
  {
    var k := (n + p - 1) / p;
    assert n + p - 1 == p * k + (n + p - 1) % p;
    var t := p * k - n;
    assert p - n == (1 - k) * p + t;
    DivModUnique(p - n, p, 1 - k, t);
  }

  function OneByte(w: Width, s: seq<nat>): Octet
    requires AllDigits(w, s) && |s| <= PerByte(w)
  {
    DigitsBound(w, s, PerByte(w));
    ByteWeight(w);
    Digits(w, s)
  }

  function EncodeDigits(w: Width, s: seq<nat>): (e: Bytes)
    requires AllDigits(w, s)
    ensures |e| == BytesFor(w, |s|)
    decreases |s|
  {
    var p := PerByte(w);
    if s == [] then []
    else if |s| <= p then [OneByte(w, s)]
    else [OneByte(w, s[..p])] + EncodeDigits(w, s[p..])
  }

  function DecodeDigits(w: Width, e: Bytes, n: nat): (s: seq<nat>)
    requires |e| == BytesFor(w, n)
    ensures |s| == n && AllDigits(w, s)
    decreases n
  {
    var p := PerByte(w);
    if n == 0 then []
    else if n <= p then Peel(w, e[0], n)
    else Peel(w, e[0], p) + DecodeDigits(w, e[1..], n - p)
  }

  lemma {:induction false} DecodeEncoded(w: Width, s: seq<nat>)
    requires AllDigits(w, s)
    ensures DecodeDigits(w, EncodeDigits(w, s), |s|) == s
    decreases |s|
  {
    var p := PerByte(w);
    if 0 < |s| <= p {
      PeelDigits(w, s);
    } else if |s| > p {
      PeelDigits(w, s[..p]);
      DecodeEncoded(w, s[p..]);
      hide Peel, Digits;
      assert EncodeDigits(w, s)[1..] == EncodeDigits(w, s[p..]);
      assert s == s[..p] + s[p..];
    }
  }

  // ----- One digit -----

  /** Digit `k` of a byte, as a number. */
  function DigitAt(w: Width, v: nat, k: nat): nat {
    v / Weight(w, k) % Base(w)
  }

  lemma DigitAbove(w: Width, v: nat, k: nat)
    ensures DigitAt(w, v, k + 1) == DigitAt(w, Rest(w, v), k)
  {
    var p, b := Weight(w, k), Base(w);
    assert Weight(w, k + 1) == b * p && Rest(w, v) == v / b;
    hide *;
    DivTwice(v, b, p);
  }

  lemma DivTwice(v: nat, b: nat, p: nat)
    requires b > 0 && p > 0
    ensures b * p > 0 && v / (b * p) == v / b / p
  {
    var q, r := v / b, v % b;
    DivInSteps(v, b, p, q, r, q / p, q % p);
  }

  lemma DivInSteps(v: nat, b: nat, p: nat, q: nat, r: nat, t: nat, u: nat)
    requires v == b * q + r && q == p * t + u && r < b && u < p
    ensures b * p > 0 && v / (b * p) == t
  {
    BelowProduct(b, p, u, r);
    Distributed(b, p, t, u, r);
    DivModUnique(v, b * p, t, b * u + r);
  }

  lemma Distributed(b: nat, p: nat, t: nat, u: nat, r: nat)
    ensures b * (p * t + u) + r == t * (b * p) + (b * u + r)
  {
  }

  lemma BelowProduct(b: nat, p: nat, u: nat, r: nat)
    requires u < p && r < b
    ensures 0 <= b * u + r < b * p
  {
    var d: nat := p - u - 1;
    assert b * (u + 1 + d) == b * u + b + b * d;
  }

  lemma {:induction false} DigitOfDigits(w: Width, s: seq<nat>, k: nat)
    requires AllDigits(w, s)
    ensures DigitAt(w, Digits(w, s), k) == if k < |s| then s[k] else 0
  {
    if s != [] {
      assert Digits(w, s) == s[0] + Up(w, Digits(w, s[1..]));
      assert Rest(w, Digits(w, s)) == Digits(w, s[1..]) && Low(w, Digits(w, s)) == s[0];
      if k > 0 {
        DigitAbove(w, Digits(w, s), k - 1);
        DigitOfDigits(w, s[1..], k - 1);
      } else {
        assert Weight(w, 0) == 1;
      }
    } else {
      assert 0 / Weight(w, k) == 0;
    }
  }

  lemma {:induction false} DigitOfPeeled(w: Width, v: nat, n: nat, k: nat)
    requires k < n
    ensures Peel(w, v, n)[k] == DigitAt(w, v, k)
  {
    if k > 0 {
      DigitAbove(w, v, k - 1);
      DigitOfPeeled(w, Rest(w, v), n - 1, k - 1);
    } else {
      assert Weight(w, 0) == 1;
    }
  }

  /** The byte and the place in it of digit `i`, and of the digit one byte before. */
  lemma PlaceOf(w: Width, i: nat)
    ensures i < PerByte(w) ==> i / PerByte(w) == 0 && i % PerByte(w) == i
    ensures i >= PerByte(w) ==>
              var before := i - PerByte(w);
              i / PerByte(w) == before / PerByte(w) + 1 && i % PerByte(w) == before % PerByte(w)
  {
  }

  lemma EncodedStep(w: Width, s: seq<nat>)
    requires AllDigits(w, s)
    ensures var p := PerByte(w);
            if |s| > p then EncodeDigits(w, s) == [OneByte(w, s[..p])] + EncodeDigits(w, s[p..])
            else EncodeDigits(w, s) == if s == [] then [] else [OneByte(w, s)]
  {
  }

  /** Digit `i` of the list is digit `i` of the bytes; the places after the last one are 0. */
  lemma {:induction false} DigitOfEncoded(w: Width, s: seq<nat>, i: nat)
    requires AllDigits(w, s) && i < PerByte(w) * BytesFor(w, |s|)
    ensures i / PerByte(w) < |EncodeDigits(w, s)|
    ensures DigitAt(w, EncodeDigits(w, s)[i / PerByte(w)], i % PerByte(w)) == if i < |s| then s[i] else 0
    decreases |s|
  {
    var p := PerByte(w);
    EncodedStep(w, s);
    PlaceOf(w, i);
    assert |s| <= p ==> BytesFor(w, |s|) <= 1;
    assert |s| > p ==> BytesFor(w, |s|) == BytesFor(w, |s| - p) + 1;
    hide EncodeDigits, Digits, DigitAt, BytesFor, PerByte;
    if |s| <= p {
      DigitOfDigits(w, s, i);
    } else if i < p {
      DigitOfDigits(w, s[..p], i);
    } else {
      DigitOfEncoded(w, s[p..], i - p);
    }
  }

  lemma DecodedStep(w: Width, e: Bytes, n: nat)
    requires |e| == BytesFor(w, n) && n > 0
    ensures var p := PerByte(w);
            |e| > 0 && if n > p then |e| - 1 == BytesFor(w, n - p) &&
                                     DecodeDigits(w, e, n) == Peel(w, e[0], p) + DecodeDigits(w, e[1..], n - p)
                       else DecodeDigits(w, e, n) == Peel(w, e[0], n)
  {
  }

  lemma {:induction false} DigitOfDecoded(w: Width, e: Bytes, n: nat, i: nat)
    requires |e| == BytesFor(w, n) && i < n
    ensures i / PerByte(w) < |e| && DecodeDigits(w, e, n)[i] == DigitAt(w, e[i / PerByte(w)], i % PerByte(w))
    decreases n
  {
    hide *;
    var p := PerByte(w);
    DecodedStep(w, e, n);
    PlaceOf(w, i);
    if n <= p {
      DigitOfPeeled(w, e[0], n, i);
    } else if i < p {
      DigitOfPeeled(w, e[0], p, i);
    } else {
      DigitOfDecoded(w, e[1..], n - p, i - p);
    }
  }
}
