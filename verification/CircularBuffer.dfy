/** A circular buffer read as a list that starts at its offset. */
module CircularBuffer {
  import opened Bitwise

  /** All slots, in logical order. */
  function View<T>(b: seq<T>, o: nat): (v: seq<T>)
    requires o <= |b|
    ensures |v| == |b|
  {
    b[o..] + b[..o]
  }

  predicate GoodMask<T>(b: seq<T>, mask: nat) {
    |b| == mask + 1 && IsPow2(|b|) && mask < U32_LIMIT
  }

  /** Logical index `i` lives in slot `(o + i) & mask`. */
  lemma ViewAt<T>(b: seq<T>, o: nat, mask: nat, i: nat)
    requires GoodMask(b, mask) && o <= mask && i <= mask
    ensures View(b, o)[i] == b[Wrap(o + i, mask)]
  {
  }

  lemma ViewStore<T>(b: seq<T>, o: nat, mask: nat, i: nat, x: T)
    requires GoodMask(b, mask) && o <= mask && i <= mask
    ensures View(b[Wrap(o + i, mask) := x], o) == View(b, o)[i := x]
  {
  }

  /** Moving the start back by `a` brings the last `a` slots to the front. */
  lemma ViewBack<T>(b: seq<T>, o: nat, mask: nat, a: nat)
    requires GoodMask(b, mask) && o <= mask && a <= mask + 1
    ensures View(b, Wrap(o - a, mask)) == View(b, o)[|b| - a..] + View(b, o)[..|b| - a]
  {
  }

  lemma ViewForward<T>(b: seq<T>, o: nat, mask: nat)
    requires GoodMask(b, mask) && o <= mask
    ensures View(b, Wrap(o + 1, mask)) == View(b, o)[1..] + View(b, o)[..1]
  {
  }

  /** A value written before the front becomes the first element. */
  lemma PrependView<T>(b: seq<T>, o: nat, mask: nat, n: nat, x: T)
    requires GoodMask(b, mask) && o <= mask && n <= mask
    ensures View(b, Wrap(o - 1, mask))[0 := x][..n + 1] == [x] + View(b, o)[..n]
  {
    hide IsPow2, Wrap;
    ViewBack(b, o, mask, 1);
  }

  lemma PopFrontView<T>(b: seq<T>, o: nat, mask: nat, n: nat)
    requires GoodMask(b, mask) && o <= mask && 0 < n <= mask + 1
    ensures View(b, o)[..n][0] == b[o]
    ensures View(b, Wrap(o + 1, mask))[..n - 1] == View(b, o)[..n][1..]
  {
  }

  /** An unwrapped segment reads the same in storage of another size. */
  lemma SameSegment<T>(b: seq<T>, b': seq<T>, o: nat, n: nat)
    requires o + n <= |b| && o + n <= |b'|
    requires forall i :: o <= i < o + n ==> b'[i] == b[i]
    ensures View(b', o)[..n] == View(b, o)[..n]
  {
  }

  lemma FromZero<T>(b: seq<T>, n: nat)
    requires n <= |b|
    ensures View(b, 0)[..n] == b[..n]
  {
  }

  // ----- Slots by logical position -----

  predicate FrontOk(o: nat, mask: nat) {
    IsPow2(mask + 1) && mask < U32_LIMIT && o <= mask
  }

  /** The slot of logical position `i`; position `mask + 1` is the first slot again. */
  function Pos(o: nat, mask: nat, i: nat): (r: nat)
    requires FrontOk(o, mask) && i <= mask + 1
    ensures r <= mask
  {
    Wrap(o + i, mask)
  }

  lemma PosIs(o: nat, mask: nat, i: nat)
    requires FrontOk(o, mask) && i <= mask + 1
    ensures Wrap(o + i, mask) == Pos(o, mask, i)
  {
  }

  lemma PosStep(o: nat, mask: nat, i: nat)
    requires FrontOk(o, mask) && i <= mask
    ensures Wrap(Pos(o, mask, i) + 1, mask) == Pos(o, mask, i + 1)
    ensures Wrap(Pos(o, mask, i + 1) - 1, mask) == Pos(o, mask, i)
  {
  }

  lemma PosInjective(o: nat, mask: nat, i: nat, j: nat)
    requires FrontOk(o, mask) && i <= mask && j <= mask
    ensures Pos(o, mask, i) == Pos(o, mask, j) ==> i == j
  {
  }

  lemma ViewPos<T>(b: seq<T>, o: nat, mask: nat, i: nat)
    requires GoodMask(b, mask) && o <= mask && i <= mask
    ensures View(b, o)[i] == b[Pos(o, mask, i)]
  {
  }

  lemma ViewStorePos<T>(b: seq<T>, o: nat, mask: nat, i: nat, x: T)
    requires GoodMask(b, mask) && o <= mask && i <= mask
    ensures View(b[Pos(o, mask, i) := x], o) == View(b, o)[i := x]
  {
  }
}
