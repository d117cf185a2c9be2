/**
 The bucket array of a StrictHashMap read as a value: which slots are live, which association list they
 spell, and what it means for the index-linked collision chains to be in order.
 */
module HashSlots {
  import opened Wrappers
  import opened AssocList
  import opened Bitwise

  const INVALID_INDEX: nat := 0xFFFF_FFFF

  /** One slot. `kv` is `None` for an undefined key; `h` and `next` keep stale values in removed slots. */
  datatype Entry<+K, +V> = Entry(kv: Option<Pair<K, V>>, h: nat, next: nat)

  // ----- The association list spelled by a run of slots -----

  function One<K, V>(e: Entry<K, V>): seq<Pair<K, V>> {
    if e.kv.Some? then [e.kv.value] else []
  }

  function Pairs<K, V>(d: seq<Entry<K, V>>): seq<Pair<K, V>> {
    if |d| == 0 then [] else Pairs(d[..|d| - 1]) + One(d[|d| - 1])
  }

  lemma PairsAppend<K, V>(d: seq<Entry<K, V>>, e: Entry<K, V>)
    ensures Pairs(d + [e]) == Pairs(d) + One(e)
  {
  }

  lemma PairsExtend<K, V>(d: seq<Entry<K, V>>, n: nat)
    requires n < |d|
    ensures Pairs(d[..n + 1]) == Pairs(d[..n]) + One(d[n])
  {
    assert d[..n + 1] == d[..n] + [d[n]];
    PairsAppend(d[..n], d[n]);
  }

  lemma PairsStep<K, V>(d: seq<Entry<K, V>>, n: nat)
    requires n < |d|
    ensures Pairs(d[..n + 1]) == if d[n].kv.Some? then Pairs(d[..n]) + [d[n].kv.value] else Pairs(d[..n])
  {
    PairsExtend(d, n);
  }

  lemma {:induction false} PairsConcat<K, V>(a: seq<Entry<K, V>>, b: seq<Entry<K, V>>)
    ensures Pairs(a + b) == Pairs(a) + Pairs(b)
    decreases |b|
  {
    if |b| == 0 {
      assert a + b == a;
    } else {
      var b0 := b[..|b| - 1];
      assert a + b == (a + b0) + [b[|b| - 1]];
      PairsAppend(a + b0, b[|b| - 1]);
      PairsConcat(a, b0);
    }
  }

  lemma PairsSplit<K, V>(d: seq<Entry<K, V>>, i: nat)
    requires i < |d|
    ensures Pairs(d) == Pairs(d[..i]) + One(d[i]) + Pairs(d[i + 1..])
  {
    assert d == d[..i + 1] + d[i + 1..];
    PairsConcat(d[..i + 1], d[i + 1..]);
    PairsExtend(d, i);
  }

  lemma {:induction false} NoMorePairs<K, V>(d: seq<Entry<K, V>>)
    ensures |Pairs(d)| <= |d|
    decreases |d|
  {
    if |d| > 0 {
      NoMorePairs(d[..|d| - 1]);
    }
  }

  lemma {:induction false} PairsOfDead<K, V>(d: seq<Entry<K, V>>)
    requires forall i :: 0 <= i < |d| ==> d[i].kv.None?
    ensures Pairs(d) == []
  {
    if |d| > 0 {
      PairsOfDead(d[..|d| - 1]);
    }
  }

  lemma {:induction false} PairsBound<K, V>(d: seq<Entry<K, V>>)
    ensures |Pairs(d)| <= |d|
    ensures |Pairs(d)| == |d| <==> forall i :: 0 <= i < |d| ==> d[i].kv.Some?
    decreases |d|
  {
    if |d| > 0 {
      PairsBound(d[..|d| - 1]);
    }
  }

  /** Only the keys and values matter, not the stored hashes and links. */
  lemma {:induction false} PairsOfSameKv<K, V>(d: seq<Entry<K, V>>, d': seq<Entry<K, V>>)
    requires |d| == |d'|
    requires forall i :: 0 <= i < |d| ==> d[i].kv == d'[i].kv
    ensures Pairs(d) == Pairs(d')
  {
    if |d| > 0 {
      PairsOfSameKv(d[..|d| - 1], d'[..|d| - 1]);
    }
  }

  function Rank<K, V>(d: seq<Entry<K, V>>, i: nat): nat
    requires i <= |d|
  {
    |Pairs(d[..i])|
  }

  lemma RankOfLive<K, V>(d: seq<Entry<K, V>>, i: nat)
    requires i < |d| && d[i].kv.Some?
    ensures Rank(d, i) < |Pairs(d)|
    ensures Pairs(d)[Rank(d, i)] == d[i].kv.value
  {
    PairsSplit(d, i);
  }

  lemma RankIsStrict<K, V>(d: seq<Entry<K, V>>, i: nat, j: nat)
    requires i < j <= |d| && d[i].kv.Some?
    ensures Rank(d, i) < Rank(d, j)
  {
    assert d[..j][..i] == d[..i];
    PairsSplit(d[..j], i);
  }

  /** Every list position is some live slot. */
  lemma {:induction false} SlotOfPosition<K, V>(d: seq<Entry<K, V>>, r: nat) returns (i: nat)
    requires r < |Pairs(d)|
    ensures i < |d| && d[i].kv.Some? && Rank(d, i) == r
    decreases |d|
  {
    var n := |d| - 1;
    if r < |Pairs(d[..n])| {
      i := SlotOfPosition(d[..n], r);
      assert d[..n][..i] == d[..i];
    } else {
      i := n;
    }
  }

  // ----- Collision chains -----

  /** The mask of a table with `size` slots: minus twice the size, as an unsigned 32-bit number. */
  function SizeToMask(size: nat): nat
    requires 0 < size <= 0x8000_0000
  {
    U32_LIMIT - (size + size)
  }

  /**
   The position of a hash's chain head. In the source `h | mask`, read as a negative number, indexes
   backwards from the first slot; here positions count from the start of the `2 * size` heads.
   */
  function Head(h: nat, size: nat): (b: nat)
    requires IsPow2(size) && size <= 0x8000_0000 && h < U32_LIMIT
    ensures b < 2 * size
  {
    HeadIsResidue(h, size);
    Or(h, SizeToMask(size)) - SizeToMask(size)
  }

  lemma HeadIsResidue(h: nat, size: nat)
    requires IsPow2(size) && size <= 0x8000_0000 && h < U32_LIMIT
    ensures Or(h, SizeToMask(size)) == SizeToMask(size) + h % (2 * size)
  {
    U32IsPow2();
    Pow2Twice(size);
    OrMaskIsMod(h, 2 * size, U32_LIMIT);
  }

  ghost predicate HashesOk<K(!new), V>(keys: Keys<K>, d: seq<Entry<K, V>>, n: nat)
    requires n <= |d|
  {
    forall i :: 0 <= i < n && d[i].kv.Some? ==> d[i].h == keys.hash(d[i].kv.value.key) && d[i].h < U32_LIMIT
  }

  predicate OnChain<K, V>(e: Entry<K, V>, b: nat, size: nat)
    requires IsPow2(size) && size <= 0x8000_0000
  {
    e.kv.Some? && e.h < U32_LIMIT && Head(e.h, size) == b
  }

  /** `r` is the largest live slot below `hi` whose chain is `b`, or the invalid index when there is none. */
  ghost predicate IsTop<K, V>(d: seq<Entry<K, V>>, hi: nat, b: nat, size: nat, r: nat)
    requires IsPow2(size) && size <= 0x8000_0000
    requires hi <= |d|
  {
    && (r == INVALID_INDEX || (r < hi && OnChain(d[r], b, size)))
    && (forall j :: 0 <= j < hi && (r == INVALID_INDEX || r < j) ==> !OnChain(d[j], b, size))
  }

  /** Heads and links follow exactly the live slots of each chain, in strictly decreasing order. */
  ghost predicate Linked<K, V>(d: seq<Entry<K, V>>, heads: seq<nat>, n: nat, size: nat)
    requires IsPow2(size) && size <= 0x8000_0000
    requires n <= |d|
  {
    && |heads| == 2 * size
    && (forall b :: 0 <= b < |heads| ==> IsTop(d, n, b, size, heads[b]))
    && (forall i :: 0 <= i < n && d[i].kv.Some? ==>
          d[i].h < U32_LIMIT && IsTop(d, i, Head(d[i].h, size), size, d[i].next))
  }

  lemma NothingLinked<K, V>(d: seq<Entry<K, V>>, heads: seq<nat>, size: nat)
    requires IsPow2(size) && size <= 0x8000_0000 && |heads| == 2 * size
    requires forall b :: 0 <= b < |heads| ==> heads[b] == INVALID_INDEX
    ensures Linked(d, heads, 0, size)
  {
  }

  /** Pushing slot `n` in front of its chain. */
  lemma LinkNext<K, V>(d: seq<Entry<K, V>>, heads: seq<nat>, n: nat, size: nat)
    requires IsPow2(size) && size <= 0x8000_0000
    requires n < |d| && n < size && Linked(d, heads, n, size)
    requires d[n].kv.Some? && d[n].h < U32_LIMIT && d[n].next == heads[Head(d[n].h, size)]
    ensures Linked(d, heads[Head(d[n].h, size) := n], n + 1, size)
  {
  }

  /** Slots at and above `n` do not take part. */
  lemma LinkedFrame<K, V>(d: seq<Entry<K, V>>, d': seq<Entry<K, V>>, heads: seq<nat>, n: nat, size: nat)
    requires IsPow2(size) && size <= 0x8000_0000
    requires n <= |d| && n <= |d'| && d[..n] == d'[..n]
    requires Linked(d, heads, n, size)
    ensures Linked(d', heads, n, size)
  {
    assert forall i :: 0 <= i < n ==> d[i] == d[..n][i] && d'[i] == d'[..n][i];
    forall b | 0 <= b < |heads|
      ensures IsTop(d', n, b, size, heads[b])
    {
      assert IsTop(d, n, b, size, heads[b]);
    }
    forall i | 0 <= i < n && d'[i].kv.Some?
      ensures d'[i].h < U32_LIMIT && IsTop(d', i, Head(d'[i].h, size), size, d'[i].next)
    {
      assert IsTop(d, i, Head(d[i].h, size), size, d[i].next);
    }
  }

  /** Values may change freely under the same chains. */
  lemma LinkedSameShape<K, V>(d: seq<Entry<K, V>>, d': seq<Entry<K, V>>, heads: seq<nat>, n: nat, size: nat)
    requires IsPow2(size) && size <= 0x8000_0000
    requires n <= |d| == |d'| && Linked(d, heads, n, size)
    requires forall i :: 0 <= i < n ==>
               d'[i].kv.Some? == d[i].kv.Some? && d'[i].h == d[i].h && d'[i].next == d[i].next
    ensures Linked(d', heads, n, size)
  {
  }

  function Kill<K, V>(e: Entry<K, V>): Entry<K, V> {
    e.(kv := None)
  }

  /** Where a chain entry or head that pointed at `idx` must point once `idx` is gone. */
  function Bypass<K, V>(d: seq<Entry<K, V>>, idx: nat, r: nat): nat
    requires idx < |d|
  {
    if r == idx then d[idx].next else r
  }

  lemma TopAfterKill<K, V>(d: seq<Entry<K, V>>, n: nat, hi: nat, b: nat, size: nat,
                           r: nat, idx: nat, d': seq<Entry<K, V>>)
    requires IsPow2(size) && size <= 0x8000_0000
    requires hi <= n <= |d| == |d'| && idx < n < INVALID_INDEX
    requires IsTop(d, hi, b, size, r)
    requires d[idx].kv.Some? && d[idx].h < U32_LIMIT && IsTop(d, idx, Head(d[idx].h, size), size, d[idx].next)
    requires d'[idx].kv.None?
    requires forall i :: 0 <= i < n && i != idx ==> d'[i].kv == d[i].kv && d'[i].h == d[i].h
    ensures IsTop(d', hi, b, size, Bypass(d, idx, r))
  {
  }

  lemma DropDeadTail<K, V>(d: seq<Entry<K, V>>, n: nat, n': nat, b: nat, size: nat, r: nat)
    requires IsPow2(size) && size <= 0x8000_0000
    requires n' <= n <= |d| && n < INVALID_INDEX && IsTop(d, n, b, size, r)
    requires forall i :: n' <= i < n ==> d[i].kv.None?
    ensures IsTop(d, n', b, size, r)
  {
  }

  /** Unlinking: only the holder of `idx` is redirected, and dead slots may drop off the end. */
  lemma UnlinkKeepsChains<K, V>(d: seq<Entry<K, V>>, heads: seq<nat>, n: nat, size: nat, idx: nat,
                                d': seq<Entry<K, V>>, heads': seq<nat>, n': nat)
    requires IsPow2(size) && size <= 0x8000_0000
    requires n' <= n <= |d| == |d'| == size && idx < n
    requires Linked(d, heads, n, size) && d[idx].kv.Some?
    requires d'[idx].kv.None?
    requires forall i :: 0 <= i < n && i != idx ==> d'[i].kv == d[i].kv && d'[i].h == d[i].h
    requires forall i :: 0 <= i < n && i != idx && d[i].kv.Some? ==> d'[i].next == Bypass(d, idx, d[i].next)
    requires |heads'| == |heads|
    requires forall b :: 0 <= b < |heads| ==> heads'[b] == Bypass(d, idx, heads[b])
    requires forall i :: n' <= i < n ==> d'[i].kv.None?
    ensures Linked(d', heads', n', size)
  {
    hide Head, IsPow2, IsTop, OnChain;
    forall b | 0 <= b < |heads'|
      ensures IsTop(d', n', b, size, heads'[b])
    {
      assert IsTop(d, n, b, size, heads[b]);
      TopAfterKill(d, n, n, b, size, heads[b], idx, d');
      DropDeadTail(d', n, n', b, size, heads'[b]);
    }
    forall i | 0 <= i < n' && d'[i].kv.Some?
      ensures d'[i].h < U32_LIMIT && IsTop(d', i, Head(d'[i].h, size), size, d'[i].next)
    {
      assert IsTop(d, i, Head(d[i].h, size), size, d[i].next);
      TopAfterKill(d, n, i, Head(d[i].h, size), size, d[i].next, idx, d');
    }
  }

  /** Only one head or link points at a live slot. */
  lemma OneHolder<K, V>(d: seq<Entry<K, V>>, heads: seq<nat>, n: nat, size: nat, idx: nat)
    requires IsPow2(size) && size <= 0x8000_0000
    requires n <= |d| == size && idx < n && Linked(d, heads, n, size) && d[idx].kv.Some?
    ensures forall b :: 0 <= b < |heads| && heads[b] == idx ==> b == Head(d[idx].h, size)
    ensures forall i :: 0 <= i < n && d[i].kv.Some? && d[i].next == idx ==>
              OnChain(d[i], Head(d[idx].h, size), size) && idx < i && heads[Head(d[idx].h, size)] != idx
    ensures forall i, j :: 0 <= i < j < n && d[i].kv.Some? && d[j].kv.Some? ==> !(d[i].next == idx && d[j].next == idx)
  {
  }

  // ----- What the links mean -----

  /** The slots met when following links from `r`. */
  ghost function ChainFrom<K, V>(d: seq<Entry<K, V>>, heads: seq<nat>, n: nat, size: nat, r: nat): (c: seq<nat>)
    requires IsPow2(size) && size <= 0x8000_0000
    requires n <= |d| && Linked(d, heads, n, size)
    requires r == INVALID_INDEX || (r < n && d[r].kv.Some?)
    ensures forall i :: 0 <= i < |c| ==> c[i] <= r
    ensures forall i, j :: 0 <= i < j < |c| ==> c[j] < c[i]
    decreases if r == INVALID_INDEX then 0 else r + 1
  {
    if r == INVALID_INDEX then []
    else
      assert IsTop(d, r, Head(d[r].h, size), size, d[r].next);
      [r] + (if d[r].next == INVALID_INDEX then [] else ChainFrom(d, heads, n, size, d[r].next))
  }

  /** A chain holds exactly the live slots of its head, below where it was entered. */
  lemma {:induction false} ChainIsExact<K, V>(d: seq<Entry<K, V>>, heads: seq<nat>, n: nat,
                                             size: nat, hi: nat, b: nat, r: nat)
    requires IsPow2(size) && size <= 0x8000_0000
    requires hi <= n <= |d| && n < INVALID_INDEX && Linked(d, heads, n, size)
    requires IsTop(d, hi, b, size, r)
    ensures forall i :: i in ChainFrom(d, heads, n, size, r) <==> 0 <= i < hi && OnChain(d[i], b, size)
    decreases if r == INVALID_INDEX then 0 else r + 1
  {
    hide Head, IsPow2;
    if r != INVALID_INDEX {
      assert IsTop(d, r, b, size, d[r].next);
      ChainIsExact(d, heads, n, size, r, b, d[r].next);
    }
  }

  /** Every live slot is on exactly one chain, the one its hash selects; no removed slot is on any. */
  lemma EachLiveSlotOnOneChain<K, V>(d: seq<Entry<K, V>>, heads: seq<nat>, n: nat, size: nat, i: nat, b: nat)
    requires IsPow2(size) && size <= 0x8000_0000
    requires n <= |d| && n < INVALID_INDEX && Linked(d, heads, n, size)
    requires b < 2 * size
    ensures heads[b] == INVALID_INDEX || (heads[b] < n && d[heads[b]].kv.Some?)
    ensures i in ChainFrom(d, heads, n, size, heads[b]) <==> i < n && d[i].kv.Some? && Head(d[i].h, size) == b
  {
    assert IsTop(d, n, b, size, heads[b]);
    ChainIsExact(d, heads, n, size, n, b, heads[b]);
  }

  // ----- Compaction -----

  /** Slots `..i` of `orig` have been packed without gaps into slots `..j` of `d`, in order and with rebuilt chains. */
  ghost predicate Packed<K(!new), V>(keys: Keys<K>, orig: seq<Entry<K, V>>, d: seq<Entry<K, V>>, heads: seq<nat>,
                                     i: nat, j: nat, size: nat)
  {
    && IsPow2(size) && size <= 0x8000_0000
    && j <= i <= |orig| && |orig| <= |d| == size && |heads| == 2 * size
    && (forall x :: 0 <= x < j ==> d[x].kv.Some?)
    && HashesOk(keys, d, j)
    && Pairs(d[..j]) == Pairs(orig[..i])
    && Linked(d, heads, j, size)
  }

  /** In-place packing has not touched the slots from `i` on. */
  ghost predicate Unread<K, V>(orig: seq<Entry<K, V>>, d: seq<Entry<K, V>>, i: nat) {
    |orig| <= |d| && forall x :: i <= x < |orig| ==> d[x] == orig[x]
  }

  lemma PackStart<K(!new), V>(keys: Keys<K>, orig: seq<Entry<K, V>>, d: seq<Entry<K, V>>, heads: seq<nat>, size: nat)
    requires IsPow2(size) && size <= 0x8000_0000
    requires |orig| <= |d| == size
    requires |heads| == 2 * size && forall b :: 0 <= b < |heads| ==> heads[b] == INVALID_INDEX
    ensures Packed(keys, orig, d, heads, 0, 0, size)
  {
  }

  lemma PackDead<K(!new), V>(keys: Keys<K>, orig: seq<Entry<K, V>>, d: seq<Entry<K, V>>, heads: seq<nat>,
                             i: nat, j: nat, size: nat)
    requires i < |orig| && Packed(keys, orig, d, heads, i, j, size)
    requires orig[i].kv.None?
    ensures Packed(keys, orig, d, heads, i + 1, j, size)
  {
    PairsExtend(orig, i);
  }

  lemma PackLive<K(!new), V>(keys: Keys<K>, orig: seq<Entry<K, V>>, d: seq<Entry<K, V>>, heads: seq<nat>,
                             i: nat, j: nat, size: nat)
    requires i < |orig| && Packed(keys, orig, d, heads, i, j, size)
    requires orig[i].kv.Some? && HashesOk(keys, orig, |orig|)
    ensures orig[i].h < U32_LIMIT
    ensures var b := Head(orig[i].h, size);
            Packed(keys, orig, d[j := orig[i].(next := heads[b])], heads[b := j], i + 1, j + 1, size)
  {
    hide Linked, Head, Pairs, IsPow2;
    var b := Head(orig[i].h, size);
    var e := orig[i].(next := heads[b]);
    PackLinks(d, heads, j, size, e);
    PairsExtend(orig, i);
    PairsStore(d, j, e);
  }

  lemma PairsStore<K, V>(d: seq<Entry<K, V>>, j: nat, e: Entry<K, V>)
    requires j < |d|
    ensures Pairs(d[j := e][..j + 1]) == Pairs(d[..j]) + One(e)
  {
    assert d[j := e][..j + 1] == d[..j] + [e];
    PairsAppend(d[..j], e);
  }

  lemma PackLinks<K, V>(d: seq<Entry<K, V>>, heads: seq<nat>, j: nat, size: nat, e: Entry<K, V>)
    requires IsPow2(size) && size <= 0x8000_0000
    requires j < |d| == size && Linked(d, heads, j, size)
    requires e.kv.Some? && e.h < U32_LIMIT && e.next == heads[Head(e.h, size)]
    ensures Linked(d[j := e], heads[Head(e.h, size) := j], j + 1, size)
  {
  }

  lemma PackDone<K(!new), V>(keys: Keys<K>, orig: seq<Entry<K, V>>, d: seq<Entry<K, V>>, heads: seq<nat>,
                             j: nat, size: nat)
    requires Packed(keys, orig, d, heads, |orig|, j, size)
    ensures Pairs(d[..j]) == Pairs(orig) && j == |Pairs(orig)|
  {
    assert orig[..|orig|] == orig;
    PairsBound(d[..j]);
  }

  // ----- The whole table as a value -----

  const MIN_CAPACITY: nat := 8

  datatype Table<+K, +V> = Table(d: seq<Entry<K, V>>, heads: seq<nat>, used: nat, first: nat, count: nat)

  /** No live slot outside the window, and live slots at both of its ends. */
  ghost predicate WindowIsTight<K, V>(d: seq<Entry<K, V>>, first: nat, used: nat)
    requires used <= |d|
  {
    && first <= used
    && (forall i :: 0 <= i < first ==> d[i].kv.None?)
    && (first < used ==> d[first].kv.Some? && d[used - 1].kv.Some?)
    && (first == used ==> used == 0)
  }

  ghost predicate WellSized<K, V>(t: Table<K, V>) {
    && |t.heads| == 2 * |t.d|
    && (|t.d| > 0 ==> IsPow2(|t.d|) && MIN_CAPACITY <= |t.d|)
    && |t.d| <= 0x4000_0000
    && t.used <= |t.d|
  }

  ghost function View<K, V>(t: Table<K, V>): seq<Pair<K, V>>
    requires t.used <= |t.d|
  {
    Pairs(t.d[..t.used])
  }

  ghost predicate Ok<K(!new), V>(keys: Keys<K>, t: Table<K, V>) {
    && WellSized(t)
    && WindowIsTight(t.d, t.first, t.used)
    && HashesOk(keys, t.d, t.used)
    && t.count == |View(t)|
    && Distinct(keys, View(t))
    && (|t.d| > 0 ==> Linked(t.d, t.heads, t.used, |t.d|))
  }

  lemma EmptyTable<K(!new), V>(keys: Keys<K>, t: Table<K, V>)
    requires |t.d| == |t.heads| == t.used == t.first == t.count == 0 || (Ok(keys, t) && |t.d| == 0)
    ensures Ok(keys, t) && View(t) == []
  {
  }

  lemma NothingUsed<K(!new), V>(keys: Keys<K>, t: Table<K, V>)
    requires Ok(keys, t) && |t.d| == 0
    ensures t.used == t.count == 0
  {
  }

  /** Replacing the value of a live slot. */
  lemma OverwriteOk<K(!new), V>(keys: Keys<K>, t: Table<K, V>, idx: nat, value: V, t': Table<K, V>)
    requires Ok(keys, t) && idx < t.used && t.d[idx].kv.Some?
    requires t' == t.(d := t.d[idx := t.d[idx].(kv := Some(Pair(t.d[idx].kv.value.key, value)))])
    ensures Ok(keys, t')
    ensures var r := Rank(t.d[..t.used], idx);
            r < |View(t)| && View(t') == View(t)[r := Pair(View(t)[r].key, value)]
  {
    hide Linked, Pairs, IsPow2;
    LinkedSameShape(t.d, t'.d, t.heads, t.used, |t.d|);
    OverwriteView(t.d[..t.used], idx, value);
    assert t'.d[..t.used] == t.d[..t.used][idx := t'.d[idx]];
  }

  lemma OverwriteView<K, V>(d: seq<Entry<K, V>>, idx: nat, value: V)
    requires idx < |d| && d[idx].kv.Some?
    ensures var r, e := Rank(d, idx), d[idx].(kv := Some(Pair(d[idx].kv.value.key, value)));
            r < |Pairs(d)| && Pairs(d[idx := e]) == Pairs(d)[r := Pair(Pairs(d)[r].key, value)]
  {
    var e := d[idx].(kv := Some(Pair(d[idx].kv.value.key, value)));
    var d' := d[idx := e];
    PairsSplit(d, idx);
    PairsSplit(d', idx);
    assert d'[..idx] == d[..idx] && d'[idx + 1..] == d[idx + 1..];
    SpliceOne(Pairs(d[..idx]), d[idx].kv.value, e.kv.value, Pairs(d[idx + 1..]));
  }

  lemma SpliceOne<T>(a: seq<T>, x: T, y: T, b: seq<T>)
    ensures (a + [x] + b)[|a|] == x
    ensures (a + [x] + b)[|a| := y] == a + [y] + b
  {
  }

  /** Filling the first unused slot with a key that is not there yet. */
  lemma AppendOk<K(!new), V>(keys: Keys<K>, t: Table<K, V>, key: K, value: V, t': Table<K, V>)
    requires keys.Lawful()
    requires Ok(keys, t) && t.used < |t.d| && !Has(keys, View(t), key)
    requires var h := keys.hash(key);
             var b := Head(h, |t.d|);
             var e := Entry(Some(Pair(key, value)), h, t.heads[b]);
             t' == Table(t.d[t.used := e], t.heads[b := t.used], t.used + 1, t.first, t.count + 1)
    ensures Ok(keys, t') && View(t') == View(t) + [Pair(key, value)]
  {
    hide Linked, Head, Pairs, Distinct, IsPow2, Has;
    var n, e := t.used, t'.d[t.used];
    LinkedFrame(t.d, t'.d, t.heads, n, |t.d|);
    LinkNext(t'.d, t.heads, n, |t.d|);
    PairsStore(t.d, n, e);
    AppendDistinct(keys, View(t), key, value);
  }

  lemma AppendDistinct<K(!new), V>(keys: Keys<K>, m: seq<Pair<K, V>>, key: K, value: V)
    requires keys.Lawful() && Distinct(keys, m) && !Has(keys, m, key)
    ensures Distinct(keys, m + [Pair(key, value)])
  {
  }

  /** A full pack of the used slots is the same map in a gapless table. */
  lemma PackedOk<K(!new), V>(keys: Keys<K>, t: Table<K, V>, t': Table<K, V>)
    requires Ok(keys, t) && WellSized(t') && |t'.d| > 0
    requires Packed(keys, t.d[..t.used], t'.d, t'.heads, t.used, t'.used, |t'.d|)
    requires t'.first == 0 && t'.count == t.count
    ensures Ok(keys, t') && View(t') == View(t) && t'.used == t'.count
    ensures forall i :: 0 <= i < t'.used ==> t'.d[i].kv.Some?
  {
    hide Linked, IsPow2, Pairs, Distinct;
    PackDone(keys, t.d[..t.used], t'.d, t'.heads, t'.used, |t'.d|);
  }

  lemma UsedHashesOk<K(!new), V>(keys: Keys<K>, t: Table<K, V>)
    requires Ok(keys, t)
    ensures HashesOk(keys, t.d[..t.used], t.used)
  {
  }

  /** What in-place compaction starts from: cleared heads, and a gap in slot 0 only before the first used slot. */
  lemma CompactionStarts<K(!new), V>(keys: Keys<K>, t: Table<K, V>, heads: seq<nat>)
    requires Ok(keys, t) && t.used > 0
    requires |heads| == |t.heads| && forall b :: 0 <= b < |heads| ==> heads[b] == INVALID_INDEX
    ensures var orig := t.d[..t.used];
            && Packed(keys, orig, t.d, heads, 0, 0, |t.d|)
            && Unread(orig, t.d, 0)
            && WellSized(t) && HashesOk(keys, orig, |orig|)
            && (orig[0].kv.None? ==> 0 < t.first < |orig| && forall x :: 0 <= x < t.first ==> orig[x].kv.None?)
  {
  }

  // ----- Removal -----

  /** Every head and every live link that pointed at `idx` now points past it; nothing else changed. */
  ghost predicate Unlinked<K, V>(t: Table<K, V>, d: seq<Entry<K, V>>, heads: seq<nat>, idx: nat)
    requires t.used <= |t.d| && idx < t.used
  {
    && |d| == |t.d| && |heads| == |t.heads|
    && (forall i :: 0 <= i < |d| ==> d[i].kv == t.d[i].kv && d[i].h == t.d[i].h)
    && (forall i :: 0 <= i < t.used && i != idx && t.d[i].kv.Some? ==> d[i].next == Bypass(t.d, idx, t.d[i].next))
    && (forall b :: 0 <= b < |heads| ==> heads[b] == Bypass(t.d, idx, t.heads[b]))
  }

  lemma UnlinkedAtHead<K(!new), V>(keys: Keys<K>, t: Table<K, V>, idx: nat, b: nat)
    requires Ok(keys, t) && idx < t.used && t.d[idx].kv.Some? && t.d[idx].h < U32_LIMIT
    requires b == Head(t.d[idx].h, |t.d|) && t.heads[b] == idx
    ensures Unlinked(t, t.d, t.heads[b := t.d[idx].next], idx)
  {
  }

  lemma UnlinkedAfter<K(!new), V>(keys: Keys<K>, t: Table<K, V>, idx: nat, p: nat)
    requires Ok(keys, t) && idx < t.used && t.d[idx].kv.Some?
    requires p < t.used && t.d[p].kv.Some? && t.d[p].next == idx
    ensures Unlinked(t, t.d[p := t.d[p].(next := t.d[idx].next)], t.heads, idx)
  {
    hide Linked, Head, IsPow2, Pairs, Distinct, HashesOk, WindowIsTight, OnChain;
    OneHolder(t.d, t.heads, t.used, |t.d|, idx);
  }

  /** Following a chain from a slot above `idx` on the same chain never skips `idx`. */
  lemma ChainReaches<K(!new), V>(keys: Keys<K>, t: Table<K, V>, idx: nat, b: nat, hi: nat, r: nat)
    requires Ok(keys, t) && idx < hi <= t.used && OnChain(t.d[idx], b, |t.d|) && b < 2 * |t.d|
    requires (hi == t.used && r == t.heads[b]) || (hi < t.used && OnChain(t.d[hi], b, |t.d|) && r == t.d[hi].next)
    ensures idx <= r < hi && OnChain(t.d[r], b, |t.d|)
  {
  }

  /** The end of the window after slot `idx` is removed: pulled in over trailing gaps. */
  ghost predicate EndPulledIn<K, V>(t: Table<K, V>, idx: nat, used: nat)
    requires t.used <= |t.d| && idx < t.used
  {
    if idx == t.used - 1 then
      && used <= idx
      && (forall i :: used <= i < idx ==> t.d[i].kv.None?)
      && (used > 0 ==> t.d[used - 1].kv.Some?)
    else used == t.used
  }

  /** The start of the window after slot `idx` is removed: pushed over leading gaps. */
  ghost predicate StartPushedOn<K, V>(t: Table<K, V>, idx: nat, used: nat, first: nat)
    requires used <= t.used <= |t.d| && idx < t.used
  {
    if idx == t.first then
      if t.count == 1 then first == 0
      else
        && idx < first < used
        && (forall i :: idx < i < first ==> t.d[i].kv.None?)
        && t.d[first].kv.Some?
    else first == t.first
  }

  lemma EndStays<K, V>(t: Table<K, V>, idx: nat)
    requires t.used <= |t.d| && idx < t.used - 1
    ensures EndPulledIn(t, idx, t.used)
  {
  }

  lemma StartStays<K, V>(t: Table<K, V>, idx: nat, used: nat)
    requires used <= t.used <= |t.d| && idx < t.used && idx != t.first
    ensures StartPushedOn(t, idx, used, t.first)
  {
  }

  lemma RemoveOk<K(!new), V>(keys: Keys<K>, t: Table<K, V>, idx: nat, d: seq<Entry<K, V>>, t': Table<K, V>)
    requires Ok(keys, t) && idx < t.used && t.d[idx].kv.Some?
    requires Unlinked(t, d, t'.heads, idx)
    requires t'.d == d[idx := Kill(d[idx])] && t'.count == t.count - 1
    requires t'.used <= t.used && EndPulledIn(t, idx, t'.used)
    requires StartPushedOn(t, idx, t'.used, t'.first)
    ensures Ok(keys, t')
    ensures var r := Rank(t.d[..t.used], idx);
            r < |View(t)| && View(t') == View(t)[..r] + View(t)[r + 1..]
  {
    hide Linked, Pairs, Distinct, IsPow2, EndPulledIn, StartPushedOn, WindowIsTight, Rank;
    RemoveView(t, idx, t'.d, t'.used);
    RemoveWindow(keys, t, idx, t'.d, t'.used, t'.first);
    UnlinkKeepsChains(t.d, t.heads, t.used, |t.d|, idx, t'.d, t'.heads, t'.used);
    RemoveDistinct(keys, View(t), Rank(t.d[..t.used], idx));
  }

  lemma RemoveDistinct<K(!new), V>(keys: Keys<K>, m: seq<Pair<K, V>>, r: nat)
    requires Distinct(keys, m) && r < |m|
    ensures Distinct(keys, m[..r] + m[r + 1..])
  {
  }

  lemma RemoveView<K, V>(t: Table<K, V>, idx: nat, d': seq<Entry<K, V>>, used: nat)
    requires idx < t.used <= |t.d| == |d'| && t.d[idx].kv.Some? && d'[idx].kv.None?
    requires forall i :: 0 <= i < |d'| && i != idx ==> d'[i].kv == t.d[i].kv
    requires used <= t.used && EndPulledIn(t, idx, used)
    ensures var r := Rank(t.d[..t.used], idx);
            r < |View(t)| && Pairs(d'[..used]) == View(t)[..r] + View(t)[r + 1..]
    ensures forall i :: used <= i < t.used ==> d'[i].kv.None?
  {
    hide Pairs;
    var n := t.used;
    assert d'[..n] == d'[..used] + d'[used..n];
    PairsConcat(d'[..used], d'[used..n]);
    PairsOfDead(d'[used..n]);
    PairsSplit(t.d[..n], idx);
    PairsSplit(d'[..n], idx);
    PairsOfSameKv(t.d[..n][..idx], d'[..n][..idx]);
    PairsOfSameKv(t.d[..n][idx + 1..], d'[..n][idx + 1..]);
    assert t.d[..n][..idx] == t.d[..idx] && d'[..n][..idx] == d'[..idx];
    var a, b := Pairs(t.d[..n][..idx]), Pairs(t.d[..n][idx + 1..]);
    assert View(t) == a + [t.d[idx].kv.value] + b;
    assert Pairs(d'[..n]) == a + [] + b == a + b;
    DropMiddle(a, t.d[idx].kv.value, b);
  }

  lemma DropMiddle<T>(a: seq<T>, x: T, b: seq<T>)
    ensures (a + [x] + b)[..|a|] + (a + [x] + b)[|a| + 1..] == a + b
  {
  }

  lemma RemoveWindow<K(!new), V>(keys: Keys<K>, t: Table<K, V>, idx: nat, d': seq<Entry<K, V>>, used: nat, first: nat)
    requires Ok(keys, t) && idx < t.used && t.d[idx].kv.Some?
    requires |d'| == |t.d| && d'[idx].kv.None?
    requires forall i :: 0 <= i < |d'| && i != idx ==> d'[i].kv == t.d[i].kv
    requires used <= t.used && EndPulledIn(t, idx, used) && StartPushedOn(t, idx, used, first)
    ensures WindowIsTight(d', first, used)
  {
    hide Linked, HashesOk, Distinct, IsPow2;
    if t.count == 1 {
      OneLiveSlot(t, idx);
    }
  }

  /** With one element, both ends of a tight window are that element. */
  lemma OneLiveSlot<K, V>(t: Table<K, V>, idx: nat)
    requires t.used <= |t.d| && idx < t.used && WindowIsTight(t.d, t.first, t.used) && |View(t)| == 1
    requires t.d[idx].kv.Some?
    ensures idx == t.first == t.used - 1
  {
    hide Pairs, Rank;
    var d := t.d[..t.used];
    RankOfLive(d, t.first);
    RankOfLive(d, idx);
    RankOfLive(d, t.used - 1);
    if idx > t.first {
      RankIsStrict(d, t.first, idx);
    }
    if idx < t.used - 1 {
      RankIsStrict(d, idx, t.used - 1);
    }
  }

  /** With another element left, a live slot remains on the far side of a removed end. */
  lemma AnotherLiveSlot<K, V>(t: Table<K, V>, idx: nat)
    requires t.used <= |t.d| && idx < t.used && WindowIsTight(t.d, t.first, t.used) && |View(t)| != 1
    requires t.d[idx].kv.Some?
    ensures t.first < t.used - 1
  {
    var d := t.d[..t.used];
    if t.first == t.used - 1 {
      assert d == d[..t.first] + [d[t.first]];
      PairsAppend(d[..t.first], d[t.first]);
      PairsOfDead(d[..t.first]);
    }
  }
}
