/**
 Teds\ImmutableSortedStringSet: a sorted set of byte strings kept in its serialized form, a count followed by
 length-prefixed strings, together with the place of each string in it.
 */
module StringSets {
  import opened Wrappers
  import opened ByteStrings
  import opened SerializeUtil
  import opened Deduplication
  import opened Sorting

  datatype Info = Info(offset: nat, length: nat)

  /** The backing bytes and one place for each string; the empty set has no bytes. */
  datatype StringSet = StringSet(raw: Bytes, infos: seq<Info>)

  const EMPTY: StringSet := StringSet([], [])

  predicate InBounds(raw: Bytes, info: Info) {
    info.offset + info.length <= |raw|
  }

  function StringAt(raw: Bytes, info: Info): Bytes
    requires InBounds(raw, info)
  {
    raw[info.offset..info.offset + info.length]
  }

  function Strings(raw: Bytes, infos: seq<Info>): (s: seq<Bytes>)
    requires forall i :: 0 <= i < |infos| ==> InBounds(raw, infos[i])
    ensures |s| == |infos| && forall i :: 0 <= i < |s| ==> s[i] == StringAt(raw, infos[i])
  {
    seq(|infos|, i requires 0 <= i < |infos| => StringAt(raw, infos[i]))
  }

  ghost predicate Ascending(s: seq<Bytes>) {
    forall i, j :: 0 <= i < j < |s| ==> BinaryStrcmp(s[i], s[j]) <= 0
  }

  ghost predicate StrictlyAscending(s: seq<Bytes>) {
    forall i, j :: 0 <= i < j < |s| ==> BinaryStrcmp(s[i], s[j]) < 0
  }

  // ----- The format -----

  /** Where record `i` starts. */
  function StartOf(infos: seq<Info>, i: nat): nat
    requires i <= |infos|
  {
    if i == 0 then 4 else infos[i - 1].offset + infos[i - 1].length
  }

  /** Record `i` is a size followed by that many bytes, and its string follows the one before. */
  ghost predicate RecordAt(raw: Bytes, infos: seq<Info>, i: nat)
    requires i < |infos|
  {
    && StartOf(infos, i) <= |raw|
    && ReadSize(raw, StartOf(infos, i)) == Ok(Sized(infos[i].length, infos[i].offset))
    && InBounds(raw, infos[i])
    && (i > 0 ==> InBounds(raw, infos[i - 1]) && BinaryStrcmp(StringAt(raw, infos[i]), StringAt(raw, infos[i - 1])) > 0)
  }

  /** The records tile the input after the count, which says how many there are. */
  ghost predicate WellFormed(raw: Bytes, infos: seq<Info>) {
    && 4 < |raw| <= 0xFFFF_FFFF
    && |infos| == ReadUint32(raw, 0)
    && (forall i :: 0 <= i < |infos| ==> RecordAt(raw, infos, i))
    && StartOf(infos, |infos|) == |raw|
  }

  /** Without strings the backing bytes do not matter. */
  ghost predicate Valid(s: StringSet) {
    s.infos == [] || WellFormed(s.raw, s.infos)
  }

  /** The backing bytes, or nothing for the empty set. */
  function Serialize(s: StringSet): Bytes {
    if s.infos == [] then [] else s.raw
  }

  // ----- Parsing -----

  /**
   Where and why a parse stops: after the count, or after the last record, in the size of the next string, at
   the end of the input, or at a string that does not ascend.
   */
  ghost predicate StopsAt(raw: Bytes, infos: seq<Info>, error: Error) {
    && |raw| >= 4 && |infos| <= ReadUint32(raw, 0) && (forall i :: 0 <= i < |infos| ==> RecordAt(raw, infos, i))
    && var at := StartOf(infos, |infos|);
       && at <= |raw|
       && if |infos| == ReadUint32(raw, 0) then at != |raw| && error == MoreThanUsed
          else
            match ReadSize(raw, at)
            case Err(e) => error == e
            case Ok(sized) =>
              if sized.size > |raw| - sized.next then error == NotEnoughData
              else
                && error == NotSorted && infos != []
                && BinaryStrcmp(StringAt(raw, Info(sized.next, sized.size)), StringAt(raw, infos[|infos| - 1])) <= 0
  }

  /** The error that the parser reports. */
  ghost predicate FailsWith(raw: Bytes, error: Error) {
    if |raw| <= 4 then error == MissingHeader
    else if |raw| > 0xFFFF_FFFF then error == TooMuchData
    else if ReadUint32(raw, 0) > |raw| - 4 then error == NotEnoughData
    else exists infos :: StopsAt(raw, infos, error)
  }

  method Unserialize(str: Bytes) returns (r: Result<StringSet>)
    ensures r.Ok? ==> r.value.raw == str && if str == [] then r.value.infos == [] else WellFormed(str, r.value.infos)
    ensures r.Err? ==> str != [] && FailsWith(str, r.error) && forall ws :: !WellFormed(str, ws)
  {
    if |str| == 0 {
      return Ok(EMPTY);
    }
    r := UnserializeNonempty(str);
  }

  method UnserializeNonempty(str: Bytes) returns (r: Result<StringSet>)
    ensures r.Ok? ==> r.value.raw == str && WellFormed(str, r.value.infos)
    ensures r.Err? ==> FailsWith(str, r.error) && forall ws :: !WellFormed(str, ws)
  {
    if |str| <= 4 {
      return Err(MissingHeader);
    }
    if |str| > UINT32_MAX {
      return Err(TooMuchData);
    }
    var numStrings := ReadUint32(str, 0);
    var it: nat := 4;
    if numStrings > |str| - it {
      CountFits(str);
      return Err(NotEnoughData);
    }
    var infos: seq<Info> := [];
    hide FailsWith, ReadSize, ReadUint32, BinaryStrcmp;
    for i := 0 to numStrings
      invariant |infos| == i && it == StartOf(infos, i) <= |str|
      invariant forall j :: 0 <= j < i ==> RecordAt(str, infos, j)
      invariant forall ws :: WellFormed(str, ws) ==> ws[..i] == infos
    {
      var sized := ReadSize(str, it);
      OnlyReading(str, infos, sized);
      StopsHere(str, infos, sized);
      if sized.Err? {
        return Err(sized.error);
      }
      var length := sized.value.size;
      it := sized.value.next;
      if length > |str| - it {
        return Err(NotEnoughData);
      }
      var info := Info(it, length);
      if i > 0 {
        var cmp := BinaryStrcmp(StringAt(str, info), StringAt(str, infos[i - 1]));
        MustAscend(str, infos, info);
        if cmp <= 0 {
          return Err(NotSorted);
        }
      }
      ExtendRecords(str, infos, info);
      infos := infos + [info];
      it := it + length;
    }
    MustEnd(str, infos);
    if it != |str| {
      StopsAtEnd(str, infos);
      return Err(MoreThanUsed);
    }
    return Ok(StringSet(str, infos));
  }

  /** Each way to stop before the last record is the reported one. */
  lemma StopsHere(raw: Bytes, infos: seq<Info>, sized: Result<Sized>)
    requires 4 < |raw| <= UINT32_MAX && ReadUint32(raw, 0) <= |raw| - 4
    requires |infos| < ReadUint32(raw, 0) && (forall i :: 0 <= i < |infos| ==> RecordAt(raw, infos, i))
    requires StartOf(infos, |infos|) <= |raw| && sized == ReadSize(raw, StartOf(infos, |infos|))
    ensures sized.Err? ==> FailsWith(raw, sized.error)
    ensures sized.Ok? && sized.value.size > |raw| - sized.value.next ==> FailsWith(raw, NotEnoughData)
    ensures sized.Ok? && sized.value.size <= |raw| - sized.value.next && infos != [] ==>
              InBounds(raw, infos[|infos| - 1]) &&
              var info := Info(sized.value.next, sized.value.size);
              BinaryStrcmp(StringAt(raw, info), StringAt(raw, infos[|infos| - 1])) <= 0 ==> FailsWith(raw, NotSorted)
  {
    assert infos != [] ==> RecordAt(raw, infos, |infos| - 1);
    hide RecordAt, ReadSize, ReadUint32, BinaryStrcmp;
    assert sized.Err? ==> StopsAt(raw, infos, sized.error);
    assert sized.Ok? && sized.value.size > |raw| - sized.value.next ==> StopsAt(raw, infos, NotEnoughData);
    if sized.Ok? && sized.value.size <= |raw| - sized.value.next && infos != [] {
      var info := Info(sized.value.next, sized.value.size);
      assert BinaryStrcmp(StringAt(raw, info), StringAt(raw, infos[|infos| - 1])) <= 0 ==>
               StopsAt(raw, infos, NotSorted);
    }
  }

  lemma StopsAtEnd(raw: Bytes, infos: seq<Info>)
    requires 4 < |raw| <= UINT32_MAX && |infos| == ReadUint32(raw, 0) <= |raw| - 4
    requires forall i :: 0 <= i < |infos| ==> RecordAt(raw, infos, i)
    requires StartOf(infos, |infos|) < |raw|
    ensures FailsWith(raw, MoreThanUsed)
  {
    assert StopsAt(raw, infos, MoreThanUsed);
  }

  lemma RecordsAdvance(raw: Bytes, ws: seq<Info>, i: nat)
    requires i <= |ws| && forall j :: 0 <= j < |ws| ==> RecordAt(raw, ws, j)
    ensures StartOf(ws, i) >= 4 + i
  {
    if i > 0 {
      RecordsAdvance(raw, ws, i - 1);
      assert RecordAt(raw, ws, i - 1);
    }
  }

  /** Every record takes a byte, so the early test of the count refuses nothing that would be accepted. */
  lemma CountFits(raw: Bytes)
    requires |raw| >= 4
    ensures forall ws :: WellFormed(raw, ws) ==> ReadUint32(raw, 0) <= |raw| - 4
  {
    forall ws | WellFormed(raw, ws)
      ensures ReadUint32(raw, 0) <= |raw| - 4
    {
      RecordsAdvance(raw, ws, |ws|);
    }
  }

  /** The next record of any well-formed reading that agrees so far is the one read here. */
  lemma OnlyReading(raw: Bytes, infos: seq<Info>, sized: Result<Sized>)
    requires |raw| >= 4 && StartOf(infos, |infos|) <= |raw| && sized == ReadSize(raw, StartOf(infos, |infos|))
    requires |infos| < ReadUint32(raw, 0)
    requires forall ws :: WellFormed(raw, ws) ==> ws[..|infos|] == infos
    ensures forall ws :: WellFormed(raw, ws) ==> sized.Ok? && sized.value.next + sized.value.size <= |raw| &&
                                                 ws[..|infos| + 1] == infos + [Info(sized.value.next, sized.value.size)]
  {
    var n := |infos|;
    forall ws | WellFormed(raw, ws)
      ensures sized.Ok? && sized.value.next + sized.value.size <= |raw|
      ensures ws[..n + 1] == infos + [Info(sized.value.next, sized.value.size)]
    {
      assert RecordAt(raw, ws, n);
      assert ws[..n] == infos;
      if n > 0 {
        assert ws[n - 1] == ws[..n][n - 1];
      }
    }
  }

  lemma MustAscend(raw: Bytes, infos: seq<Info>, info: Info)
    requires |raw| >= 4 && 0 < |infos| < ReadUint32(raw, 0) && InBounds(raw, info) && InBounds(raw, infos[|infos| - 1])
    requires forall ws :: WellFormed(raw, ws) ==> ws[..|infos| + 1] == infos + [info]
    ensures forall ws :: WellFormed(raw, ws) ==>
              BinaryStrcmp(StringAt(raw, info), StringAt(raw, infos[|infos| - 1])) > 0
  {
    var n := |infos|;
    forall ws | WellFormed(raw, ws)
      ensures BinaryStrcmp(StringAt(raw, info), StringAt(raw, infos[|infos| - 1])) > 0
    {
      assert RecordAt(raw, ws, n);
      assert ws[n] == ws[..n + 1][n] && ws[n - 1] == ws[..n + 1][n - 1];
    }
  }

  lemma MustEnd(raw: Bytes, infos: seq<Info>)
    requires |raw| >= 4 && |infos| == ReadUint32(raw, 0)
    requires forall ws :: WellFormed(raw, ws) ==> ws[..|infos|] == infos
    ensures forall ws :: WellFormed(raw, ws) ==> StartOf(infos, |infos|) == |raw|
  {
  }

  lemma ExtendRecords(raw: Bytes, infos: seq<Info>, info: Info)
    requires StartOf(infos, |infos|) <= |raw|
    requires forall j :: 0 <= j < |infos| ==> RecordAt(raw, infos, j)
    requires ReadSize(raw, StartOf(infos, |infos|)) == Ok(Sized(info.length, info.offset)) && InBounds(raw, info)
    requires |infos| > 0 ==> InBounds(raw, infos[|infos| - 1]) &&
                             BinaryStrcmp(StringAt(raw, info), StringAt(raw, infos[|infos| - 1])) > 0
    ensures forall j :: 0 <= j <= |infos| ==> RecordAt(raw, infos + [info], j)
    ensures StartOf(infos + [info], |infos| + 1) == info.offset + info.length
  {
    forall j | 0 <= j <= |infos|
      ensures RecordAt(raw, infos + [info], j)
    {
      assert j < |infos| ==> RecordAt(raw, infos, j);
    }
  }

  /** There is at most one way to read the bytes. */
  lemma {:induction false} ReadingIsUnique(raw: Bytes, vs: seq<Info>, ws: seq<Info>, n: nat)
    requires WellFormed(raw, vs) && WellFormed(raw, ws) && n <= |vs| == |ws|
    ensures vs[..n] == ws[..n]
  {
    if n > 0 {
      ReadingIsUnique(raw, vs, ws, n - 1);
      NextRecord(raw, vs, ws, n - 1);
      hide *;
      assert vs[..n] == vs[..n - 1] + [vs[n - 1]] && ws[..n] == ws[..n - 1] + [ws[n - 1]];
    }
  }

  /** Readings that agree so far agree on the next record. */
  lemma NextRecord(raw: Bytes, vs: seq<Info>, ws: seq<Info>, n: nat)
    requires WellFormed(raw, vs) && WellFormed(raw, ws) && n < |vs| && vs[..n] == ws[..n]
    ensures |ws| == |vs| && vs[n] == ws[n]
  {
    assert RecordAt(raw, vs, n) && RecordAt(raw, ws, n);
    assert n > 0 ==> vs[n - 1] == vs[..n][n - 1] && ws[n - 1] == ws[..n][n - 1];
  }

  lemma RecordsInBounds(raw: Bytes, ws: seq<Info>)
    requires WellFormed(raw, ws)
    ensures forall i :: 0 <= i < |ws| ==> InBounds(raw, ws[i])
  {
    forall i | 0 <= i < |ws|
      ensures InBounds(raw, ws[i])
    {
      assert RecordAt(raw, ws, i);
    }
  }

  /** What was accepted is a strictly ascending list: neighbours being compared is enough. */
  lemma AcceptedIsAscending(raw: Bytes, ws: seq<Info>)
    requires WellFormed(raw, ws)
    ensures forall i :: 0 <= i < |ws| ==> InBounds(raw, ws[i])
    ensures StrictlyAscending(Strings(raw, ws))
  {
    RecordsInBounds(raw, ws);
    var s := Strings(raw, ws);
    forall i | 0 < i < |s|
      ensures BinaryStrcmp(s[i - 1], s[i]) < 0
    {
      assert RecordAt(raw, ws, i);
      StrcmpAntisymmetric(s[i - 1], s[i]);
    }
    NeighboursSuffice(s);
  }

  lemma NeighboursSuffice(s: seq<Bytes>)
    requires forall i :: 0 < i < |s| ==> BinaryStrcmp(s[i - 1], s[i]) < 0
    ensures StrictlyAscending(s)
  {
    forall i, j | 0 <= i < j < |s|
      ensures BinaryStrcmp(s[i], s[j]) < 0
    {
      NeighboursChain(s, i, j);
    }
  }

  lemma {:induction false} NeighboursChain(s: seq<Bytes>, i: nat, j: nat)
    requires i < j < |s| && forall i :: 0 < i < |s| ==> BinaryStrcmp(s[i - 1], s[i]) < 0
    ensures BinaryStrcmp(s[i], s[j]) < 0
  {
    if i < j - 1 {
      NeighboursChain(s, i, j - 1);
      StrcmpTransitive(s[i], s[j - 1], s[j]);
    }
  }

  // ----- Building -----

  /** The records of the strings one after the other. */
  function Body(us: seq<Bytes>): Bytes {
    if us == [] then [] else Body(us[..|us| - 1]) + SizeBytes(|us[|us| - 1]|) + us[|us| - 1]
  }

  /** Where each string ends up. */
  function InfosOf(us: seq<Bytes>): (infos: seq<Info>)
    ensures |infos| == |us|
  {
    if us == [] then []
    else
      var last := us[|us| - 1];
      InfosOf(us[..|us| - 1]) + [Info(4 + |Body(us[..|us| - 1])| + |SizeBytes(|last|)|, |last|)]
  }

  function Raw(us: seq<Bytes>): Bytes {
    Uint32Bytes(|us|) + Body(us)
  }

  /** What the library's sort leaves. */
  function SortedStrings(values: seq<Bytes>): seq<Bytes> {
    Sorted((a: Bytes, b: Bytes) => BinaryStrcmp(a, b) <= 0, values)
  }

  lemma SortedStringsAscend(values: seq<Bytes>)
    ensures Ascending(SortedStrings(values))
    ensures forall x :: x in SortedStrings(values) <==> x in values
  {
    var le := (a: Bytes, b: Bytes) => BinaryStrcmp(a, b) <= 0;
    StringsAreTotallyOrdered();
    SortedIsOrdered(le, values);
    SortedPermutes(le, values);
    assert forall x :: x in values <==> x in multiset(values);
    assert forall x :: x in SortedStrings(values) <==> x in multiset(SortedStrings(values));
  }

  lemma StringsAreTotallyOrdered()
    ensures TotalOrder((a: Bytes, b: Bytes) => BinaryStrcmp(a, b) <= 0)
  {
    var le := (a: Bytes, b: Bytes) => BinaryStrcmp(a, b) <= 0;
    forall a: Bytes, b: Bytes
      ensures (le(a, b) || le(b, a)) && (le(a, b) && le(b, a) ==> a == b)
    {
      StrcmpAntisymmetric(a, b);
      StrcmpIsDictionaryOrder(a, b);
    }
    forall a: Bytes, b: Bytes, c: Bytes | le(a, b) && le(b, c)
      ensures le(a, c)
    {
      StrcmpTransitive(a, b, c);
    }
  }

  /** The strings of the set built from some values. */
  function UniqueStrings(values: seq<Bytes>): seq<Bytes> {
    Deduplicated(SortedStrings(values))
  }

  /** Sorting and dropping neighbours that are equal gives the same members, each once, in order. */
  lemma UniqueStringsAreTheSet(values: seq<Bytes>)
    ensures StrictlyAscending(UniqueStrings(values))
    ensures forall x :: x in UniqueStrings(values) <==> x in values
  {
    SortedStringsAscend(values);
    DeduplicatedAscends(SortedStrings(values));
    DeduplicatedMembers(SortedStrings(values));
  }

  method InitFromArrayValues(values: seq<Bytes>) returns (r: Result<StringSet>)
    ensures r.Ok? <==> values == [] || |Raw(UniqueStrings(values))| <= 0xFFFF_FFFF
    ensures r.Ok? ==>
              r.value ==
              if values == [] then EMPTY else StringSet(Raw(UniqueStrings(values)), InfosOf(UniqueStrings(values)))
    ensures r.Err? ==> r == Err(TooMuchData)
  {
    if |values| == 0 {
      return Ok(EMPTY);
    }
    r := SortAndDeduplicate(values);
  }

  /** Sorts the strings, then keeps and writes one of each. */
  method SortAndDeduplicate(values: seq<Bytes>) returns (r: Result<StringSet>)
    ensures r == if |Raw(UniqueStrings(values))| > 0xFFFF_FFFF then Err(TooMuchData)
                 else Ok(StringSet(Raw(UniqueStrings(values)), InfosOf(UniqueStrings(values))))
  {
    var sorted := SortedStrings(values);
    r := Deduplicate(sorted);
  }

  /** The loop over the sorted strings. */
  method Deduplicate(sorted: seq<Bytes>) returns (r: Result<StringSet>)
    ensures r == if |Raw(Deduplicated(sorted))| > 0xFFFF_FFFF then Err(TooMuchData)
                 else Ok(StringSet(Raw(Deduplicated(sorted)), InfosOf(Deduplicated(sorted))))
  {
    var sbuf: Bytes := [0, 0, 0, 0];
    var infos: seq<Info> := [];
    var prev: Option<Bytes> := None;
    var numUnique := 0;
    assert Holds(Deduplicated(sorted[..0]), sbuf, infos, prev, numUnique);
    hide *;
    for i := 0 to |sorted|
      invariant Holds(Deduplicated(sorted[..i]), sbuf, infos, prev, numUnique)
    {
      var str := sorted[i];
      KeepOrSkip(sorted, i, sbuf, infos, prev, numUnique);
      if prev.Some? && str == prev.value {
        continue;
      }
      sbuf := sbuf + SizeBytes(|str|);
      infos := infos + [Info(|sbuf|, |str|)];
      numUnique := numUnique + 1;
      sbuf := sbuf + str;
      prev := Some(str);
    }
    assert sorted[..|sorted|] == sorted;
    HeaderWritten(Deduplicated(sorted), sbuf, infos, prev, numUnique);
    if |sbuf| > UINT32_MAX {
      return Err(TooMuchData);
    }
    sbuf := Uint32Bytes(numUnique) + sbuf[4..];
    return Ok(StringSet(sbuf, infos));
  }

  /** The builder's variables once the strings `us` have been kept; the count is still to be written. */
  ghost predicate Holds(us: seq<Bytes>, sbuf: Bytes, infos: seq<Info>, prev: Option<Bytes>, numUnique: nat) {
    && sbuf == [0, 0, 0, 0] + Body(us) && infos == InfosOf(us) && numUnique == |us|
    && prev == if us == [] then None else Some(us[|us| - 1])
  }

  /** One turn of the builder's loop. */
  lemma KeepOrSkip(sorted: seq<Bytes>, i: nat, sbuf: Bytes, infos: seq<Info>, prev: Option<Bytes>, numUnique: nat)
    requires i < |sorted| && Holds(Deduplicated(sorted[..i]), sbuf, infos, prev, numUnique)
    ensures prev == Some(sorted[i]) ==> Holds(Deduplicated(sorted[..i + 1]), sbuf, infos, prev, numUnique)
    ensures prev != Some(sorted[i]) ==>
              var longer := sbuf + SizeBytes(|sorted[i]|);
              Holds(Deduplicated(sorted[..i + 1]), longer + sorted[i],
                    infos + [Info(|longer|, |sorted[i]|)], Some(sorted[i]), numUnique + 1)
  {
    DeduplicatedStep(sorted, i);
    KeepOne(Deduplicated(sorted[..i]), sorted[i], sbuf, infos, prev, numUnique);
    hide SizeBytes, Deduplicated, Body, InfosOf;
  }

  lemma KeepOne(us: seq<Bytes>, str: Bytes, sbuf: Bytes, infos: seq<Info>, prev: Option<Bytes>, numUnique: nat)
    requires Holds(us, sbuf, infos, prev, numUnique)
    ensures var longer := sbuf + SizeBytes(|str|);
            Holds(us + [str], longer + str, infos + [Info(|longer|, |str|)], Some(str), numUnique + 1)
  {
    hide SizeBytes, Body, InfosOf;
    AppendRecord(us, str);
    Regroup([0, 0, 0, 0], Body(us), SizeBytes(|str|), str);
  }

  lemma HeaderWritten(us: seq<Bytes>, sbuf: Bytes, infos: seq<Info>, prev: Option<Bytes>, numUnique: nat)
    requires Holds(us, sbuf, infos, prev, numUnique)
    ensures |sbuf| == |Raw(us)| && infos == InfosOf(us)
    ensures Uint32Bytes(numUnique) + sbuf[4..] == Raw(us)
  {
  }

  lemma RawOf(us: seq<Bytes>)
    ensures Raw(us) == Uint32Bytes(|us|) + Body(us)
  {
  }

  lemma Regroup(a: Bytes, b: Bytes, c: Bytes, d: Bytes)
    ensures a + (b + c + d) == ((a + b) + c) + d
  {
  }

  lemma AppendRecord(us: seq<Bytes>, str: Bytes)
    ensures Body(us + [str]) == Body(us) + SizeBytes(|str|) + str
    ensures InfosOf(us + [str]) == InfosOf(us) + [Info(4 + |Body(us)| + |SizeBytes(|str|)|, |str|)]
  {
    var longer := us + [str];
    assert longer[..|us|] == us && longer[|us|] == str;
    UnfoldBody(longer, us, str);
  }

  lemma UnfoldBody(longer: seq<Bytes>, us: seq<Bytes>, str: Bytes)
    requires |longer| == |us| + 1 && longer[..|us|] == us && longer[|us|] == str
    ensures Body(longer) == Body(us) + SizeBytes(|str|) + str
    ensures InfosOf(longer) == InfosOf(us) + [Info(4 + |Body(us)| + |SizeBytes(|str|)|, |str|)]
  {
    hide SizeBytes;
  }

  lemma {:induction false} DeduplicatedAscends(s: seq<Bytes>)
    requires Ascending(s)
    ensures StrictlyAscending(Deduplicated(s))
  {
    if s != [] {
      var n := |s| - 1;
      var us := Deduplicated(s[..n]);
      DeduplicatedAscends(s[..n]);
      if us != [] && us[|us| - 1] != s[n] {
        assert us[|us| - 1] == s[n - 1];
        assert BinaryStrcmp(s[n - 1], s[n]) <= 0;
        AscendsWithOneMore(us, s[n]);
      }
    }
  }

  lemma AscendsWithOneMore(us: seq<Bytes>, str: Bytes)
    requires us != [] && StrictlyAscending(us)
    requires us[|us| - 1] != str && BinaryStrcmp(us[|us| - 1], str) <= 0
    ensures StrictlyAscending(us + [str])
  {
    var n := |us| - 1;
    StrcmpIsDictionaryOrder(us[n], str);
    forall i | 0 <= i <= n
      ensures BinaryStrcmp(us[i], str) < 0
    {
      if i < n {
        StrcmpTransitive(us[i], us[n], str);
      }
    }
    hide BinaryStrcmp;
  }

  // ----- Parsing what was built -----

  lemma {:induction false} BodyPrefix(us: seq<Bytes>, i: nat)
    requires i <= |us|
    ensures Body(us[..i]) <= Body(us)
  {
    hide SizeBytes;
    if i == |us| {
      assert us[..i] == us;
    } else {
      var n := |us| - 1;
      BodyPrefix(us[..n], i);
      assert us[..n][..i] == us[..i];
      PrefixExtends(Body(us[..i]), Body(us[..n]), SizeBytes(|us[n]|), us[n]);
    }
  }

  lemma PrefixExtends(a: Bytes, b: Bytes, c: Bytes, d: Bytes)
    requires a <= b
    ensures a <= b + c + d
  {
  }

  lemma BodyStep(us: seq<Bytes>, i: nat)
    requires i < |us|
    ensures Body(us[..i + 1]) == Body(us[..i]) + SizeBytes(|us[i]|) + us[i]
  {
    assert us[..i + 1] == us[..i] + [us[i]];
    AppendRecord(us[..i], us[i]);
  }

  lemma {:induction false} InfoAt(us: seq<Bytes>, i: nat)
    requires i < |us|
    ensures InfosOf(us)[i] == Info(4 + |Body(us[..i])| + |SizeBytes(|us[i]|)|, |us[i]|)
  {
    hide Body, SizeBytes;
    var n := |us| - 1;
    if i < n {
      InfoAt(us[..n], i);
      assert us[..n][..i] == us[..i];
    }
  }

  lemma StartOfRecord(us: seq<Bytes>, i: nat)
    requires i <= |us|
    ensures StartOf(InfosOf(us), i) == 4 + |Body(us[..i])|
  {
    if i > 0 {
      InfoAt(us, i - 1);
      BodyStep(us, i - 1);
    }
    hide InfosOf, SizeBytes;
  }

  lemma Slices(head: Bytes, a: Bytes, b: Bytes, c: Bytes, whole: Bytes)
    requires a + b + c <= whole
    ensures var raw, at := head + whole, |head| + |a|;
            at + |b| + |c| <= |raw| && raw[at..at + |b|] == b && raw[at + |b|..at + |b| + |c|] == c
  {
  }

  /** A record is read back from wherever it lies. */
  lemma ReadBack(head: Bytes, before: Bytes, str: Bytes, whole: Bytes)
    requires before + SizeBytes(|str|) + str <= whole && |head| + |whole| <= UINT32_MAX
    ensures var raw, at, info := head + whole, |head| + |before|, Info(|head| + |before| + |SizeBytes(|str|)|, |str|);
            && at <= |raw| && ReadSize(raw, at) == Ok(Sized(info.length, info.offset))
            && InBounds(raw, info) && StringAt(raw, info) == str
  {
    hide SizeBytes, ReadSize;
    Slices(head, before, SizeBytes(|str|), str, whole);
    SizeRoundTrip(head + whole, |head| + |before|, |str|);
  }

  lemma BuiltRecord(us: seq<Bytes>, i: nat)
    requires i < |us| && |Raw(us)| <= UINT32_MAX
    ensures var raw, infos := Raw(us), InfosOf(us);
            && StartOf(infos, i) <= |raw|
            && ReadSize(raw, StartOf(infos, i)) == Ok(Sized(infos[i].length, infos[i].offset))
            && InBounds(raw, infos[i]) && StringAt(raw, infos[i]) == us[i]
  {
    RawOf(us);
    hide *;
    BodyPrefix(us, i + 1);
    BodyStep(us, i);
    InfoAt(us, i);
    StartOfRecord(us, i);
    ReadBack(Uint32Bytes(|us|), Body(us[..i]), us[i], Body(us));
  }

  lemma CountBelowBytes(us: seq<Bytes>)
    ensures |us| <= |Body(us)|
  {
  }

  /** The parser accepts what the builder writes and finds the same strings. */
  lemma BuiltIsWellFormed(us: seq<Bytes>)
    requires us != [] && StrictlyAscending(us) && |Raw(us)| <= UINT32_MAX
    ensures WellFormed(Raw(us), InfosOf(us))
    ensures forall i :: 0 <= i < |us| ==> InBounds(Raw(us), InfosOf(us)[i])
    ensures Strings(Raw(us), InfosOf(us)) == us
  {
    var raw, infos := Raw(us), InfosOf(us);
    CountBelowBytes(us);
    assert raw[0..4] == Uint32Bytes(|us|);
    StartOfRecord(us, |us|);
    assert us[..|us|] == us;
    assert |Body(us)| > 0;
    hide SizeBytes, ReadSize, Body, InfosOf, StartOf, Uint32Bytes, ReadUint32;
    Uint32RoundTrip(raw, 0, |us|);
    forall i | 0 <= i < |us|
      ensures RecordAt(raw, infos, i) && StringAt(raw, infos[i]) == us[i]
    {
      BuiltRecordFollows(us, i);
    }
  }

  lemma BuiltRecordFollows(us: seq<Bytes>, i: nat)
    requires StrictlyAscending(us) && |Raw(us)| <= UINT32_MAX && i < |us|
    ensures RecordAt(Raw(us), InfosOf(us), i) && StringAt(Raw(us), InfosOf(us)[i]) == us[i]
  {
    hide SizeBytes, ReadSize, Body, InfosOf, StartOf, Raw;
    BuiltRecord(us, i);
    if i > 0 {
      BuiltRecord(us, i - 1);
      StrcmpAntisymmetric(us[i - 1], us[i]);
    }
  }

  /** Parsing the bytes built from a set of strings can only give that set back. */
  lemma ParseInvertsBuild(us: seq<Bytes>, ws: seq<Info>)
    requires us != [] && StrictlyAscending(us) && |Raw(us)| <= UINT32_MAX
    requires WellFormed(Raw(us), ws)
    ensures (forall i :: 0 <= i < |ws| ==> InBounds(Raw(us), ws[i])) && Strings(Raw(us), ws) == us
  {
    BuiltIsWellFormed(us);
    ReadingIsUnique(Raw(us), InfosOf(us), ws, |ws|);
    assert ws == ws[..|ws|] && InfosOf(us) == InfosOf(us)[..|ws|];
  }

  /** Build from any strings, serialize, parse: the members come back, each once and in order. */
  method BuildAndParse(values: seq<Bytes>) returns (r: Result<StringSet>)
    ensures r.Ok? <==> values == [] || |Raw(UniqueStrings(values))| <= 0xFFFF_FFFF
    ensures r.Ok? ==> Valid(r.value) && forall i :: 0 <= i < |r.value.infos| ==> InBounds(r.value.raw, r.value.infos[i])
    ensures r.Ok? ==> Strings(r.value.raw, r.value.infos) == UniqueStrings(values)
    ensures StrictlyAscending(UniqueStrings(values)) && forall x :: x in UniqueStrings(values) <==> x in values
  {
    UniqueStringsAreTheSet(values);
    assert values == [] ==> UniqueStrings(values) == [];
    hide UniqueStrings, Raw, InfosOf, RecordAt, StrictlyAscending;
    ghost var us := UniqueStrings(values);
    r := InitFromArrayValues(values);
    if r.Ok? {
      if values == [] {
        r := Unserialize(Serialize(r.value));
      } else {
        assert values[0] in us;
        BuiltIsWellFormed(us);
        assert |r.value.raw| > 4;
        r := Unserialize(Serialize(r.value));
        ParseInvertsBuild(us, r.value.infos);
      }
    }
  }

  // ----- Bytes of a small set -----

  /** The set of "v_a": one string, three bytes long. */
  lemma OneStringWritten()
    ensures var va: Bytes := [0x76, 0x5F, 0x61];
            && UniqueStrings([va]) == [va]
            && Raw([va]) == [1, 0, 0, 0, 3, 0x76, 0x5F, 0x61] && InfosOf([va]) == [Info(5, 3)]
  {
    var va: Bytes := [0x76, 0x5F, 0x61];
    hide *;
    SizeIsWrittenAs(3);
    CountIsFourBytes([], 1);
    RawOfOne(va);
    OnlyString(va);
  }

  lemma RawOfOne(str: Bytes)
    ensures Raw([str]) == Uint32Bytes(1) + (SizeBytes(|str|) + str)
    ensures InfosOf([str]) == [Info(4 + |SizeBytes(|str|)|, |str|)]
  {
    AppendRecord([], str);
    assert [] + [str] == [str] && Body([]) == [] && InfosOf([]) == [];
    hide SizeBytes, Uint32Bytes, Body, InfosOf;
    assert Raw([str]) == Uint32Bytes(1) + Body([str]);
  }

  lemma OnlyString(str: Bytes)
    ensures UniqueStrings([str]) == [str]
  {
    UniqueStringsAreTheSet([str]);
    var us := UniqueStrings([str]);
    assert str in us;
    hide UniqueStrings;
    forall i | 0 <= i < |us|
      ensures us[i] == str
    {
      assert us[i] in us;
    }
    if |us| > 1 {
      hide StrictlyAscending;
      NotTwice(us, 0, 1);
      assert false;
    }
    assert us == [str];
  }

  lemma NotTwice(us: seq<Bytes>, i: nat, j: nat)
    requires StrictlyAscending(us) && i < j < |us|
    ensures us[i] != us[j]
  {
    StrcmpIsDictionaryOrder(us[i], us[j]);
    hide BinaryStrcmp;
  }

  lemma OneRecord(raw: Bytes, ws: seq<Info>)
    requires WellFormed(raw, ws) && |ws| == 1
    ensures ReadSize(raw, 4).Ok? && ReadSize(raw, 4).value.next + ReadSize(raw, 4).value.size == |raw|
  {
    assert RecordAt(raw, ws, 0);
    hide ReadSize;
  }

  /** Those bytes are read as one string. */
  lemma OneStringRead()
    ensures WellFormed([1, 0, 0, 0, 3, 0x76, 0x5F, 0x61], [Info(5, 3)])
  {
    var good: Bytes := [1, 0, 0, 0, 3, 0x76, 0x5F, 0x61];
    CountIsFourBytes(good, 0);
    SizeIsReadAs(good, 4);
    hide ReadSize, ReadUint32;
    assert RecordAt(good, [Info(5, 3)], 0);
  }

  /** With another size before the string there are bytes to spare. */
  lemma WrongSizeRefused()
    ensures forall ws :: !WellFormed([1, 0, 0, 0, 3, 3, 0, 0x76, 0x5F, 0x61], ws)
  {
    var bad: Bytes := [1, 0, 0, 0, 3, 3, 0, 0x76, 0x5F, 0x61];
    CountIsFourBytes(bad, 0);
    SizeIsReadAs(bad, 4);
    hide ReadSize, ReadUint32, RecordAt;
    forall ws
      ensures !WellFormed(bad, ws)
    {
      if WellFormed(bad, ws) {
        OneRecord(bad, ws);
        assert false;
      }
    }
  }

  /** A record of more than 252 bytes has the tag 253 and two bytes of size before it. */
  lemma LongerStringWritten(str: Bytes)
    requires 253 <= |str| < 65535
    ensures Raw([str]) == [1, 0, 0, 0, 253, |str| % 256, |str| / 256] + str
    ensures InfosOf([str]) == [Info(7, |str|)]
  {
    hide *;
    SizeIsWrittenAs(|str|);
    CountIsFourBytes([], 1);
    RawOfOne(str);
  }

  // ----- Searching the packed bytes -----

  method BinarySearch(s: StringSet, target: Bytes) returns (r: Option<nat>)
    requires Valid(s)
    ensures forall i :: 0 <= i < |s.infos| ==> InBounds(s.raw, s.infos[i])
    ensures r.Some? ==> r.value < |s.infos| && Strings(s.raw, s.infos)[r.value] == target
    ensures r == None ==> target !in Strings(s.raw, s.infos)
  {
    var end := |s.infos|;
    if end == 0 {
      return None;
    }
    AcceptedIsAscending(s.raw, s.infos);
    ghost var strings := Strings(s.raw, s.infos);
    var start := 0;
    while start < end
      invariant 0 <= start <= end <= |s.infos|
      invariant forall i :: 0 <= i < start ==> BinaryStrcmp(target, strings[i]) > 0
      invariant forall i :: end <= i < |s.infos| ==> BinaryStrcmp(target, strings[i]) < 0
    {
      var mid := start + (end - start) / 2;
      var info := s.infos[mid];
      var result := BinaryStrcmp(target, StringAt(s.raw, info));
      Halves(strings, target, mid);
      if result < 0 {
        end := mid;
      } else if result > 0 {
        start := mid + 1;
      } else {
        return Some(mid);
      }
    }
    if target in strings {
      StrcmpIsDictionaryOrder(target, target);
    }
    return None;
  }

  /** A comparison at `mid` settles everything on one side of it. */
  lemma Halves(strings: seq<Bytes>, target: Bytes, mid: nat)
    requires StrictlyAscending(strings) && mid < |strings|
    ensures BinaryStrcmp(target, strings[mid]) < 0 ==>
              forall i :: mid <= i < |strings| ==> BinaryStrcmp(target, strings[i]) < 0
    ensures BinaryStrcmp(target, strings[mid]) > 0 ==>
              forall i :: 0 <= i <= mid ==> BinaryStrcmp(target, strings[i]) > 0
    ensures BinaryStrcmp(target, strings[mid]) == 0 <==> target == strings[mid]
  {
    StrcmpIsDictionaryOrder(target, strings[mid]);
    forall i | 0 <= i < |strings|
      ensures BinaryStrcmp(target, strings[mid]) < 0 && mid <= i ==> BinaryStrcmp(target, strings[i]) < 0
      ensures BinaryStrcmp(target, strings[mid]) > 0 && i <= mid ==> BinaryStrcmp(target, strings[i]) > 0
    {
      if mid < i && BinaryStrcmp(target, strings[mid]) < 0 {
        StrcmpTransitive(target, strings[mid], strings[i]);
      }
      if i < mid && BinaryStrcmp(target, strings[mid]) > 0 {
        StrcmpAntisymmetric(target, strings[mid]);
        StrcmpTransitive(strings[i], strings[mid], target);
        StrcmpAntisymmetric(target, strings[i]);
      }
    }
  }
}
