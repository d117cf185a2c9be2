/** Dropping every element that equals the one kept before it, as is done after sorting. */
module Deduplication {

  function Deduplicated<T(==)>(s: seq<T>): (us: seq<T>)
    ensures |us| <= |s|
    ensures s != [] ==> us != [] && us[|us| - 1] == s[|s| - 1]
  {
    if s == [] then []
    else
      var us := Deduplicated(s[..|s| - 1]);
      if us != [] && us[|us| - 1] == s[|s| - 1] then us else us + [s[|s| - 1]]
  }

  /** One more element. */
  lemma DeduplicatedStep<T>(s: seq<T>, i: nat)
    requires i < |s|
    ensures var us := Deduplicated(s[..i]);
            Deduplicated(s[..i + 1]) == if us != [] && us[|us| - 1] == s[i] then us else us + [s[i]]
  {
    assert s[..i + 1][..i] == s[..i];
  }

  lemma {:induction false} DeduplicatedMembers<T>(s: seq<T>)
    ensures forall x :: x in Deduplicated(s) <==> x in s
  {
    if s != [] {
      DeduplicatedMembers(s[..|s| - 1]);
      assert s == s[..|s| - 1] + [s[|s| - 1]];
    }
  }
}
