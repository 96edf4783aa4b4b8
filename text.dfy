/** The two string primitives the stores use: `strtolower`, and `stripos`
    (position of the first case-insensitive occurrence, or `false`).
    Case folding is ASCII only, as `strtolower` does from PHP 8.2 on. */
module Text {
  import opened Options

  /** Maps 'A'..'Z' to 'a'..'z' and leaves every other character alone. */
  function LowerChar(c: char): (d: char)
    ensures 'A' <= c <= 'Z' ==> 'a' <= d <= 'z' && d as int - c as int == 32
    ensures !('A' <= c <= 'Z') ==> d == c
  {
    if 'A' <= c <= 'Z' then (c as int + 32) as char else c
  }

  /** `strtolower`: lower-cases each character in place. */
  function Lower(s: string): (r: string)
    ensures |r| == |s|
    ensures forall i :: 0 <= i < |s| ==> r[i] == LowerChar(s[i])
  {
    seq(|s|, i requires 0 <= i < |s| => LowerChar(s[i]))
  }

  /** Lower-casing twice is lower-casing once. */
  lemma LowerIdempotent(s: string)
    ensures Lower(Lower(s)) == Lower(s)
  {
  }

  /** `needle` appears in `hay` starting at position `i`. */
  predicate OccursAt(hay: string, needle: string, i: nat)
  {
    i + |needle| <= |hay| && hay[i..i + |needle|] == needle
  }

  /** The first position at or after `from` where `needle` occurs in `hay`. */
  function IndexFrom(hay: string, needle: string, from: nat): (r: Option<nat>)
    requires from <= |hay|
    ensures r.Some? ==> from <= r.value && OccursAt(hay, needle, r.value)
    ensures r.Some? ==> forall j :: from <= j < r.value ==> !OccursAt(hay, needle, j)
    ensures r.None? ==> forall j :: from <= j ==> !OccursAt(hay, needle, j)
    decreases |hay| - from
  {
    if OccursAt(hay, needle, from) then Some(from)
    else if from == |hay| then None
    else IndexFrom(hay, needle, from + 1)
  }

  /** `stripos`: the first position at which the needle occurs in the
      haystack when both are lower-cased, or `None` (the application's
      `false`) when it occurs nowhere. An empty needle is found at
      position 0, as in PHP 8. */
  function Stripos(hay: string, needle: string): (r: Option<nat>)
    ensures r.Some? ==> r.value + |needle| <= |hay| && OccursAt(Lower(hay), Lower(needle), r.value)
    ensures r.Some? ==> forall j :: 0 <= j < r.value ==> !OccursAt(Lower(hay), Lower(needle), j)
    ensures r.None? <==> forall j: nat :: !OccursAt(Lower(hay), Lower(needle), j)
  {
    IndexFrom(Lower(hay), Lower(needle), 0)
  }

  /** The test `stripos` is put to: does it find the needle at all. */
  predicate ContainsIgnoringCase(hay: string, needle: string)
  {
    Stripos(hay, needle).Some?
  }

  /** The test succeeds exactly when the lower-cased needle occurs somewhere
      in the lower-cased haystack. */
  lemma ContainsIgnoringCaseMeaning(hay: string, needle: string)
    ensures ContainsIgnoringCase(hay, needle) <==> exists i: nat :: OccursAt(Lower(hay), Lower(needle), i)
  {
  }

  /** The empty query is contained in every string. */
  lemma EmptyNeedleAlwaysFound(hay: string)
    ensures Stripos(hay, "") == Some(0)
  {
    assert OccursAt(Lower(hay), Lower(""), 0);
  }

  /** Changing the case of ASCII letters in either argument never changes the answer. */
  lemma StriposIgnoresCase(hay: string, needle: string)
    ensures Stripos(Lower(hay), Lower(needle)) == Stripos(hay, needle)
  {
    LowerIdempotent(hay);
    LowerIdempotent(needle);
  }
}
