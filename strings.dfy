/**
 * Substring search and `str.split(sep)` with an explicit separator, as Python
 * defines them: the string is cut at every non-overlapping occurrence of the
 * separator, scanning left to right.
 */
module Strings {
  import opened Wrappers

  /** True iff `sep` occurs in `s` starting at position `i`. */
  predicate OccursAt(s: string, sep: string, i: nat)
  {
    i + |sep| <= |s| && s[i..i + |sep|] == sep
  }

  /** The first position at or after `from` where `sep` occurs (`str.find(sep, from)`). */
  function FindFrom(s: string, sep: string, from: nat): (r: Option<nat>)
    decreases |s| - from
    ensures r.Some? ==> from <= r.value && OccursAt(s, sep, r.value)
    ensures r.Some? ==> forall j :: from <= j < r.value ==> !OccursAt(s, sep, j)
    ensures r.None? ==> forall j :: from <= j ==> !OccursAt(s, sep, j)
  {
    if from + |sep| > |s| then None
    else if OccursAt(s, sep, from) then Some(from)
    else FindFrom(s, sep, from + 1)
  }

  /** The first occurrence of `sep` in `s`. */
  function Find(s: string, sep: string): Option<nat>
  {
    FindFrom(s, sep, 0)
  }

  /** `s.split(sep)` for a non-empty separator. */
  function Split(s: string, sep: string): (parts: seq<string>)
    requires sep != []
    decreases |s|
  {
    match Find(s, sep)
    case None => [s]
    case Some(i) => [s[..i]] + Split(s[i + |sep|..], sep)
  }

  /** `sep.join(parts)`, the inverse of `Split`. */
  function Join(parts: seq<string>, sep: string): string
  {
    if |parts| == 0 then ""
    else if |parts| == 1 then parts[0]
    else parts[0] + sep + Join(parts[1..], sep)
  }

  /** Split never returns an empty list, and splitting at the first occurrence leaves the prefix first. */
  lemma SplitHead(s: string, sep: string)
    requires sep != []
    ensures |Split(s, sep)| >= 1
    ensures Find(s, sep).None? ==> Split(s, sep) == [s]
    ensures Find(s, sep).Some? ==>
      var i := Find(s, sep).value;
      Split(s, sep) == [s[..i]] + Split(s[i + |sep|..], sep)
  {
  }

  /** Joining the pieces with the separator gives back the original string. */
  lemma {:induction false} JoinSplit(s: string, sep: string)
    requires sep != []
    ensures Join(Split(s, sep), sep) == s
    decreases |s|
  {
    match Find(s, sep)
    case None =>
    case Some(i) =>
      var rest := s[i + |sep|..];
      var tail := Split(rest, sep);
      JoinSplit(rest, sep);
      SplitHead(rest, sep);
      var parts := [s[..i]] + tail;
      assert Split(s, sep) == parts;
      assert parts[1..] == tail;
      assert Join(parts, sep) == s[..i] + sep + Join(tail, sep);
      assert s[i..i + |sep|] == sep;
      assert s == s[..i] + s[i..i + |sep|] + rest;
  }

  /** A piece that ends before the first occurrence contains no occurrence itself. */
  lemma PrefixBeforeFirstIsFree(s: string, sep: string, i: nat)
    requires sep != [] && i <= |s|
    requires forall j :: 0 <= j < i ==> !OccursAt(s, sep, j)
    ensures Find(s[..i], sep).None?
  {
    var p := s[..i];
    match Find(p, sep)
    case None =>
    case Some(j) =>
      assert p[j..j + |sep|] == s[j..j + |sep|];
      assert OccursAt(s, sep, j);
  }

  /** No piece returned by Split contains the separator. */
  lemma {:induction false} SplitPiecesFree(s: string, sep: string)
    requires sep != []
    ensures forall k :: 0 <= k < |Split(s, sep)| ==> Find(Split(s, sep)[k], sep).None?
    decreases |s|
  {
    match Find(s, sep)
    case None =>
      PrefixBeforeFirstIsFree(s, sep, |s|);
      assert s[..|s|] == s;
    case Some(i) =>
      var rest := s[i + |sep|..];
      SplitPiecesFree(rest, sep);
      PrefixBeforeFirstIsFree(s, sep, i);
      forall k | 0 <= k < |Split(s, sep)|
        ensures Find(Split(s, sep)[k], sep).None?
      {
        if k > 0 {
          assert Split(s, sep)[k] == Split(rest, sep)[k - 1];
        }
      }
  }
}
