/**
 * The handful of Python `str` operations the bot relies on, over `string` (a sequence of
 * Unicode scalar values): `strip()`, `sep.join(xs)`, `s.split(sep)`, `s.endswith(x)` and
 * leftmost / rightmost search.
 */
module Strings {
  import opened Wrappers

  /** Python's `str.isspace()` for one character: what `strip()` removes and what `\s` matches */
  predicate IsSpace(c: char) {
    || ('\t' <= c <= '\r')
    || ('\U{1C}' <= c <= '\U{1F}')
    || c == ' ' || c == '\U{85}' || c == '\U{A0}' || c == '\U{1680}'
    || ('\U{2000}' <= c <= '\U{200A}')
    || c == '\U{2028}' || c == '\U{2029}' || c == '\U{202F}' || c == '\U{205F}' || c == '\U{3000}'
  }

  predicate AllSpace(s: string) {
    forall i :: 0 <= i < |s| ==> IsSpace(s[i])
  }

  /** Neither the first nor the last character is whitespace */
  predicate IsStripped(s: string) {
    s == [] || (!IsSpace(s[0]) && !IsSpace(s[|s| - 1]))
  }

  /** The first index at or after `i` that does not hold whitespace (or `|s|`) */
  function SkipSpace(s: string, i: nat): (r: nat)
    requires i <= |s|
    ensures i <= r <= |s| && AllSpace(s[i..r]) && (r == |s| || !IsSpace(s[r]))
    decreases |s| - i
  {
    if i < |s| && IsSpace(s[i]) then
      var r := SkipSpace(s, i + 1);
      assert s[i..r] == [s[i]] + s[i + 1..r];
      r
    else i
  }

  /** The index just past the last non-whitespace character of `s[lo..j]` (or `lo`) */
  function SkipSpaceBack(s: string, lo: nat, j: nat): (r: nat)
    requires lo <= j <= |s|
    ensures lo <= r <= j && AllSpace(s[r..j]) && (r == lo || !IsSpace(s[r - 1]))
    decreases j
  {
    if lo < j && IsSpace(s[j - 1]) then
      var r := SkipSpaceBack(s, lo, j - 1);
      assert s[r..j] == s[r..j - 1] + [s[j - 1]];
      r
    else j
  }

  /** Python's `s.strip()`: `s` with its leading and trailing whitespace removed */
  function Strip(s: string): (r: string)
    ensures IsStripped(r) && |r| <= |s|
  {
    var i := SkipSpace(s, 0);
    s[i..SkipSpaceBack(s, i, |s|)]
  }

  /** What `strip()` keeps is a slice of the text with only whitespace around it */
  lemma StripIsTrim(s: string)
    ensures exists i, j :: 0 <= i <= j <= |s| && Strip(s) == s[i..j] && AllSpace(s[..i]) && AllSpace(s[j..])
  {
    var i := SkipSpace(s, 0);
    var j := SkipSpaceBack(s, i, |s|);
    assert s[..i] == s[0..i];
  }

  /** `strip()` gives the empty string exactly for whitespace-only input */
  lemma StripEmptyIff(s: string)
    ensures Strip(s) == [] <==> AllSpace(s)
  {
    var i := SkipSpace(s, 0);
    var j := SkipSpaceBack(s, i, |s|);
    if i == j {
      assert i == |s|;
      forall k | 0 <= k < |s| ensures IsSpace(s[k]) {
        assert s[k] == s[0..i][k];
      }
    }
  }

  /** `strip()` is the identity on stripped text, so in particular it is idempotent */
  lemma StripStripped(s: string)
    requires IsStripped(s)
    ensures Strip(s) == s
  {
    if s != [] {
      assert SkipSpace(s, 0) == 0;
      assert s[0..|s|] == s;
    }
  }

  /** Python's `sep.join(xs)` */
  function Join(sep: string, xs: seq<string>): string
  {
    if |xs| == 0 then "" else if |xs| == 1 then xs[0] else xs[0] + sep + Join(sep, xs[1..])
  }

  /** When no item is empty, the joined text is empty exactly when there are no items */
  lemma {:induction false} JoinEmptyIff(sep: string, xs: seq<string>)
    requires forall i :: 0 <= i < |xs| ==> xs[i] != []
    ensures Join(sep, xs) == [] <==> xs == []
  {
    if |xs| >= 2 {
      assert |Join(sep, xs)| >= |xs[0]|;
    }
  }

  /** The character `c` does not occur in `s` */
  predicate NoChar(s: string, c: char) {
    forall i :: 0 <= i < |s| ==> s[i] != c
  }

  /** `pat` occurs in `s` starting at index `i` */
  predicate OccursAt(s: string, pat: string, i: int) {
    0 <= i && i + |pat| <= |s| && s[i..i + |pat|] == pat
  }

  ghost predicate Contains(s: string, pat: string) {
    exists i :: OccursAt(s, pat, i)
  }

  predicate EndsWith(s: string, suffix: string) {
    |suffix| <= |s| && s[|s| - |suffix|..] == suffix
  }

  /** Leftmost occurrence of `pat` at an index no smaller than `from` (Python's `s.find(pat, from)`) */
  function FindFrom(s: string, pat: string, from: nat): (r: Option<nat>)
    ensures r.Some? ==> from <= r.value && OccursAt(s, pat, r.value)
    ensures r.Some? ==> forall j :: from <= j < r.value ==> !OccursAt(s, pat, j)
    ensures r.None? ==> forall j :: from <= j ==> !OccursAt(s, pat, j)
    decreases |s| - from
  {
    if from + |pat| > |s| then None
    else if s[from..from + |pat|] == pat then Some(from)
    else FindFrom(s, pat, from + 1)
  }

  /** Leftmost index of character `c` at or after `from` */
  function IndexOfChar(s: string, c: char, from: nat): (r: Option<nat>)
    ensures r.Some? ==> from <= r.value < |s| && s[r.value] == c
    ensures r.Some? ==> forall j :: from <= j < r.value ==> s[j] != c
    ensures r.None? ==> forall j :: from <= j < |s| ==> s[j] != c
    decreases |s| - from
  {
    if from >= |s| then None
    else if s[from] == c then Some(from)
    else IndexOfChar(s, c, from + 1)
  }

  /** Rightmost index of character `c` */
  function LastIndexOfChar(s: string, c: char): (r: Option<nat>)
    ensures r.Some? ==> r.value < |s| && s[r.value] == c
    ensures r.Some? ==> forall j :: r.value < j < |s| ==> s[j] != c
    ensures r.None? ==> forall j :: 0 <= j < |s| ==> s[j] != c
  {
    if s == [] then None
    else if s[|s| - 1] == c then Some(|s| - 1)
    else LastIndexOfChar(s[..|s| - 1], c)
  }

  /** Python's `s.split(sep)` for a non-empty separator: the pieces between the leftmost
      non-overlapping occurrences of `sep` */
  function Split(s: string, sep: string): (parts: seq<string>)
    requires sep != []
    ensures |parts| >= 1
    decreases |s|
  {
    match FindFrom(s, sep, 0)
    case None => [s]
    case Some(k) => [s[..k]] + Split(s[k + |sep|..], sep)
  }

  /** No piece holds the separator */
  ghost predicate NoPieceHolds(parts: seq<string>, sep: string) {
    forall i :: 0 <= i < |parts| ==> !Contains(parts[i], sep)
  }

  /** No piece holds the separator, and there are several pieces exactly when the text holds it */
  lemma {:induction false} SplitPieces(s: string, sep: string)
    requires sep != []
    ensures NoPieceHolds(Split(s, sep), sep)
    ensures Contains(s, sep) <==> |Split(s, sep)| >= 2
    decreases |s|
  {
    match FindFrom(s, sep, 0)
    case None =>
      assert forall i :: OccursAt(s, sep, i) ==> 0 <= i;
    case Some(k) =>
      var rest := s[k + |sep|..];
      SplitPieces(rest, sep);
      HeadHasNoSep(s, sep, k);
      PiecesCons(s[..k], Split(rest, sep), sep);
      assert OccursAt(s, sep, k);
  }

  lemma HeadHasNoSep(s: string, sep: string, k: nat)
    requires sep != [] && FindFrom(s, sep, 0) == Some(k)
    ensures k <= |s| && !Contains(s[..k], sep)
  {
    assert k + |sep| <= |s|;
    forall i ensures !OccursAt(s[..k], sep, i) {
      if 0 <= i && i + |sep| <= k {
        assert s[..k][i..i + |sep|] == s[i..i + |sep|];
        assert !OccursAt(s, sep, i);
      }
    }
  }

  lemma PiecesCons(h: string, parts: seq<string>, sep: string)
    requires !Contains(h, sep) && NoPieceHolds(parts, sep)
    ensures NoPieceHolds([h] + parts, sep)
  {
    var r := [h] + parts;
    forall i | 0 < i < |r| ensures !Contains(r[i], sep) {
      assert r[i] == parts[i - 1];
    }
  }

  lemma ThreeParts(s: string, i: int, j: int)
    requires 0 <= i <= j <= |s|
    ensures s == s[..i] + s[i..j] + s[j..]
  {
  }

  lemma JoinCons(sep: string, h: string, xs: seq<string>)
    requires xs != []
    ensures Join(sep, [h] + xs) == h + sep + Join(sep, xs)
  {
    assert ([h] + xs)[1..] == xs;
  }

  /** Round trip: joining the pieces of a split with the same separator restores the text */
  lemma {:induction false} JoinSplit(s: string, sep: string)
    requires sep != []
    ensures Join(sep, Split(s, sep)) == s
    decreases |s|
  {
    match FindFrom(s, sep, 0)
    case None =>
    case Some(k) =>
      var rest := s[k + |sep|..];
      JoinSplit(rest, sep);
      JoinCons(sep, s[..k], Split(rest, sep));
      assert s[k..k + |sep|] == sep;
      ThreeParts(s, k, k + |sep|);
  }

  /** The character `c` occurs nowhere as a one-character pattern */
  lemma NoCharNoOccurrence(s: string, c: char)
    requires NoChar(s, c)
    ensures forall j :: !OccursAt(s, [c], j)
  {
    forall j ensures !OccursAt(s, [c], j) {
      if 0 <= j < |s| {
        assert s[j] != c;
      }
    }
  }

  /** Text without the separator splits into itself alone */
  lemma SplitWhole(s: string, sep: string)
    requires sep != [] && forall j :: !OccursAt(s, sep, j)
    ensures Split(s, sep) == [s]
  {
    assert FindFrom(s, sep, 0).None?;
  }

  /** When the first occurrence of `sep` comes right after `a`, `a` is the first piece */
  lemma SplitAt(a: string, sep: string, b: string)
    requires sep != [] && forall j :: 0 <= j < |a| ==> !OccursAt(a + sep + b, sep, j)
    ensures Split(a + sep + b, sep) == [a] + Split(b, sep)
  {
    var s := a + sep + b;
    assert OccursAt(s, sep, |a|) by {
      assert s[|a|..|a| + |sep|] == sep;
    }
    assert FindFrom(s, sep, 0) == Some(|a|);
    assert s[..|a|] == a && s[|a| + |sep|..] == b;
  }

  /** Splitting at a character found exactly once gives the two sides */
  lemma SplitOnce(a: string, c: char, b: string)
    requires NoChar(a, c) && NoChar(b, c)
    ensures Split(a + [c] + b, [c]) == [a, b]
  {
    forall j | 0 <= j < |a| ensures !OccursAt(a + [c] + b, [c], j) {
      assert (a + [c] + b)[j] == a[j];
    }
    SplitAt(a, [c], b);
    NoCharNoOccurrence(b, c);
    SplitWhole(b, [c]);
  }

  /** One leading space in front of stripped text is what `strip()` removes */
  lemma StripAfterSpace(s: string)
    requires IsStripped(s)
    ensures Strip(" " + s) == s
  {
    var x := " " + s;
    assert SkipSpace(x, 0) == SkipSpace(x, 1);
    if s == [] {
      assert SkipSpace(x, 1) == 1;
    } else {
      assert x[1] == s[0];
      assert SkipSpace(x, 1) == 1;
      assert x[|x| - 1] == s[|s| - 1];
      assert SkipSpaceBack(x, 1, |x|) == |x|;
      assert x[1..|x|] == s;
    }
  }
}
