/**
 * `re.compile(r"<Message>(.*?)</Message>", re.DOTALL).findall(s)`, the extractor's last
 * resort. With a lazy group between two literal tags the engine's search comes down to a
 * left-to-right scan: at each position an opening tag, if there is one, is closed by the
 * NEAREST closing tag after it; a position whose opening tag has no closing tag anywhere
 * after it is skipped, and after a match the search resumes where the match ended.
 */
module MessagePattern {
  import opened Wrappers
  import opened Strings

  const Open := "<Message>"
  const Close := "</Message>"

  /** The bounds `[start, end)` of one match's captured group in the scanned text */
  datatype Span = Span(start: nat, end: nat)

  /** `sp` is a match: an opening tag right before the group and the nearest closing tag right after it */
  predicate IsMatch(s: string, sp: Span) {
    && |Open| <= sp.start <= sp.end
    && OccursAt(s, Open, sp.start - |Open|)
    && OccursAt(s, Close, sp.end)
    && forall j :: sp.start <= j < sp.end ==> !OccursAt(s, Close, j)
  }

  /** Some opening tag at or after `pos` has a closing tag somewhere after it */
  ghost predicate HasPair(s: string, pos: int) {
    exists p, q :: pos <= p && p + |Open| <= q && OccursAt(s, Open, p) && OccursAt(s, Close, q)
  }

  predicate NoOpenBetween(s: string, a: int, b: int) {
    forall p :: a <= p < b ==> !OccursAt(s, Open, p)
  }

  /** Where the search resumes after the spans `r`, when it started at `pos` */
  function Resume(pos: int, r: seq<Span>): int {
    if r == [] then pos else r[|r| - 1].end + |Close|
  }

  /** Every span of `r` is a match */
  ghost predicate AllMatches(s: string, r: seq<Span>) {
    forall i :: 0 <= i < |r| ==> IsMatch(s, r[i])
  }

  /** Span `b` is the first match found when the search resumes at `from` */
  predicate FirstAfter(s: string, from: int, b: Span) {
    from + |Open| <= b.start && NoOpenBetween(s, from, b.start - |Open|)
  }

  /** Each span is the first match after the end of the one before it */
  ghost predicate Chained(s: string, pos: int, r: seq<Span>) {
    && (r != [] ==> FirstAfter(s, pos, r[0]))
    && (forall i :: 0 < i < |r| ==> FirstAfter(s, r[i - 1].end + |Close|, r[i]))
  }

  /**
   * The declarative reading of `findall` from position `pos`: every span is a match, each
   * one begins at the first opening tag after the previous match (no opening tag is skipped,
   * so the spans are in order and do not overlap), and where the search ends no opening tag
   * has a closing tag after it.
   */
  ghost predicate IsScan(s: string, pos: int, r: seq<Span>) {
    AllMatches(s, r) && Chained(s, pos, r) && !HasPair(s, Resume(pos, r))
  }

  /** The engine's scan from position `pos` */
  function ScanFrom(s: string, pos: nat): (r: seq<Span>)
    requires pos <= |s|
    ensures IsScan(s, pos, r)
    decreases |s| - pos
  {
    if pos + |Open| > |s| then
      assert !HasPair(s, pos);
      []
    else if s[pos..pos + |Open|] == Open then
      match FindFrom(s, Close, pos + |Open|)
      case Some(e) =>
        var rest := ScanFrom(s, e + |Close|);
        ScanCons(s, pos, Span(pos + |Open|, e), rest);
        [Span(pos + |Open|, e)] + rest
      case None =>
        var rest := ScanFrom(s, pos + 1);
        NoCloseNoScan(s, pos + 1, rest);
        assert !HasPair(s, pos);
        rest
    else
      var rest := ScanFrom(s, pos + 1);
      ScanSkip(s, pos, rest);
      rest
  }

  /** With no closing tag at or after `from` the scan from `from` is empty */
  lemma NoCloseNoScan(s: string, from: int, r: seq<Span>)
    requires IsScan(s, from, r)
    requires forall j :: from + |Open| <= j ==> !OccursAt(s, Close, j)
    ensures r == []
  {
  }

  /** A first match from `pos`, followed by the scan from its end, is the scan from `pos` */
  lemma ScanCons(s: string, pos: int, sp: Span, rest: seq<Span>)
    requires IsMatch(s, sp) && FirstAfter(s, pos, sp)
    requires IsScan(s, sp.end + |Close|, rest)
    ensures IsScan(s, pos, [sp] + rest)
  {
    var r := [sp] + rest;
    ConsMatches(s, sp, rest);
    ConsChained(s, pos, sp, rest);
    assert Resume(pos, r) == Resume(sp.end + |Close|, rest);
  }

  lemma ConsMatches(s: string, sp: Span, rest: seq<Span>)
    requires IsMatch(s, sp) && AllMatches(s, rest)
    ensures AllMatches(s, [sp] + rest)
  {
    var r := [sp] + rest;
    forall i | 0 <= i < |r| ensures IsMatch(s, r[i]) {
      if i > 0 { assert r[i] == rest[i - 1]; }
    }
  }

  lemma ConsChained(s: string, pos: int, sp: Span, rest: seq<Span>)
    requires FirstAfter(s, pos, sp) && Chained(s, sp.end + |Close|, rest)
    ensures Chained(s, pos, [sp] + rest)
  {
    var r := [sp] + rest;
    forall i | 0 < i < |r| ensures FirstAfter(s, r[i - 1].end + |Close|, r[i]) {
      assert r[i] == rest[i - 1];
      if i > 1 { assert r[i - 1] == rest[i - 2]; }
    }
  }

  /** A position without an opening tag adds nothing to the scan */
  lemma ScanSkip(s: string, pos: int, rest: seq<Span>)
    requires !OccursAt(s, Open, pos)
    requires IsScan(s, pos + 1, rest)
    ensures IsScan(s, pos, rest)
  {
    if rest == [] {
      if HasPair(s, pos) {
        var p, q :| pos <= p && p + |Open| <= q && OccursAt(s, Open, p) && OccursAt(s, Close, q);
        assert p != pos;
        assert HasPair(s, pos + 1);
      }
    }
  }

  /** After the first match, the remaining spans are the scan from where that match ends */
  lemma ScanTail(s: string, pos: int, r: seq<Span>)
    requires IsScan(s, pos, r) && r != []
    ensures IsScan(s, r[0].end + |Close|, r[1..])
    ensures pos < r[0].end + |Close| <= |s|
  {
    var t := r[1..];
    TailMatches(s, r);
    TailChained(s, pos, r);
    assert Resume(r[0].end + |Close|, t) == Resume(pos, r);
  }

  lemma TailMatches(s: string, r: seq<Span>)
    requires AllMatches(s, r) && r != []
    ensures AllMatches(s, r[1..])
  {
    forall i | 0 <= i < |r| - 1 ensures IsMatch(s, r[1..][i]) {
      assert r[1..][i] == r[i + 1];
    }
  }

  lemma TailChained(s: string, pos: int, r: seq<Span>)
    requires Chained(s, pos, r) && r != []
    ensures Chained(s, r[0].end + |Close|, r[1..])
  {
    var t := r[1..];
    forall i | 0 < i < |t| ensures FirstAfter(s, t[i - 1].end + |Close|, t[i]) {
      assert t[i - 1] == r[i] && t[i] == r[i + 1];
    }
    if t != [] {
      assert t[0] == r[1];
    }
  }

  /** Two matches that start at the same opening tag are the same match */
  lemma MatchAtUnique(s: string, a: Span, b: Span)
    requires IsMatch(s, a) && IsMatch(s, b) && a.start == b.start
    ensures a == b
  {
  }

  /** Two matches that are both first after `from` start at the same opening tag */
  lemma FirstAfterUnique(s: string, from: int, a: Span, b: Span)
    requires IsMatch(s, a) && IsMatch(s, b) && FirstAfter(s, from, a) && FirstAfter(s, from, b)
    ensures a.start == b.start
  {
  }

  /** A match whose opening tag lies at or after `from` is a pair found from `from` */
  lemma MatchIsPair(s: string, from: int, sp: Span)
    requires IsMatch(s, sp) && from + |Open| <= sp.start
    ensures HasPair(s, from)
  {
    assert OccursAt(s, Open, sp.start - |Open|) && OccursAt(s, Close, sp.end);
  }

  /** Two readings from the same position are both empty or both not */
  lemma EmptyTogether(s: string, pos: int, r1: seq<Span>, r2: seq<Span>)
    requires IsScan(s, pos, r1) && IsScan(s, pos, r2)
    ensures r1 == [] <==> r2 == []
  {
    if r1 != [] {
      MatchIsPair(s, pos, r1[0]);
    }
    if r2 != [] {
      MatchIsPair(s, pos, r2[0]);
    }
  }

  /** Two readings from the same position begin with the same match */
  lemma HeadsEqual(s: string, pos: int, r1: seq<Span>, r2: seq<Span>)
    requires IsScan(s, pos, r1) && IsScan(s, pos, r2) && r1 != [] && r2 != []
    ensures r1[0] == r2[0]
  {
    FirstAfterUnique(s, pos, r1[0], r2[0]);
    MatchAtUnique(s, r1[0], r2[0]);
  }

  /** The declarative reading determines the scan: only one sequence of spans satisfies it */
  lemma {:induction false} ScanUnique(s: string, pos: int, r1: seq<Span>, r2: seq<Span>)
    requires IsScan(s, pos, r1) && IsScan(s, pos, r2)
    ensures r1 == r2
    decreases |s| - pos
  {
    EmptyTogether(s, pos, r1, r2);
    if r1 != [] {
      HeadsEqual(s, pos, r1, r2);
      ScanTail(s, pos, r1);
      ScanTail(s, pos, r2);
      ScanUnique(s, r1[0].end + |Close|, r1[1..], r2[1..]);
      SameHeadSameTail(r1, r2);
    }
  }

  lemma SameHeadSameTail<T>(a: seq<T>, b: seq<T>)
    requires a != [] && b != [] && a[0] == b[0] && a[1..] == b[1..]
    ensures a == b
  {
    assert a == [a[0]] + a[1..] && b == [b[0]] + b[1..];
  }

  /** The captured groups of a sequence of matches */
  function Groups(s: string, spans: seq<Span>): (r: seq<string>)
    requires forall i :: 0 <= i < |spans| ==> IsMatch(s, spans[i])
    ensures |r| == |spans|
    ensures forall i :: 0 <= i < |r| ==> IsMatch(s, spans[i]) && r[i] == s[spans[i].start..spans[i].end]
  {
    if spans == [] then []
    else
      assert IsMatch(s, spans[0]);
      [s[spans[0].start..spans[0].end]] + Groups(s, spans[1..])
  }

  /** `message_pattern.findall(s)` */
  function FindAll(s: string): seq<string>
  {
    Groups(s, ScanFrom(s, 0))
  }

  /** The group of a match holds no closing tag */
  lemma GroupHasNoClose(s: string, sp: Span)
    requires IsMatch(s, sp)
    ensures !Contains(s[sp.start..sp.end], Close)
  {
    var m := s[sp.start..sp.end];
    if Contains(m, Close) {
      var j :| OccursAt(m, Close, j);
      assert s[sp.start + j..sp.start + j + |Close|] == m[j..j + |Close|];
      assert OccursAt(s, Close, sp.start + j);
    }
  }

  /** No match contains a closing tag: each group ends at the nearest `</Message>` */
  lemma NoMatchContainsClose(s: string, i: int)
    requires 0 <= i < |FindAll(s)|
    ensures !Contains(FindAll(s)[i], Close)
  {
    GroupHasNoClose(s, ScanFrom(s, 0)[i]);
  }

  /** The group of a match sits between an opening tag and a closing tag */
  lemma GroupIsBracketed(s: string, sp: Span)
    requires IsMatch(s, sp)
    ensures Contains(s, Open + s[sp.start..sp.end] + Close)
  {
    var p := sp.start - |Open|;
    var e := sp.end + |Close|;
    assert s[p..e] == s[p..sp.start] + s[sp.start..sp.end] + s[sp.end..e];
    assert OccursAt(s, Open + s[sp.start..sp.end] + Close, p);
  }

  /** Each match is the text between an opening tag and the closing tag that follows it */
  lemma MatchIsBracketed(s: string, i: int)
    requires 0 <= i < |FindAll(s)|
    ensures Contains(s, Open + FindAll(s)[i] + Close)
  {
    GroupIsBracketed(s, ScanFrom(s, 0)[i]);
  }

  /** `findall` finds nothing exactly when no opening tag has a closing tag after it */
  lemma FindAllEmptyIff(s: string)
    ensures FindAll(s) == [] <==> !HasPair(s, 0)
  {
    var r := ScanFrom(s, 0);
    if r != [] {
      assert IsMatch(s, r[0]);
      assert OccursAt(s, Open, r[0].start - |Open|) && OccursAt(s, Close, r[0].end);
    }
  }

  /** Text without a closing tag yields no match */
  lemma NoCloseNoMatch(s: string)
    requires !Contains(s, Close)
    ensures FindAll(s) == []
  {
    FindAllEmptyIff(s);
  }

  /** A group without `<`, bracketed by the two tags right after `pre`, is the first match after `pre` */
  lemma BracketedMatch(s: string, pre: string, g: string, post: string)
    requires s == pre + Open + g + Close + post
    requires forall k :: 0 <= k < |g| ==> g[k] != '<'
    ensures IsMatch(s, Span(|pre| + |Open|, |pre| + |Open| + |g|))
    ensures FirstAfter(s, |pre|, Span(|pre| + |Open|, |pre| + |Open| + |g|))
    ensures s[|pre| + |Open|..|pre| + |Open| + |g|] == g
  {
    var a := |pre| + |Open|;
    assert s == pre + (Open + (g + (Close + post)));
    assert s[|pre|..a] == Open;
    assert s[a + |g|..a + |g| + |Close|] == Close;
    forall j | a <= j < a + |g| ensures !OccursAt(s, Close, j) {
      assert s[j] == g[j - a];
    }
  }

  /** No `<` in `g`, so no tag can start inside it */
  predicate NoTagStart(g: string) {
    forall k :: 0 <= k < |g| ==> g[k] != '<'
  }

  /** The texts `gs`, each wrapped in a `<Message>` element, one after the other */
  function Bracketed(gs: seq<string>): string
  {
    if gs == [] then "" else Open + gs[0] + Close + Bracketed(gs[1..])
  }

  /** The groups of the spans `r` are the texts `gs` */
  ghost predicate GroupsAre(s: string, r: seq<Span>, gs: seq<string>) {
    |r| == |gs| && forall i :: 0 <= i < |r| ==> r[i].start <= r[i].end <= |s| && s[r[i].start..r[i].end] == gs[i]
  }

  lemma GroupsCons(s: string, sp: Span, rest: seq<Span>, gs: seq<string>)
    requires gs != [] && sp.start <= sp.end <= |s| && s[sp.start..sp.end] == gs[0]
    requires GroupsAre(s, rest, gs[1..])
    ensures GroupsAre(s, [sp] + rest, gs)
  {
    var r := [sp] + rest;
    forall i | 0 < i < |r| ensures r[i].start <= r[i].end <= |s| && s[r[i].start..r[i].end] == gs[i] {
      assert r[i] == rest[i - 1];
    }
  }

  /** The first element of `pre + Bracketed(gs)` is the first match after `pre` */
  lemma BracketedStep(s: string, pre: string, g: string, post: string, rest: seq<Span>) returns (sp: Span)
    requires s == pre + Open + g + Close + post
    requires NoTagStart(g)
    requires IsScan(s, |pre| + |Open| + |g| + |Close|, rest)
    ensures IsScan(s, |pre|, [sp] + rest)
    ensures sp.start <= sp.end <= |s| && s[sp.start..sp.end] == g
  {
    BracketedMatch(s, pre, g, post);
    sp := Span(|pre| + |Open|, |pre| + |Open| + |g|);
    ScanCons(s, |pre|, sp, rest);
  }

  /** The scan from the end of `pre`, when the rest of the text is `Bracketed(gs)` */
  lemma {:induction false} ScanBracketed(s: string, pre: string, gs: seq<string>) returns (r: seq<Span>)
    requires s == pre + Bracketed(gs)
    requires forall i :: 0 <= i < |gs| ==> NoTagStart(gs[i])
    ensures IsScan(s, |pre|, r) && GroupsAre(s, r, gs)
    decreases |gs|
  {
    if gs == [] {
      assert s == pre;
      r := [];
    } else {
      var g, post := gs[0], Bracketed(gs[1..]);
      var pre' := pre + Open + g + Close;
      assert s == pre' + post;
      var rest := ScanBracketed(s, pre', gs[1..]);
      var sp := BracketedStep(s, pre, g, post, rest);
      GroupsCons(s, sp, rest, gs);
      r := [sp] + rest;
    }
  }

  /** Any spans satisfying the declarative reading give the groups `findall` returns */
  lemma FindAllOfScan(s: string, r: seq<Span>)
    requires IsScan(s, 0, r)
    ensures FindAll(s) == Groups(s, r)
  {
    ScanUnique(s, 0, r, ScanFrom(s, 0));
  }

  /** Messages laid side by side without a common root are all found, in order */
  lemma FindAllBracketed(s: string, gs: seq<string>)
    requires s == Bracketed(gs)
    requires forall i :: 0 <= i < |gs| ==> NoTagStart(gs[i])
    ensures FindAll(s) == gs
  {
    var r := BracketedScan(s, gs);
    FindAllIs(s, r, gs);
  }

  /** `r` satisfies the declarative reading from the start of `s`, and its groups are `gs` */
  ghost predicate ScansTo(s: string, r: seq<Span>, gs: seq<string>) {
    IsScan(s, 0, r) && GroupsAre(s, r, gs)
  }

  lemma BracketedScan(s: string, gs: seq<string>) returns (r: seq<Span>)
    requires s == Bracketed(gs)
    requires forall i :: 0 <= i < |gs| ==> NoTagStart(gs[i])
    ensures ScansTo(s, r, gs)
  {
    assert s == [] + Bracketed(gs);
    r := ScanBracketed(s, [], gs);
  }

  /** Spans satisfying the declarative reading, with groups `gs`, make `gs` what `findall` returns */
  lemma FindAllIs(s: string, r: seq<Span>, gs: seq<string>)
    requires ScansTo(s, r, gs)
    ensures FindAll(s) == gs
  {
    FindAllOfScan(s, r);
    assert Groups(s, r) == gs;
  }
}
