/**
 * `findall` of the fenced-block pattern ```` ```(?:xml)?\s*((?:<[\s\S]*?>)[\s\S]*?(?:<\/[\s\S]*?>))``` ````,
 * the extractor's first strategy. At a position holding three backticks the pattern skips an
 * optional `xml` tag and the whitespace after it; the block must then start with `<`. Its three
 * lazy parts each stop at the first place that lets the rest succeed, which for this pattern is
 * simply the first `>` after the `<`, then the first `</` after that, then the first `>` that
 * is immediately followed by three backticks. Backtracking over the optional tag or over the
 * whitespace cannot help: every shorter choice leaves a character other than `<` in front.
 */
module FencedBlocks {
  import opened Wrappers
  import opened Strings

  const Fence := "```"
  const Lang := "xml"
  const EndTag := "</"
  /** The last `>` of a block together with the closing fence right after it */
  const FenceEnd := ">```"

  /**
   * One match: the fence at `fence`, the block `[start, end)`, the first `>` of the block at
   * `close`, the first `</` after it at `tag`; the search resumes at `end + |Fence|`.
   */
  datatype Block = Block(fence: nat, start: nat, close: nat, tag: nat, end: nat)

  /** Past the fence at `p` and the `xml` tag right after it, if there is one */
  function LangEnd(s: string, p: nat): (b: nat)
    requires OccursAt(s, Fence, p)
    ensures p + |Fence| <= b <= |s|
    ensures b == p + |Fence| + |Lang| <==> OccursAt(s, Lang, p + |Fence|)
  {
    if OccursAt(s, Lang, p + |Fence|) then p + |Fence| + |Lang| else p + |Fence|
  }

  /** Where the block begins after the fence at `p`: past an optional `xml` and then all whitespace */
  function ContentStart(s: string, p: nat): (a: nat)
    requires OccursAt(s, Fence, p)
    ensures LangEnd(s, p) <= a <= |s|
    ensures AllSpace(s[LangEnd(s, p)..a])
    ensures a == |s| || !IsSpace(s[a])
  {
    SkipSpace(s, LangEnd(s, p))
  }

  /** The pattern's group matches from `a` with its three lazy parts ending at `x`, `y` and `g` */
  predicate GroupAt(s: string, a: int, x: int, y: int, g: int) {
    && 0 <= a < x < y && y + |EndTag| <= g && x < |s|
    && s[a] == '<' && s[x] == '>'
    && OccursAt(s, EndTag, y) && OccursAt(s, FenceEnd, g)
  }

  /** No character `c` in `s[from..to]` */
  predicate NoCharIn(s: string, c: char, from: int, to: int) {
    forall j :: from <= j < to && 0 <= j < |s| ==> s[j] != c
  }

  predicate NoneIn(s: string, pat: string, from: int, to: int) {
    forall j :: from <= j < to ==> !OccursAt(s, pat, j)
  }

  /** `b` is the match the engine reports for the fence at `p` */
  predicate IsBlockAt(s: string, p: int, b: Block) {
    && OccursAt(s, Fence, p) && b.fence == p && b.start == ContentStart(s, p)
    && GroupAt(s, b.start, b.close, b.tag, b.end - 1)
    && NoCharIn(s, '>', b.start + 1, b.close)
    && NoneIn(s, EndTag, b.close + 1, b.tag)
    && NoneIn(s, FenceEnd, b.tag + |EndTag|, b.end - 1)
  }

  /** The pattern tried at position `p`: the match there, if there is one */
  function MatchAt(s: string, p: nat): (r: Option<Block>)
    ensures r.Some? ==> IsBlockAt(s, p, r.value)
    ensures r.None? && OccursAt(s, Fence, p) ==>
      forall x, y, g :: !GroupAt(s, ContentStart(s, p), x, y, g)
    ensures r.None? <== !OccursAt(s, Fence, p)
  {
    if !OccursAt(s, Fence, p) then None
    else
      var a := ContentStart(s, p);
      if a == |s| || s[a] != '<' then None
      else match IndexOfChar(s, '>', a + 1)
        case None => None
        case Some(x) =>
          match FindFrom(s, EndTag, x + 1)
          case None =>
            assert forall x', y, g :: GroupAt(s, a, x', y, g) ==> x <= x';
            None
          case Some(y) =>
            match FindFrom(s, FenceEnd, y + |EndTag|)
            case None =>
              assert forall x', y', g :: GroupAt(s, a, x', y', g) ==> x <= x' && y <= y';
              None
            case Some(g) => Some(Block(p, a, x, y, g + 1))
  }

  /** No match starts in `[from, to)` */
  ghost predicate NoMatchIn(s: string, from: int, to: int) {
    forall q: nat :: from <= q < to ==> MatchAt(s, q).None?
  }

  /** Block `b` is the first match found when the search resumes at `from` */
  ghost predicate FirstAfter(s: string, from: int, b: Block) {
    from <= b.fence && NoMatchIn(s, from, b.fence)
  }

  /** Each block is the first match found when the search resumes after the one before it */
  ghost predicate Chained(s: string, pos: int, r: seq<Block>) {
    && (r != [] ==> FirstAfter(s, pos, r[0]))
    && (forall i :: 0 < i < |r| ==> FirstAfter(s, Next(r[i - 1]), r[i]))
  }

  /** Where the search resumes after the blocks `r`, when it started at `pos` */
  function Resume(pos: int, r: seq<Block>): int {
    if r == [] then pos else Next(r[|r| - 1])
  }

  /** Where the search resumes after block `b` */
  function Next(b: Block): int {
    b.end + |Fence|
  }

  ghost predicate AllBlocks(s: string, r: seq<Block>) {
    forall i :: 0 <= i < |r| ==> IsBlockAt(s, r[i].fence, r[i])
  }

  /**
   * The declarative reading of `findall` from `pos`: every entry is the match at its fence,
   * each fence is the first one after the previous match that matches, and no fence after the
   * last match matches.
   */
  ghost predicate IsScan(s: string, pos: int, r: seq<Block>) {
    AllBlocks(s, r) && Chained(s, pos, r) && NoMatchIn(s, Resume(pos, r), |s| + 1)
  }

  function ScanFrom(s: string, pos: nat): (r: seq<Block>)
    requires pos <= |s|
    ensures IsScan(s, pos, r)
    decreases |s| - pos
  {
    if pos == |s| then
      assert !OccursAt(s, Fence, pos);
      []
    else match MatchAt(s, pos)
      case Some(b) =>
        var rest := ScanFrom(s, Next(b));
        ScanCons(s, pos, b, rest);
        [b] + rest
      case None =>
        var rest := ScanFrom(s, pos + 1);
        ScanSkip(s, pos, rest);
        rest
  }

  lemma ScanCons(s: string, pos: int, b: Block, rest: seq<Block>)
    requires IsBlockAt(s, pos, b)
    requires IsScan(s, Next(b), rest)
    ensures IsScan(s, pos, [b] + rest)
  {
    ConsBlocks(s, b, rest);
    ConsChained(s, pos, b, rest);
    assert Resume(pos, [b] + rest) == Resume(Next(b), rest);
  }

  lemma ConsBlocks(s: string, b: Block, rest: seq<Block>)
    requires IsBlockAt(s, b.fence, b) && AllBlocks(s, rest)
    ensures AllBlocks(s, [b] + rest)
  {
    var r := [b] + rest;
    forall i | 0 <= i < |r| ensures IsBlockAt(s, r[i].fence, r[i]) {
      if i > 0 { assert r[i] == rest[i - 1]; }
    }
  }

  lemma ConsChained(s: string, pos: int, b: Block, rest: seq<Block>)
    requires FirstAfter(s, pos, b) && Chained(s, Next(b), rest)
    ensures Chained(s, pos, [b] + rest)
  {
    var r := [b] + rest;
    forall i | 0 < i < |r| ensures FirstAfter(s, Next(r[i - 1]), r[i]) {
      assert r[i] == rest[i - 1];
      if i > 1 { assert r[i - 1] == rest[i - 2]; }
    }
  }

  lemma ScanSkip(s: string, pos: nat, rest: seq<Block>)
    requires MatchAt(s, pos).None?
    requires IsScan(s, pos + 1, rest)
    ensures IsScan(s, pos, rest)
  {
    if rest == [] {
      NoMatchExtend(s, pos, |s| + 1);
    } else {
      NoMatchExtend(s, pos, rest[0].fence);
    }
  }

  /** A position without a match widens a range without one */
  lemma NoMatchExtend(s: string, from: nat, to: int)
    requires MatchAt(s, from).None? && NoMatchIn(s, from + 1, to)
    ensures NoMatchIn(s, from, to)
  {
  }

  /** The blocks of a sequence of matches */
  function Texts(s: string, r: seq<Block>): (ts: seq<string>)
    requires AllBlocks(s, r)
    ensures |ts| == |r|
    ensures forall i :: 0 <= i < |r| ==> 0 <= r[i].start < r[i].end <= |s| && ts[i] == s[r[i].start..r[i].end]
  {
    if r == [] then []
    else
      assert IsBlockAt(s, r[0].fence, r[0]);
      BlockBounds(s, r[0]);
      [s[r[0].start..r[0].end]] + Texts(s, r[1..])
  }

  lemma BlockBounds(s: string, b: Block)
    requires IsBlockAt(s, b.fence, b)
    ensures 0 <= b.start < b.end <= |s|
  {
  }

  /** `xml_block_pattern.findall(s)` */
  function FencedBlocks(s: string): seq<string>
  {
    Texts(s, ScanFrom(s, 0))
  }

  /** The shape every block has: a tag, at least one closing tag after it, and a final `>` */
  ghost predicate LooksLikeMarkup(t: string) {
    && |t| >= 4 && t[0] == '<' && t[|t| - 1] == '>'
    && exists x, y :: 0 < x < y && y + |EndTag| < |t| && t[x] == '>' && OccursAt(t, EndTag, y)
  }

  lemma BlockShape(s: string, b: Block)
    requires IsBlockAt(s, b.fence, b)
    ensures LooksLikeMarkup(s[b.start..b.end])
    ensures OccursAt(s, s[b.start..b.end] + Fence, b.start)
    ensures OccursAt(s[..b.start], Fence, b.fence)
  {
    BlockIsMarkup(s, b);
    BlockBeforeFence(s, b);
    assert s[..b.start][b.fence..b.fence + |Fence|] == s[b.fence..b.fence + |Fence|];
  }

  lemma BlockIsMarkup(s: string, b: Block)
    requires IsBlockAt(s, b.fence, b)
    ensures LooksLikeMarkup(s[b.start..b.end])
  {
    var t := s[b.start..b.end];
    var x, y := b.close - b.start, b.tag - b.start;
    assert t[x] == s[b.close];
    assert t[y..y + |EndTag|] == s[b.tag..b.tag + |EndTag|];
    assert t[|t| - 1] == s[b.end - 1];
    assert OccursAt(t, EndTag, y);
  }

  lemma BlockBeforeFence(s: string, b: Block)
    requires IsBlockAt(s, b.fence, b)
    ensures OccursAt(s, s[b.start..b.end] + Fence, b.start)
  {
    var t := s[b.start..b.end];
    assert OccursAt(s, FenceEnd, b.end - 1);
    assert s[b.end..b.end + |Fence|] == s[b.end - 1..b.end - 1 + |FenceEnd|][1..];
    assert s[b.start..b.end + |Fence|] == t + s[b.end..b.end + |Fence|];
  }

  /**
   * Every fenced block starts with `<`, ends with `>`, holds a closing tag after its first
   * tag, and stands in the text right before a closing fence, after an opening one.
   */
  lemma BlocksAreFenced(s: string, i: int)
    requires 0 <= i < |FencedBlocks(s)|
    ensures LooksLikeMarkup(FencedBlocks(s)[i])
    ensures exists a :: OccursAt(s, FencedBlocks(s)[i] + Fence, a) && Contains(s[..a], Fence)
  {
    var r := ScanFrom(s, 0);
    var b := r[i];
    assert IsBlockAt(s, b.fence, b);
    var t := FencedBlocks(s)[i];
    assert t == s[b.start..b.end];
    BlockShape(s, b);
    assert OccursAt(s, t + Fence, b.start) && Contains(s[..b.start], Fence);
  }

  /** The blocks lie in the text in order and do not overlap */
  lemma BlocksInOrder(s: string, i: int)
    requires 0 < i < |ScanFrom(s, 0)|
    ensures ScanFrom(s, 0)[i - 1].end + |Fence| <= ScanFrom(s, 0)[i].fence
  {
  }

  /** Text without a `>` directly followed by three backticks has no fenced block */
  lemma NoFenceEndNoBlocks(s: string)
    requires !Contains(s, FenceEnd)
    ensures FencedBlocks(s) == []
  {
  }

  /** Text without three backticks has no fenced block */
  lemma NoFenceNoBlocks(s: string)
    requires !Contains(s, Fence)
    ensures FencedBlocks(s) == []
  {
  }
}
