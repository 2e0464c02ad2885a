/**
 * The extractor on representative inputs. Each lemma fixes the input text and, where
 * the outcome depends on it, what ElementTree returns for the text handed to it.
 */
module ExtractionExamples {
  import opened Wrappers
  import opened Strings
  import opened XmlTree
  import opened ResponseProcessor
  import MP = MessagePattern
  import FB = FencedBlocks

  /** Text without a backtick has no fenced block */
  lemma NoBacktickNoBlocks(s: string)
    requires NoChar(s, '`')
    ensures FB.FencedBlocks(s) == []
  {
    forall i ensures !OccursAt(s, FB.Fence, i) {
      if 0 <= i && i + |FB.Fence| <= |s| {
        assert s[i..i + |FB.Fence|][0] == s[i];
      }
    }
    FB.NoFenceNoBlocks(s);
  }

  /** Text without a `/` has no `<Message>` match */
  lemma NoSlashNoMatch(s: string)
    requires NoChar(s, '/')
    ensures MP.FindAll(s) == []
  {
    forall i ensures !OccursAt(s, MP.Close, i) {
      if 0 <= i && i + |MP.Close| <= |s| {
        assert s[i..i + |MP.Close|][1] == s[i + 1];
        assert MP.Close[1] == '/';
      }
    }
    MP.NoCloseNoMatch(s);
  }

  /** Text without a `/` has no closing tag at its end, so it is wrapped */
  lemma NoSlashIsWrapped(s: string)
    requires NoChar(s, '/')
    ensures !LooksLikeSingleRoot(s)
  {
  }

  /** Helper for the examples: the tags hold no backtick, and the opening tags no `/` */
  lemma TagsHaveNo(c: char)
    requires c == '`' || c == '/'
    ensures NoChar(MP.Open, c) && NoChar(RootOpen, c)
    ensures c == '`' ==> NoChar(MP.Close, c) && NoChar(RootClose, c)
  {
    assert forall k | 0 <= k < |MP.Open| :: MP.Open[k] != c;
    assert forall k | 0 <= k < |RootOpen| :: RootOpen[k] != c;
    assert forall k | 0 <= k < |MP.Close| :: c == '`' ==> MP.Close[k] != c;
    assert forall k | 0 <= k < |RootClose| :: c == '`' ==> RootClose[k] != c;
  }

  lemma MessageTagIsName(n: string)
    requires n == MessageTag
    ensures IsName(n)
  {
    assert forall i | 0 <= i < |n| :: IsNameChar(n[i]);
  }

  /** Side-by-side `<Message>` elements pass the single-root test, so they are not wrapped */
  lemma SiblingsNotWrapped(s: string, gs: seq<string>)
    requires s == MP.Bracketed(gs) && |gs| >= 1
    ensures LooksLikeSingleRoot(s) && EnsureRootNode(s) == s
  {
    MessageTagIsName(MessageTag);
    var mid := BracketedShape(s, gs);
    ShapeParts(MessageTag, "", mid, MessageTag);
    RootedIsKept(s);
  }

  lemma BracketedShape(s: string, gs: seq<string>) returns (mid: string)
    requires s == MP.Bracketed(gs) && |gs| >= 1
    ensures s == Shape(MessageTag, "", mid, MessageTag)
  {
    BracketedEnd(gs);
    mid := s[|MP.Open|..|s| - |MP.Close|];
    assert s == MP.Open + mid + MP.Close;
    MessageShape(mid);
  }

  /** `<Message>` mid `</Message>` is the shape the root pattern looks for */
  lemma MessageShape(mid: string)
    ensures Shape(MessageTag, "", mid, MessageTag) == MP.Open + mid + MP.Close
  {
    assert MP.Open == "<" + MessageTag + "" + ">";
    assert MP.Close == "</" + MessageTag + ">";
  }

  lemma {:induction false} BracketedEnd(gs: seq<string>)
    requires |gs| >= 1
    ensures |MP.Bracketed(gs)| >= |MP.Open| + |MP.Close|
    ensures MP.Bracketed(gs)[..|MP.Open|] == MP.Open
    ensures MP.Bracketed(gs)[|MP.Bracketed(gs)| - |MP.Close|..] == MP.Close
  {
    var s := MP.Bracketed(gs);
    assert s == MP.Open + (gs[0] + MP.Close + MP.Bracketed(gs[1..]));
    if |gs| == 1 {
      assert MP.Bracketed(gs[1..]) == [];
      assert s == (MP.Open + gs[0]) + MP.Close;
    } else {
      BracketedEnd(gs[1..]);
      var t := MP.Bracketed(gs[1..]);
      assert s == (MP.Open + gs[0] + MP.Close + t[..|t| - |MP.Close|]) + t[|t| - |MP.Close|..];
    }
  }

  lemma {:induction false} BracketedNoChar(gs: seq<string>, c: char)
    requires NoChar(MP.Open, c) && NoChar(MP.Close, c)
    requires forall i :: 0 <= i < |gs| ==> NoChar(gs[i], c)
    ensures NoChar(MP.Bracketed(gs), c)
  {
    if gs != [] {
      BracketedNoChar(gs[1..], c);
      assert NoChar(gs[0], c);
    }
  }

  /** A message text the two patterns pass over: no `<` and no backtick */
  predicate Plain(g: string) {
    MP.NoTagStart(g) && NoChar(g, '`')
  }

  /** At least one message, every one of them plain */
  predicate PlainTexts(gs: seq<string>) {
    |gs| >= 1 && forall i :: 0 <= i < |gs| ==> Plain(gs[i])
  }

  /**
   * Several `<Message>` elements side by side, with plain texts, on a parser that rejects them
   * as having more than one document element: they are not wrapped, so the parse fails and the
   * pattern over the same text finds every one of them.
   */
  lemma SiblingsViaPattern(parse: Parser, gs: seq<string>)
    ensures PlainTexts(gs) && parse(MP.Bracketed(gs)) == None ==> Extracted(parse, MP.Bracketed(gs)) == gs
  {
    if PlainTexts(gs) {
      SiblingsFacts(gs);
      StrategyOrder(parse, MP.Bracketed(gs));
    }
  }

  /** The text of side-by-side plain messages: no fenced block, kept as it is, every message matched */
  lemma SiblingsFacts(gs: seq<string>)
    requires PlainTexts(gs)
    ensures var x := MP.Bracketed(gs); FB.FencedBlocks(x) == [] && EnsureRootNode(x) == x && MP.FindAll(x) == gs
  {
    BracketedHasNoBlocks(gs);
    SiblingsNotWrapped(MP.Bracketed(gs), gs);
    MP.FindAllBracketed(MP.Bracketed(gs), gs);
  }

  lemma BracketedHasNoBlocks(gs: seq<string>)
    requires PlainTexts(gs)
    ensures FB.FencedBlocks(MP.Bracketed(gs)) == []
  {
    TagsHaveNo('`');
    BracketedNoChar(gs, '`');
    NoBacktickNoBlocks(MP.Bracketed(gs));
  }

  /** `<Message>A</Message><Message>B</Message>` gives `A` and `B`, through the pattern */
  lemma TwoSiblingsExample(parse: Parser, x: string)
    requires x == MP.Bracketed(["A", "B"])
    requires parse(x) == None
    ensures Processed(parse, x) == "A\nB"
  {
    var gs := ["A", "B"];
    PlainAB(gs);
    SiblingsViaPattern(parse, gs);
    CleanedKeepsTrimmed(gs);
    JoinAB(gs);
  }

  /** Helper for `TwoSiblingsExample`: its items are plain and already trimmed */
  lemma PlainAB(gs: seq<string>)
    requires gs == ["A", "B"]
    ensures PlainTexts(gs) && forall i :: 0 <= i < |gs| ==> gs[i] != [] && IsStripped(gs[i])
  {
  }

  /** Helper for `TwoSiblingsExample`: the join of its items */
  lemma JoinAB(gs: seq<string>)
    requires gs == ["A", "B"]
    ensures Join("\n", gs) == "A\nB"
  {
  }

  /** Empty and whitespace-only messages are dropped: `<Message></Message><Message>  </Message><Message>C</Message>` */
  lemma BlankMessagesExample(parse: Parser, x: string)
    requires x == MP.Bracketed(["", "  ", "C"])
    requires parse(x) == None
    ensures Processed(parse, x) == "C"
  {
    var a, b := ["", "  "], ["C"];
    BlankFacts(a, b);
    SiblingsViaPattern(parse, a + b);
    BlankThenKept(a, b);
  }

  /** Helper for `BlankMessagesExample`: its items split into blank ones and trimmed ones */
  lemma BlankFacts(a: seq<string>, b: seq<string>)
    requires a == ["", "  "] && b == ["C"]
    ensures a + b == ["", "  ", "C"] && PlainTexts(a + b)
    ensures forall i :: 0 <= i < |a| ==> AllSpace(a[i])
    ensures forall i :: 0 <= i < |b| ==> b[i] != [] && IsStripped(b[i])
    ensures Join("\n", b) == "C"
  {
    var g := a + b;
    assert forall i :: 0 <= i < |g| ==> Plain(g[i]);
  }

  /** Blank items followed by trimmed non-empty ones: only the latter are kept */
  lemma BlankThenKept(a: seq<string>, b: seq<string>)
    requires forall i :: 0 <= i < |a| ==> AllSpace(a[i])
    requires forall i :: 0 <= i < |b| ==> b[i] != [] && IsStripped(b[i])
    ensures Cleaned(a + b) == b
  {
    CleanedAllBlank(a);
    CleanedKeepsTrimmed(b);
    CleanedAppend(a, b);
  }

  /** The elements `<Message>g</Message>` for each `g` of `gs`, without children */
  function Leaves(gs: seq<string>): (es: seq<Element>)
    ensures |es| == |gs|
    ensures forall i :: 0 <= i < |gs| ==> es[i] == Element(MessageTag, Some(gs[i]), [])
  {
    if gs == [] then [] else [Element(MessageTag, Some(gs[0]), [])] + Leaves(gs[1..])
  }

  lemma {:induction false} ForestOfLeaves(gs: seq<string>)
    ensures Forest(Leaves(gs)) == Leaves(gs)
  {
    if gs != [] {
      ForestOfLeaves(gs[1..]);
      assert Leaves(gs)[1..] == Leaves(gs[1..]);
    }
  }

  lemma {:induction false} LeavesAreMessages(gs: seq<string>)
    ensures WithTag(Leaves(gs), MessageTag) == Leaves(gs)
  {
    if gs != [] {
      LeavesAreMessages(gs[1..]);
      assert Leaves(gs)[1..] == Leaves(gs[1..]);
    }
  }

  /**
   * A document with one root whose children are `Message` elements with non-empty texts:
   * the structured parse of the whole text gives those texts, in order.
   */
  lemma WellFormedDocument(parse: Parser, inner: string, t: Option<string>, gs: seq<string>)
    requires NoChar(inner, '`') && |gs| >= 1
    requires forall i :: 0 <= i < |gs| ==> gs[i] != ""
    requires parse(Wrap(inner)) == Some(Element(RootTag, t, Leaves(gs)))
    ensures Extracted(parse, Wrap(inner)) == gs
  {
    WrappedPlainText(inner);
    LeafTexts(RootTag, t, gs);
    StrategyOrder(parse, Wrap(inner));
  }

  /** A wrapped text without backticks has no fenced block and is kept as it is */
  lemma WrappedPlainText(inner: string)
    requires NoChar(inner, '`')
    ensures FB.FencedBlocks(Wrap(inner)) == [] && EnsureRootNode(Wrap(inner)) == Wrap(inner)
  {
    TagsHaveNo('`');
    WrapNoChar(inner, '`');
    NoBacktickNoBlocks(Wrap(inner));
    WrapLooksLikeSingleRoot(inner);
    RootedIsKept(Wrap(inner));
  }

  lemma WrapNoChar(inner: string, c: char)
    requires NoChar(RootOpen, c) && NoChar(inner, c) && NoChar(RootClose, c)
    ensures NoChar(Wrap(inner), c)
  {
    var x := Wrap(inner);
    forall i | 0 <= i < |x| ensures x[i] != c {
      if i < |RootOpen| {
        assert x[i] == RootOpen[i];
      } else if i < |RootOpen| + |inner| {
        assert x[i] == inner[i - |RootOpen|];
      } else {
        assert x[i] == RootClose[i - |RootOpen| - |inner|];
      }
    }
  }

  /** The texts a root with the leaves `gs` as children gives */
  lemma LeafTexts(tag: string, t: Option<string>, gs: seq<string>)
    requires forall i :: 0 <= i < |gs| ==> gs[i] != ""
    ensures NonEmptyTexts(MessageElements(Element(tag, t, Leaves(gs)))) == gs
  {
    ForestOfLeaves(gs);
    LeavesAreMessages(gs);
    AllTextsKept(Leaves(gs));
  }

  /** `<Response><Message>Hi</Message><Message>Bye</Message></Response>` gives `Hi` and `Bye` */
  lemma WellFormedExample(parse: Parser, x: string)
    requires x == Wrap(MP.Bracketed(["Hi", "Bye"]))
    requires parse(x) == Some(Element(RootTag, None, Leaves(["Hi", "Bye"])))
    ensures Processed(parse, x) == "Hi\nBye"
  {
    var gs := ["Hi", "Bye"];
    HiByeNoBacktick(gs);
    HiByeTrimmed(gs);
    HiByeJoin(gs);
    WellFormedDocument(parse, MP.Bracketed(gs), None, gs);
    CleanedKeepsTrimmed(gs);
  }

  /** Helper for `WellFormedExample`: its items are already trimmed */
  lemma HiByeTrimmed(gs: seq<string>)
    requires gs == ["Hi", "Bye"]
    ensures forall i :: 0 <= i < |gs| ==> gs[i] != [] && IsStripped(gs[i])
  {
  }

  /** Helper for `WellFormedExample`: the join of its items */
  lemma HiByeJoin(gs: seq<string>)
    requires gs == ["Hi", "Bye"]
    ensures Join("\n", gs) == "Hi\nBye"
  {
    assert gs[1..] == ["Bye"];
  }

  /** Helper for `WellFormedExample`: its document holds no backtick */
  lemma HiByeNoBacktick(gs: seq<string>)
    requires gs == ["Hi", "Bye"]
    ensures NoChar(MP.Bracketed(gs), '`')
  {
    TagsHaveNo('`');
    assert forall i :: 0 <= i < |gs| ==> NoChar(gs[i], '`');
    BracketedNoChar(gs, '`');
  }

  /**
   * An unclosed `<Message>Oops<Message>` is wrapped; when the parser rejects the wrapped text,
   * the pattern finds no pair either, and nothing is extracted.
   */
  lemma UnclosedExample(parse: Parser, x: string)
    requires x == MP.Open + "Oops" + MP.Open
    requires parse(Wrap(x)) == None
    ensures Processed(parse, x) == ""
  {
    TagsHaveNo('`');
    TagsHaveNo('/');
    assert NoChar("Oops", '`') && NoChar("Oops", '/');
    assert NoChar(x, '`') && NoChar(x, '/');
    NoBacktickNoBlocks(x);
    assert IsStripped(x);
    StripStripped(x);
    NoSlashIsWrapped(x);
    NoSlashNoMatch(x);
    StrategyOrder(parse, x);
  }
}
