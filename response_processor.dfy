/**
 * `ResponseProcessor`: recovers the user-facing messages from a model's free-form output.
 * Three strategies run in a fixed order: the markup inside fenced blocks, a structured parse of
 * the whole text, and the bare `<Message>` pattern over the whole text. The first strategy
 * whose list of items is non-empty wins; its items are trimmed, blank ones dropped, and the
 * rest joined with newlines.
 *
 * The XML parser is the parameter `parse` (`ET.fromstring`): it returns the document element,
 * or `None` where ElementTree raises `ParseError`.
 */
module ResponseProcessor {
  import opened Wrappers
  import opened Strings
  import opened XmlTree
  import MP = MessagePattern
  import FB = FencedBlocks

  type Parser = string -> Option<Element>

  const RootOpen := "<Response>"
  const RootClose := "</Response>"
  const RootTag := "Response"

  /** The synthetic root element around `s` */
  function Wrap(s: string): string {
    RootOpen + s + RootClose
  }

  /** `[\w:]` on ASCII text */
  predicate IsNameChar(c: char) {
    ('a' <= c <= 'z') || ('A' <= c <= 'Z') || ('0' <= c <= '9') || c == '_' || c == ':'
  }

  /** `[\w:]+` */
  predicate IsName(n: string) {
    |n| >= 1 && forall i :: 0 <= i < |n| ==> IsNameChar(n[i])
  }

  /**
   * The single-root test of `_ensure_root_node`, computed: a name right after the leading `<`,
   * a closing tag `</name>` at the very end, and the first `>` before that closing tag's `<`.
   */
  predicate LooksLikeSingleRoot(s: string) {
    && |s| >= 2 && s[0] == '<' && IsNameChar(s[1]) && s[|s| - 1] == '>'
    && match (IndexOfChar(s, '>', 1), LastIndexOfChar(s, '<'))
       case (Some(k), Some(j)) => k < j && j + 3 < |s| && s[j + 1] == '/' && IsName(s[j + 2..|s| - 1])
       case _ => false
  }

  /** A text of the form `<` name rest `>` middle `</` name2 `>` */
  function Shape(n1: string, r1: string, mid: string, n2: string): string {
    "<" + n1 + r1 + ">" + mid + "</" + n2 + ">"
  }

  /**
   * What `^\s*<[\w:]+[^>]*>.*</[\w:]+>\s*$` (with DOTALL) accepts on stripped text: an opening
   * tag whose name is followed by anything but `>`, then anything, then a closing tag.
   * The two names are not compared.
   */
  ghost predicate MatchesRootPattern(s: string) {
    exists n1, r1, mid, n2 :: IsName(n1) && '>' !in r1 && IsName(n2) && s == Shape(n1, r1, mid, n2)
  }

  lemma ShapeParts(n1: string, r1: string, mid: string, n2: string)
    requires IsName(n1) && '>' !in r1 && IsName(n2)
    ensures LooksLikeSingleRoot(Shape(n1, r1, mid, n2))
  {
    var s := Shape(n1, r1, mid, n2);
    var k := 1 + |n1| + |r1|;
    var j := k + 1 + |mid|;
    ShapeLayout(n1, r1, mid, n2);
    NameLacks(n1);
    NameLacks(n2);
    FirstCharAt(s, '>', 1, k);
    LastCharAt(s, '<', j);
  }

  /** Where the pieces of a `Shape` lie */
  lemma ShapeLayout(n1: string, r1: string, mid: string, n2: string)
    ensures var s := Shape(n1, r1, mid, n2); var k := 1 + |n1| + |r1|; var j := k + 1 + |mid|;
      && |s| == j + 3 + |n2| && s[0] == '<' && s[1..k] == n1 + r1 && s[k] == '>'
      && s[j] == '<' && s[j + 1..] == "/" + n2 + ">" && s[j + 2..|s| - 1] == n2
  {
    var s := Shape(n1, r1, mid, n2);
    assert s == "<" + (n1 + r1) + (">" + mid) + ("<" + ("/" + n2 + ">"));
  }

  /** A name holds neither `<` nor `>` */
  lemma NameLacks(n: string)
    requires IsName(n)
    ensures '<' !in n && '>' !in n && n[0] != '>'
  {
  }

  /** The leftmost `c` at or after `from` is at `k` */
  lemma FirstCharAt(s: string, c: char, from: nat, k: nat)
    requires from <= k < |s| && s[k] == c && c !in s[from..k]
    ensures IndexOfChar(s, c, from) == Some(k)
  {
    forall i | from <= i < k ensures s[i] != c {
      assert s[i] == s[from..k][i - from];
    }
  }

  /** The rightmost `c` is at `k` */
  lemma LastCharAt(s: string, c: char, k: nat)
    requires k < |s| && s[k] == c && c !in s[k + 1..]
    ensures LastIndexOfChar(s, c) == Some(k)
  {
    forall i | k < i < |s| ensures s[i] != c {
      assert s[i] == s[k + 1..][i - k - 1];
    }
  }

  lemma RootPatternParts(s: string)
    requires LooksLikeSingleRoot(s)
    ensures MatchesRootPattern(s)
  {
    var k := IndexOfChar(s, '>', 1).value;
    var j := LastIndexOfChar(s, '<').value;
    var n1, r1, mid, n2 := s[1..2], s[2..k], s[k + 1..j], s[j + 2..|s| - 1];
    NoneBefore(s, '>', 2, k);
    ShapeOfParts(s, k, j);
    assert IsName(n1);
  }

  lemma NoneBefore(s: string, c: char, from: nat, k: nat)
    requires from <= k <= |s| && forall i :: from <= i < k ==> s[i] != c
    ensures c !in s[from..k]
  {
  }

  /** A text cut at its first `>` and at its last `<` is a `Shape` of its pieces */
  lemma ShapeOfParts(s: string, k: int, j: int)
    requires 1 < k < j && j + 3 < |s| && s[0] == '<' && s[k] == '>' && s[j] == '<' && s[j + 1] == '/' && s[|s| - 1] == '>'
    ensures s == Shape(s[1..2], s[2..k], s[k + 1..j], s[j + 2..|s| - 1])
  {
    assert s == s[..1] + s[1..2] + s[2..k] + s[k..k + 1] + s[k + 1..j] + s[j..j + 2] + s[j + 2..|s| - 1] + s[|s| - 1..];
    assert s[..1] == "<" && s[k..k + 1] == ">" && s[j..j + 2] == "</" && s[|s| - 1..] == ">";
  }

  /** The computed test decides exactly the regex at processors/response_processor.py:80 */
  lemma LooksLikeSingleRootIff(s: string)
    ensures LooksLikeSingleRoot(s) <==> MatchesRootPattern(s)
  {
    if LooksLikeSingleRoot(s) {
      RootPatternParts(s);
    }
    if MatchesRootPattern(s) {
      var n1, r1, mid, n2 :| IsName(n1) && '>' !in r1 && IsName(n2) && s == Shape(n1, r1, mid, n2);
      ShapeParts(n1, r1, mid, n2);
    }
  }

  /** `_ensure_root_node`: the stripped text, wrapped in `<Response>` unless it already has one root */
  function EnsureRootNode(x: string): (r: string)
    ensures Strip(x) == [] || Strip(x)[0] != '<' ==> r == Wrap(Strip(x))
    ensures LooksLikeSingleRoot(Strip(x)) ==> r == Strip(x)
    ensures !LooksLikeSingleRoot(Strip(x)) ==> r == Wrap(Strip(x))
    ensures |r| >= 2 && r[0] == '<' && r[|r| - 1] == '>'
  {
    var s := Strip(x);
    if s == [] || s[0] != '<' then Wrap(s)
    else if LooksLikeSingleRoot(s) then s
    else Wrap(s)
  }

  lemma RootTagIsName(n: string)
    requires n == RootTag
    ensures IsName(n)
  {
    assert forall i | 0 <= i < |n| :: IsNameChar(n[i]);
  }

  /** The synthetic wrapping always passes the single-root test */
  lemma WrapLooksLikeSingleRoot(s: string)
    ensures LooksLikeSingleRoot(Wrap(s))
  {
    RootTagIsName(RootTag);
    assert Wrap(s) == Shape(RootTag, "", s, RootTag);
    ShapeParts(RootTag, "", s, RootTag);
  }

  /** Normalising twice is normalising once: the output is stripped and has a single root */
  lemma EnsureRootNodeIdempotent(x: string)
    ensures EnsureRootNode(EnsureRootNode(x)) == EnsureRootNode(x)
  {
    var r := EnsureRootNode(x);
    if !LooksLikeSingleRoot(Strip(x)) {
      WrapLooksLikeSingleRoot(Strip(x));
    }
    assert LooksLikeSingleRoot(r);
    RootedIsKept(r);
  }

  /** Stripped text with a single root is left as it is */
  lemma RootedIsKept(s: string)
    requires LooksLikeSingleRoot(s)
    ensures EnsureRootNode(s) == s
  {
    assert IsStripped(s);
    StripStripped(s);
  }

  /** What `_extract_messages_from_xml(x)` returns */
  function XmlMessages(parse: Parser, x: string): seq<string>
  {
    match parse(EnsureRootNode(x))
    case Some(root) => NonEmptyTexts(MessageElements(root))
    case None => MP.FindAll(x)
  }

  /**
   * On a successful parse the items are exactly the truthy texts of the `Message` elements
   * below the root; on a parse error they are the `<Message>` matches of the unwrapped argument.
   */
  lemma XmlMessagesCases(parse: Parser, x: string)
    ensures parse(EnsureRootNode(x)).None? ==> XmlMessages(parse, x) == MP.FindAll(x)
    ensures parse(EnsureRootNode(x)).Some? ==>
      var root := parse(EnsureRootNode(x)).value;
      forall t :: t in XmlMessages(parse, x) <==>
        exists e :: e in Descendants(root) && e.tag == MessageTag && HasText(e) && e.text.value == t
  {
    match parse(EnsureRootNode(x))
    case None =>
    case Some(root) =>
      NonEmptyTextsMembers(MessageElements(root));
  }

  /** `_extract_messages_from_xml` */
  method ExtractMessagesFromXml(parse: Parser, xmlText: string) returns (messages: seq<string>)
    ensures messages == XmlMessages(parse, xmlText)
  {
    var cleanXml := EnsureRootNode(xmlText);
    match parse(cleanXml)
    case None =>
      messages := MP.FindAll(xmlText);
    case Some(root) =>
      messages := [];
      var elements := MessageElements(root);
      if elements != [] {
        for i := 0 to |elements|
          invariant messages == NonEmptyTexts(elements[..i])
        {
          NonEmptyTextsStep(elements, i);
          if HasText(elements[i]) {
            messages := messages + [elements[i].text.value];
          }
        }
        assert elements[..|elements|] == elements;
      }
  }

  /** A parser that reads a bare `<Message>` element as the root: its own text is not collected */
  lemma RootMessageIgnored(parse: Parser, x: string, t: Option<string>)
    requires parse(EnsureRootNode(x)) == Some(Element(MessageTag, t, []))
    ensures XmlMessages(parse, x) == []
  {
    ChildlessRootHasNoMessages(Element(MessageTag, t, []));
  }

  /** The items from the fenced blocks `bs`, concatenated in block order */
  function BlockMessages(parse: Parser, bs: seq<string>): seq<string>
  {
    if bs == [] then []
    else BlockMessages(parse, bs[..|bs| - 1]) + XmlMessages(parse, bs[|bs| - 1])
  }

  /** The items of the first strategy whose list is non-empty, before trimming */
  function Extracted(parse: Parser, response: string): seq<string>
  {
    var fenced := BlockMessages(parse, FB.FencedBlocks(response));
    if fenced != [] then fenced
    else
      var whole := XmlMessages(parse, response);
      if whole != [] then whole else MP.FindAll(response)
  }

  /** `[msg.strip() for msg in messages if msg.strip()]` */
  function Cleaned(ms: seq<string>): (r: seq<string>)
    ensures |r| <= |ms|
    ensures forall i :: 0 <= i < |r| ==> r[i] != [] && IsStripped(r[i])
  {
    if ms == [] then [] else Kept(ms[0]) + Cleaned(ms[1..])
  }

  /** What the comprehension keeps of one item */
  function Kept(m: string): (r: seq<string>)
    ensures |r| <= 1
    ensures forall i :: 0 <= i < |r| ==> r[i] != [] && IsStripped(r[i])
  {
    if Strip(m) != [] then [Strip(m)] else []
  }

  /** The kept items are exactly the non-empty trimmings of the collected ones */
  lemma {:induction false} CleanedMembers(ms: seq<string>)
    ensures forall t :: t in Cleaned(ms) <==> exists m :: m in ms && Strip(m) == t && t != []
  {
    if ms != [] {
      CleanedMembers(ms[1..]);
      assert ms == [ms[0]] + ms[1..];
    }
  }

  /** Trimming works item by item, so it distributes over concatenation */
  lemma {:induction false} CleanedAppend(a: seq<string>, b: seq<string>)
    ensures Cleaned(a + b) == Cleaned(a) + Cleaned(b)
  {
    if a == [] {
      assert a + b == b;
    } else {
      assert (a + b)[0] == a[0] && (a + b)[1..] == a[1..] + b;
      CleanedAppend(a[1..], b);
      assert Kept(a[0]) + (Cleaned(a[1..]) + Cleaned(b)) == (Kept(a[0]) + Cleaned(a[1..])) + Cleaned(b);
    }
  }

  /** Whitespace-only items vanish */
  lemma {:induction false} CleanedAllBlank(ms: seq<string>)
    requires forall i :: 0 <= i < |ms| ==> AllSpace(ms[i])
    ensures Cleaned(ms) == []
  {
    if ms != [] {
      StripEmptyIff(ms[0]);
      CleanedAllBlank(ms[1..]);
    }
  }

  /** Items that are already trimmed and non-empty are kept as they are */
  lemma {:induction false} CleanedKeepsTrimmed(ms: seq<string>)
    requires forall i :: 0 <= i < |ms| ==> ms[i] != [] && IsStripped(ms[i])
    ensures Cleaned(ms) == ms
  {
    if ms != [] {
      StripStripped(ms[0]);
      CleanedKeepsTrimmed(ms[1..]);
    }
  }

  /** The text `process_response` returns */
  function Processed(parse: Parser, response: string): string
  {
    Join("\n", Cleaned(Extracted(parse, response)))
  }

  /** `process_response` */
  method ProcessResponse(parse: Parser, response: string) returns (r: string)
    ensures r == Processed(parse, response)
  {
    var xmlBlocks := FB.FencedBlocks(response);
    var messages: seq<string> := [];
    if xmlBlocks != [] {
      for i := 0 to |xmlBlocks|
        invariant messages == BlockMessages(parse, xmlBlocks[..i])
      {
        BlockMessagesStep(parse, xmlBlocks, i);
        var blockMessages := ExtractMessagesFromXml(parse, xmlBlocks[i]);
        if blockMessages != [] {
          messages := messages + blockMessages;
        }
      }
      assert xmlBlocks[..|xmlBlocks|] == xmlBlocks;
    }
    StrategyOrder(parse, response);
    if messages == [] {
      messages := ExtractMessagesFromXml(parse, response);
    }
    if messages == [] {
      messages := MP.FindAll(response);
    }
    r := Join("\n", Cleaned(messages));
  }

  lemma BlockMessagesStep(parse: Parser, bs: seq<string>, i: int)
    requires 0 <= i < |bs|
    ensures BlockMessages(parse, bs[..i + 1]) == BlockMessages(parse, bs[..i]) + XmlMessages(parse, bs[i])
  {
    assert bs[..i + 1][..i] == bs[..i];
  }

  /**
   * Strategy order: the fenced blocks' items win when there are any; the whole-text parse is
   * used only when they are none, and the bare pattern only when that is empty too.
   */
  lemma StrategyOrder(parse: Parser, response: string)
    ensures BlockMessages(parse, FB.FencedBlocks(response)) != [] ==>
      Extracted(parse, response) == BlockMessages(parse, FB.FencedBlocks(response))
    ensures BlockMessages(parse, FB.FencedBlocks(response)) == [] ==>
      Extracted(parse, response) == (if XmlMessages(parse, response) != [] then XmlMessages(parse, response)
                                     else MP.FindAll(response))
    ensures Extracted(parse, response) == [] <==>
      BlockMessages(parse, FB.FencedBlocks(response)) == [] && XmlMessages(parse, response) == []
      && MP.FindAll(response) == []
  {
  }

  /** The result lists the trimmed, non-blank items, newline-joined; it is empty exactly when none is left */
  lemma ProcessedIsJoinOfTrimmed(parse: Parser, response: string)
    ensures Processed(parse, response) == [] <==> Cleaned(Extracted(parse, response)) == []
  {
    JoinEmptyIff("\n", Cleaned(Extracted(parse, response)));
  }

  /**
   * Fall-through is decided before trimming: fenced blocks whose items are all whitespace stop
   * the later strategies, and the result is empty.
   */
  lemma BlankFencedItemsGiveEmpty(parse: Parser, response: string)
    requires BlockMessages(parse, FB.FencedBlocks(response)) != []
    requires forall i :: 0 <= i < |BlockMessages(parse, FB.FencedBlocks(response))| ==>
      AllSpace(BlockMessages(parse, FB.FencedBlocks(response))[i])
    ensures Processed(parse, response) == ""
  {
    CleanedAllBlank(BlockMessages(parse, FB.FencedBlocks(response)));
  }

  /** Blocks yielding nothing add nothing */
  lemma {:induction false} SilentBlocks(parse: Parser, bs: seq<string>)
    requires forall i :: 0 <= i < |bs| ==> XmlMessages(parse, bs[i]) == []
    ensures BlockMessages(parse, bs) == []
  {
    if bs != [] {
      SilentBlocks(parse, bs[..|bs| - 1]);
    }
  }

  /**
   * A fenced block that is one bare `<Message>` element passes the single-root test, so it is
   * parsed with that element as the root, and `.//Message` looks only below the root: such
   * blocks contribute nothing and the whole text decides the result.
   */
  lemma FencedBareMessagesFallThrough(parse: Parser, response: string)
    requires forall i :: 0 <= i < |FB.FencedBlocks(response)| ==>
      exists t :: parse(EnsureRootNode(FB.FencedBlocks(response)[i])) == Some(Element(MessageTag, t, []))
    ensures Extracted(parse, response)
        == (if XmlMessages(parse, response) != [] then XmlMessages(parse, response) else MP.FindAll(response))
  {
    var bs := FB.FencedBlocks(response);
    forall i | 0 <= i < |bs| ensures XmlMessages(parse, bs[i]) == [] {
      var t :| parse(EnsureRootNode(bs[i])) == Some(Element(MessageTag, t, []));
      RootMessageIgnored(parse, bs[i], t);
    }
    SilentBlocks(parse, bs);
  }

  /** `if not user_message.strip(): user_message = raw_response` in the caller */
  function ReplyOrRaw(raw: string, extracted: string): (r: string)
    ensures AllSpace(extracted) ==> r == raw
    ensures !AllSpace(extracted) ==> r == extracted
  {
    StripEmptyIff(extracted);
    if Strip(extracted) == [] then raw else extracted
  }
}
