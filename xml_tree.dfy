/**
 * The part of an ElementTree document the extractor looks at: each element's tag, its `.text`
 * (the character data before its first child; absent when there is none) and its children.
 */
module XmlTree {
  import opened Wrappers

  datatype Element = Element(tag: string, text: Option<string>, children: seq<Element>)

  const MessageTag := "Message"

  /** Every element of the forest `es`, in document order (each element before its descendants) */
  function Forest(es: seq<Element>): seq<Element>
    decreases es
  {
    if es == [] then [] else [es[0]] + Forest(es[0].children) + Forest(es[1..])
  }

  /** Document order of two forests side by side is the one followed by the other */
  lemma {:induction false} ForestAppend(a: seq<Element>, b: seq<Element>)
    ensures Forest(a + b) == Forest(a) + Forest(b)
    decreases a
  {
    if a == [] {
      assert a + b == b;
    } else {
      assert (a + b)[0] == a[0];
      assert (a + b)[1..] == a[1..] + b;
      ForestAppend(a[1..], b);
    }
  }

  /** `root.iter()` without `root` itself: what the path step `.//` walks */
  function Descendants(root: Element): seq<Element>
  {
    Forest(root.children)
  }

  /** The elements of `es` whose tag is `tag`, in the order of `es` */
  function WithTag(es: seq<Element>, tag: string): (r: seq<Element>)
    ensures |r| <= |es|
    ensures forall e :: e in r <==> e in es && e.tag == tag
  {
    if es == [] then []
    else (if es[0].tag == tag then [es[0]] else []) + WithTag(es[1..], tag)
  }

  lemma {:induction false} WithTagAppend(a: seq<Element>, b: seq<Element>, tag: string)
    ensures WithTag(a + b, tag) == WithTag(a, tag) + WithTag(b, tag)
  {
    if a == [] {
      assert a + b == b;
    } else {
      assert (a + b)[0] == a[0];
      assert (a + b)[1..] == a[1..] + b;
      WithTagAppend(a[1..], b, tag);
    }
  }

  /** `root.findall('.//Message')`: every `Message` element strictly below `root`, in document order */
  function MessageElements(root: Element): (r: seq<Element>)
    ensures forall e :: e in r <==> e in Descendants(root) && e.tag == MessageTag
  {
    WithTag(Descendants(root), MessageTag)
  }

  /**
   * The path step `.//` never yields the element it starts from: a root element without
   * children yields nothing, even when it is itself a `Message`.
   */
  lemma ChildlessRootHasNoMessages(root: Element)
    requires root.children == []
    ensures MessageElements(root) == []
  {
  }

  /** Messages nested in successive children are found child by child, in order */
  lemma MessagesOfChildren(tag: string, text: Option<string>, a: seq<Element>, b: seq<Element>)
    ensures MessageElements(Element(tag, text, a + b))
        == MessageElements(Element(tag, text, a)) + MessageElements(Element(tag, text, b))
  {
    ForestAppend(a, b);
    WithTagAppend(Forest(a), Forest(b), MessageTag);
  }

  /** `e.text` is truthy: present and not empty */
  predicate HasText(e: Element) {
    e.text.Some? && e.text.value != ""
  }

  /** The truthy `.text` of each element of `es`, in order; elements without text are skipped */
  function NonEmptyTexts(es: seq<Element>): (r: seq<string>)
    ensures |r| <= |es|
    ensures forall i :: 0 <= i < |r| ==> r[i] != ""
  {
    if es == [] then []
    else
      var init, last := es[..|es| - 1], es[|es| - 1];
      NonEmptyTexts(init) + (if HasText(last) then [last.text.value] else [])
  }

  /** Collecting one more element adds its text, when it has one */
  lemma NonEmptyTextsStep(es: seq<Element>, i: int)
    requires 0 <= i < |es|
    ensures NonEmptyTexts(es[..i + 1])
        == NonEmptyTexts(es[..i]) + (if HasText(es[i]) then [es[i].text.value] else [])
  {
    assert es[..i + 1][..i] == es[..i];
  }

  /** The texts collected are exactly the truthy texts of the elements */
  lemma {:induction false} NonEmptyTextsMembers(es: seq<Element>)
    ensures forall t :: t in NonEmptyTexts(es) <==> exists e :: e in es && HasText(e) && e.text.value == t
  {
    if es != [] {
      NonEmptyTextsMembers(es[..|es| - 1]);
      assert es == es[..|es| - 1] + [es[|es| - 1]];
    }
  }

  /** Every element having text, the texts are as many as the elements */
  lemma {:induction false} AllTextsKept(es: seq<Element>)
    requires forall i :: 0 <= i < |es| ==> HasText(es[i])
    ensures |NonEmptyTexts(es)| == |es|
    ensures forall i :: 0 <= i < |es| ==> HasText(es[i]) && NonEmptyTexts(es)[i] == es[i].text.value
  {
    if es != [] {
      AllTextsKept(es[..|es| - 1]);
    }
  }
}
