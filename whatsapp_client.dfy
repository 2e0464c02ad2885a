/**
 * The pure parts of `WhatsAppClient`: turning the newest incoming message elements of the page
 * into message dictionaries (`get_messages`), and dropping the characters outside the Basic
 * Multilingual Plane before typing a reply (`send_message`).
 */
module WhatsAppClient {
  import opened Wrappers
  import opened Strings
  import opened Slices
  import opened Messages

  /** Only this many of the newest message elements are read */
  const Window := 10

  /**
   * What the page offers for one incoming message: the `.text` of its selectable-text span and
   * the `data-pre-plain-text` attribute of its copyable-text div, `"[time, date] Sender: "`.
   * `None` stands for a lookup that raises (no such node) or an attribute that is missing.
   */
  datatype MessageElement = MessageElement(text: Option<string>, prePlainText: Option<string>)

  /** The header WhatsApp writes in front of a message */
  function Header(time: string, date: string, sender: string): string {
    "[" + time + ", " + date + "]" + " " + sender + ": "
  }

  /** `pre_plain_text[1:].split("]")[0].strip()` */
  function TimeDate(header: string): string {
    Strip(Split(SliceFrom(header, 1), "]")[0])
  }

  /** `pre_plain_text.split("]")[-1].split(":")[0].strip()` */
  function SenderOf(header: string): string {
    var pieces := Split(header, "]");
    Strip(Split(pieces[|pieces| - 1], ":")[0])
  }

  /** The dictionary for one element, or `None` when unpacking `time, date` raises */
  function ParseHeader(header: string, text: string): (r: Option<Message>)
    ensures r.Some? <==> |Split(TimeDate(header), ", ")| == 2
    ensures r.Some? ==> r.value.Dict? && r.value.fields.Keys == {"sender", "time", "date", "message"}
    ensures r.Some? ==> r.value.fields["message"] == text && IsStripped(r.value.fields["sender"])
    ensures r.Some? ==> r.value.fields["time"] == Split(TimeDate(header), ", ")[0]
    ensures r.Some? ==> r.value.fields["date"] == Split(TimeDate(header), ", ")[1] && r.value.fields["sender"] == SenderOf(header)
  {
    var parts := Split(TimeDate(header), ", ");
    if |parts| != 2 then None
    else Some(MakeMessage(SenderOf(header), parts[0], parts[1], text))
  }

  /** The time and date part of a header written by WhatsApp */
  lemma TimeDateOfHeader(time: string, date: string, sender: string)
    requires NoChar(time, ']') && NoChar(date, ']') && NoChar(sender, ']')
    requires time != [] && !IsSpace(time[0]) && date != [] && !IsSpace(date[|date| - 1])
    ensures TimeDate(Header(time, date, sender)) == time + ", " + date
  {
    var td, tail := time + ", " + date, " " + sender + ": ";
    assert SliceFrom(Header(time, date, sender), 1) == td + "]" + tail;
    assert NoChar(td, ']') && NoChar(tail, ']');
    SplitOnce(td, ']', tail);
    assert td[0] == time[0] && td[|td| - 1] == date[|date| - 1];
    StripStripped(td);
  }

  /** The sender part of a header written by WhatsApp */
  lemma SenderOfHeader(time: string, date: string, sender: string)
    requires NoChar(time, ']') && NoChar(date, ']') && NoChar(sender, ']')
    requires NoChar(sender, ':') && IsStripped(sender)
    ensures SenderOf(Header(time, date, sender)) == sender
  {
    var head, tail := "[" + time + ", " + date, " " + sender + ": ";
    assert Header(time, date, sender) == head + "]" + tail;
    assert NoChar(head, ']') && NoChar(tail, ']');
    SplitOnce(head, ']', tail);
    assert tail == " " + sender + ":" + " ";
    assert NoChar(" " + sender, ':') && NoChar(" ", ':');
    SplitOnce(" " + sender, ':', " ");
    StripAfterSpace(sender);
  }

  /** `"time, date".split(", ")` gives the two when only the separator holds a comma */
  lemma TimeDateSplits(time: string, date: string)
    requires NoChar(time, ',') && !Contains(date, ", ")
    ensures Split(time + ", " + date, ", ") == [time, date]
  {
    forall j | 0 <= j < |time| ensures !OccursAt(time + ", " + date, ", ", j) {
      assert (time + ", " + date)[j] == time[j];
    }
    SplitAt(time, ", ", date);
    SplitWhole(date, ", ");
  }

  /**
   * Round trip: the header WhatsApp writes for a message parses back into its time, date and
   * sender, as long as none of them holds the characters the parse cuts at.
   */
  lemma HeaderRoundTrip(time: string, date: string, sender: string, text: string)
    requires NoChar(time, ']') && NoChar(time, ',') && time != [] && !IsSpace(time[0])
    requires NoChar(date, ']') && !Contains(date, ", ") && date != [] && !IsSpace(date[|date| - 1])
    requires NoChar(sender, ']') && NoChar(sender, ':') && IsStripped(sender)
    ensures ParseHeader(Header(time, date, sender), text) == Some(MakeMessage(sender, time, date, text))
  {
    TimeDateOfHeader(time, date, sender);
    SenderOfHeader(time, date, sender);
    TimeDateSplits(time, date);
  }

  /** A header whose time and date part has no `", "` cannot be unpacked: the element is skipped */
  lemma MissingSeparatorSkipped(header: string, text: string)
    requires !Contains(TimeDate(header), ", ")
    ensures ParseHeader(header, text) == None
  {
    SplitPieces(TimeDate(header), ", ");
  }

  /** The message for one element, `None` when any step raises */
  function Scrape(e: MessageElement): Option<Message> {
    if e.text.None? || e.prePlainText.None? then None
    else ParseHeader(e.prePlainText.value, e.text.value)
  }

  /** The messages of the elements `es` that scrape, in the order of `es` */
  function Harvest(es: seq<MessageElement>): (r: seq<Message>)
    ensures |r| <= |es|
  {
    if es == [] then []
    else
      var last := Scrape(es[|es| - 1]);
      Harvest(es[..|es| - 1]) + (if last.Some? then [last.value] else [])
  }

  lemma HarvestStep(es: seq<MessageElement>, i: int)
    requires 0 <= i < |es|
    ensures Harvest(es[..i + 1]) == Harvest(es[..i]) + (if Scrape(es[i]).Some? then [Scrape(es[i]).value] else [])
  {
    assert es[..i + 1][..i] == es[..i];
  }

  /** A failing element drops out on its own: the others keep their relative order */
  lemma {:induction false} HarvestAppend(a: seq<MessageElement>, b: seq<MessageElement>)
    ensures Harvest(a + b) == Harvest(a) + Harvest(b)
    decreases |b|
  {
    if b == [] {
      assert a + b == a;
    } else {
      var b', x := b[..|b| - 1], b[|b| - 1];
      assert (a + b)[..|a + b| - 1] == a + b';
      assert (a + b)[|a + b| - 1] == x;
      HarvestAppend(a, b');
    }
  }

  /** A message is harvested exactly when some element scrapes to it */
  lemma {:induction false} HarvestMembers(es: seq<MessageElement>, m: Message)
    ensures m in Harvest(es) <==> exists e :: e in es && Scrape(e) == Some(m)
  {
    if es != [] {
      var init := es[..|es| - 1];
      HarvestMembers(init, m);
      LastElement(es);
    }
  }

  lemma LastElement(es: seq<MessageElement>)
    requires es != []
    ensures forall e :: e in es <==> e in es[..|es| - 1] || e == es[|es| - 1]
  {
    assert es == es[..|es| - 1] + [es[|es| - 1]];
  }

  /** Elements before the newest ten never matter */
  lemma OlderElementsIgnored(older: seq<MessageElement>, recent: seq<MessageElement>)
    requires |recent| >= Window
    ensures SliceFrom(older + recent, -Window) == SliceFrom(recent, -Window)
  {
    var all := older + recent;
    assert all[|all| - Window..] == recent[|recent| - Window..];
  }

  /** `get_messages` once the elements are found: the newest ten, each scraped or skipped */
  method GetMessages(elements: seq<MessageElement>) returns (messages: seq<Message>)
    ensures messages == Harvest(SliceFrom(elements, -Window))
    ensures |messages| <= Window
  {
    var window := SliceFrom(elements, -Window);
    messages := [];
    for i := 0 to |window|
      invariant messages == Harvest(window[..i])
    {
      HarvestStep(window, i);
      var element := window[i];
      if element.text.None? || element.prePlainText.None? {
        continue;
      }
      var header := element.prePlainText.value;
      var parts := Split(TimeDate(header), ", ");
      if |parts| != 2 {
        continue;
      }
      messages := messages + [MakeMessage(SenderOf(header), parts[0], parts[1], element.text.value)];
    }
    assert window[..|window|] == window;
    SliceLast(elements, Window);
  }

  /** A character of the Basic Multilingual Plane: `ord(char) < 0x10000` */
  predicate IsBmp(c: char) {
    c as int < 0x10000
  }

  /** The reply as typed: every character outside the Basic Multilingual Plane dropped */
  function BmpOnly(s: string): (r: string)
    ensures |r| <= |s|
    ensures forall i :: 0 <= i < |r| ==> IsBmp(r[i])
  {
    if s == [] then []
    else BmpOnly(s[..|s| - 1]) + (if IsBmp(s[|s| - 1]) then [s[|s| - 1]] else [])
  }

  /** The filter works character by character */
  lemma {:induction false} BmpOnlyAppend(a: string, b: string)
    ensures BmpOnly(a + b) == BmpOnly(a) + BmpOnly(b)
    decreases |b|
  {
    if b == [] {
      assert a + b == a;
    } else {
      var b' := b[..|b| - 1];
      assert (a + b)[..|a + b| - 1] == a + b';
      assert (a + b)[|a + b| - 1] == b[|b| - 1];
      BmpOnlyAppend(a, b');
    }
  }

  /** One character is kept exactly when it is in the Basic Multilingual Plane */
  lemma BmpOnlyChar(c: char)
    ensures BmpOnly([c]) == (if IsBmp(c) then [c] else [])
  {
    assert [c][..0] == [];
  }

  /** The characters kept are exactly the input's characters of the Basic Multilingual Plane */
  lemma {:induction false} BmpOnlyMembers(s: string, c: char)
    ensures c in BmpOnly(s) <==> c in s && IsBmp(c)
  {
    if s != [] {
      var init := s[..|s| - 1];
      BmpOnlyMembers(init, c);
      assert s == init + [s[|s| - 1]];
    }
  }

  /** Text of the Basic Multilingual Plane goes through unchanged */
  lemma {:induction false} BmpOnlyKeepsBmp(s: string)
    requires forall i :: 0 <= i < |s| ==> IsBmp(s[i])
    ensures BmpOnly(s) == s
  {
    if s != [] {
      BmpOnlyKeepsBmp(s[..|s| - 1]);
    }
  }

  /** Filtering twice is filtering once */
  lemma BmpOnlyIdempotent(s: string)
    ensures BmpOnly(BmpOnly(s)) == BmpOnly(s)
  {
    BmpOnlyKeepsBmp(BmpOnly(s));
  }

  /** An emoji after a greeting is dropped and the greeting is typed as it is */
  lemma EmojiDropped()
    ensures BmpOnly("Hola " + ['\U{1F600}']) == "Hola "
  {
    BmpOnlyAppend("Hola ", ['\U{1F600}']);
    BmpOnlyChar('\U{1F600}');
    BmpOnlyKeepsBmp("Hola ");
  }
}
