/**
 * `PromptManager.format_prompt`: the chat history rendered as one `<Message ..>` line per
 * message, substituted with the chat name and the current time into the prompt template by
 * Python's `str.format`.
 */
module PromptManager {
  import opened Wrappers
  import opened Strings
  import opened Messages

  /** The template `load_template` falls back to when the template file cannot be read */
  const FallbackPrefix := "Eres un asistente de " + "WhatsApp. Proporciona " + "una respuesta breve y " + "\U{FA}til al mensaje: "
  const FallbackTemplate := FallbackPrefix + "{chat_history}"

  /** A message has every key the rendering reads; a missing one raises `KeyError` */
  predicate Renderable(m: Message) {
    m.Dict? && "sender" in m.fields && "date" in m.fields && "time" in m.fields && "message" in m.fields
  }

  /** One line of the rendered history, attributes unquoted */
  function RenderMessage(m: Message): (r: Option<string>)
    ensures r.Some? <==> Renderable(m)
  {
    if !Renderable(m) then None
    else Some("<Message sender=" + m.fields["sender"] + " date=" + m.fields["date"] + " time="
              + m.fields["time"] + ">" + m.fields["message"] + "</Message>")
  }

  /** The messages the scraper builds always render, each value in its place */
  lemma ScrapedMessageRenders(sender: string, time: string, date: string, text: string)
    ensures RenderMessage(MakeMessage(sender, time, date, text))
        == Some("<Message sender=" + sender + " date=" + date + " time=" + time + ">" + text + "</Message>")
  {
  }

  /** The store accepts a message without `date` or `time`, but such a message does not render */
  lemma StorableButNotRenderable(sender: string, text: string)
    ensures RenderMessage(Dict(map["sender" := sender, "message" := text])).None?
  {
    assert "date" !in map["sender" := sender, "message" := text];
  }

  /** The rendering of every message, in history order; `None` when one of them fails */
  function Renderings(ms: seq<Message>): (r: Option<seq<string>>)
    ensures r.Some? <==> forall i :: 0 <= i < |ms| ==> Renderable(ms[i])
    ensures r.Some? ==> |r.value| == |ms|
    ensures r.Some? ==> forall i :: 0 <= i < |ms| ==> r.value[i] == RenderMessage(ms[i]).value
  {
    if ms == [] then Some([])
    else match (RenderMessage(ms[0]), Renderings(ms[1..]))
      case (Some(line), Some(lines)) => Some([line] + lines)
      case _ => None
  }

  /** The `chat_history` value: the renderings joined by newlines */
  function RenderHistory(ms: seq<Message>): Option<string> {
    match Renderings(ms)
    case None => None
    case Some(lines) => Some(Join("\n", lines))
  }

  /** An empty history renders as the empty string */
  lemma EmptyHistory()
    ensures RenderHistory([]) == Some("")
  {
  }

  /** A single message renders as its own line, with no newline added */
  lemma SingleHistory(m: Message)
    ensures RenderHistory([m]) == RenderMessage(m)
  {
  }

  /** A message in front of a non-empty history renders as its line, a newline, then the rest */
  lemma HistoryCons(m: Message, ms: seq<Message>)
    requires Renderable(m) && ms != [] && RenderHistory(ms).Some?
    ensures RenderHistory([m] + ms) == Some(RenderMessage(m).value + "\n" + RenderHistory(ms).value)
  {
    assert ([m] + ms)[1..] == ms;
    JoinCons("\n", RenderMessage(m).value, Renderings(ms).value);
  }

  /** A single message missing any of the four keys makes the whole rendering fail */
  lemma MissingKeyFails(ms: seq<Message>, i: int)
    requires 0 <= i < |ms| && !Renderable(ms[i])
    ensures RenderHistory(ms) == None
  {
  }

  /** Prepends `p` to a successful result */
  function Prefix(p: string, r: Option<string>): (q: Option<string>)
    ensures q.Some? <==> r.Some?
    ensures q.Some? ==> q.value == p + r.value
  {
    match r
    case None => None
    case Some(s) => Some(p + s)
  }

  /**
   * Python's `template.format(**vals)` for named fields: `{{` and `}}` stand for one brace,
   * `{name}` for `vals[name]`; a lone `}`, an unclosed `{` or an unknown name raise, here `None`.
   */
  function Format(t: string, vals: map<string, string>): Option<string>
    decreases |t|
  {
    if t == [] then Some([])
    else if t[0] == '{' then
      if |t| >= 2 && t[1] == '{' then Prefix("{", Format(t[2..], vals))
      else match IndexOfChar(t, '}', 1)
        case None => None
        case Some(k) => if t[1..k] in vals then Prefix(vals[t[1..k]], Format(t[k + 1..], vals)) else None
    else if t[0] == '}' then
      if |t| >= 2 && t[1] == '}' then Prefix("}", Format(t[2..], vals)) else None
    else Prefix([t[0]], Format(t[1..], vals))
  }

  predicate BraceFree(s: string) {
    forall i :: 0 <= i < |s| ==> s[i] != '{' && s[i] != '}'
  }

  lemma BraceFreeAppend(a: string, b: string)
    requires BraceFree(a) && BraceFree(b)
    ensures BraceFree(a + b)
  {
    forall i | 0 <= i < |a + b| ensures (a + b)[i] != '{' && (a + b)[i] != '}' {
      if i >= |a| {
        assert (a + b)[i] == b[i - |a|];
      }
    }
  }

  /** A name `str.format` reads as one whole field: no `}` in it, and not starting an escape */
  predicate FieldName(n: string) {
    (forall i :: 0 <= i < |n| ==> n[i] != '}') && (n == [] || n[0] != '{')
  }

  /** Text without braces is copied as it is */
  lemma {:induction false} FormatLiteral(p: string, t: string, vals: map<string, string>)
    requires BraceFree(p)
    ensures Format(p + t, vals) == Prefix(p, Format(t, vals))
    decreases |p|
  {
    if p != [] {
      var q := p + t;
      assert q[0] == p[0] && q[1..] == p[1..] + t;
      assert BraceFree(p[1..]);
      FormatLiteral(p[1..], t, vals);
      if Format(t, vals).Some? {
        assert [p[0]] + (p[1..] + Format(t, vals).value) == p + Format(t, vals).value;
      }
    } else {
      assert p + t == t;
      if Format(t, vals).Some? {
        assert [] + Format(t, vals).value == Format(t, vals).value;
      }
    }
  }

  /** A template without braces is its own output */
  lemma FormatPlain(t: string, vals: map<string, string>)
    requires BraceFree(t)
    ensures Format(t, vals) == Some(t)
  {
    FormatLiteral(t, [], vals);
    assert t + [] == t;
  }

  /** A known field is replaced by its value */
  lemma FormatField(n: string, rest: string, vals: map<string, string>)
    requires FieldName(n) && n in vals
    ensures Format("{" + n + "}" + rest, vals) == Prefix(vals[n], Format(rest, vals))
  {
    FieldEnd(n, rest);
  }

  /** An unknown field raises */
  lemma FormatUnknownField(n: string, rest: string, vals: map<string, string>)
    requires FieldName(n) && n !in vals
    ensures Format("{" + n + "}" + rest, vals) == None
  {
    FieldEnd(n, rest);
  }

  /** The field of `"{" + n + "}" + rest` ends at the brace after `n` */
  lemma FieldEnd(n: string, rest: string)
    requires FieldName(n)
    ensures var t := "{" + n + "}" + rest;
      && |t| >= 2 && t[0] == '{' && t[1] != '{'
      && IndexOfChar(t, '}', 1) == Some(|n| + 1) && t[1..|n| + 1] == n && t[|n| + 2..] == rest
  {
    var t := "{" + n + "}" + rest;
    assert t[|n| + 1] == '}';
    forall j | 1 <= j < |n| + 1 ensures t[j] != '}' {
      assert t[j] == n[j - 1];
    }
    assert t[1..|n| + 1] == n;
  }

  /** Doubled braces stand for one brace each */
  lemma FormatEscapes(rest: string, vals: map<string, string>)
    ensures Format("{{" + rest, vals) == Prefix("{", Format(rest, vals))
    ensures Format("}}" + rest, vals) == Prefix("}", Format(rest, vals))
  {
    assert ("{{" + rest)[2..] == rest;
    assert ("}}" + rest)[2..] == rest;
  }

  /** A `}` that is not doubled raises */
  lemma FormatLoneClose(rest: string, vals: map<string, string>)
    requires rest == [] || rest[0] != '}'
    ensures Format("}" + rest, vals) == None
  {
  }

  /** A `{` with no `}` after it raises */
  lemma FormatUnclosed(rest: string, vals: map<string, string>)
    requires '}' !in rest && (rest == [] || rest[0] != '{')
    ensures Format("{" + rest, vals) == None
  {
    var t := "{" + rest;
    assert forall j :: 1 <= j < |t| ==> t[j] == rest[j - 1];
  }

  /** A template as `str.format` reads it: literal text, fields and escaped braces */
  datatype Piece = Text(s: string) | Field(name: string) | OpenBrace | CloseBrace

  /** How one piece is written in a template */
  function PieceText(p: Piece): string {
    match p
    case Text(s) => s
    case Field(n) => "{" + n + "}"
    case OpenBrace => "{{"
    case CloseBrace => "}}"
  }

  /** What one piece stands for once its field, if any, is replaced by its value */
  function PieceValue(p: Piece, vals: map<string, string>): string {
    match p
    case Text(s) => s
    case Field(n) => if n in vals then vals[n] else []
    case OpenBrace => "{"
    case CloseBrace => "}"
  }

  /** The template text the pieces are written as */
  function TemplateText(ps: seq<Piece>): string {
    if ps == [] then [] else PieceText(ps[0]) + TemplateText(ps[1..])
  }

  /** What the pieces stand for once every field is replaced by its value */
  function Substituted(ps: seq<Piece>, vals: map<string, string>): string {
    if ps == [] then [] else PieceValue(ps[0], vals) + Substituted(ps[1..], vals)
  }

  /** A text piece holds no brace and a field is a known name */
  predicate PieceOk(p: Piece, vals: map<string, string>) {
    (p.Text? ==> BraceFree(p.s)) && (p.Field? ==> FieldName(p.name) && p.name in vals)
  }

  predicate WellFormed(ps: seq<Piece>, vals: map<string, string>) {
    forall i :: 0 <= i < |ps| ==> PieceOk(ps[i], vals)
  }

  /**
   * Formatting replaces each field by its value and each escape by its brace, and leaves all
   * other template text unchanged.
   */
  lemma {:induction false} FormatPieces(ps: seq<Piece>, vals: map<string, string>)
    requires WellFormed(ps, vals)
    ensures Format(TemplateText(ps), vals) == Some(Substituted(ps, vals))
  {
    if ps != [] {
      var rest := TemplateText(ps[1..]);
      assert PieceOk(ps[0], vals);
      assert WellFormed(ps[1..], vals) by {
        forall i | 0 <= i < |ps| - 1 ensures PieceOk(ps[1..][i], vals) {
          assert ps[1..][i] == ps[i + 1];
        }
      }
      FormatPieces(ps[1..], vals);
      match ps[0]
      case Text(s) => FormatLiteral(s, rest, vals);
      case Field(n) => FormatField(n, rest, vals);
      case OpenBrace => FormatEscapes(rest, vals);
      case CloseBrace => FormatEscapes(rest, vals);
    }
  }

  /** Conversely, a template that formats is made of such pieces, and the output is theirs */
  lemma {:induction false} FormatParses(t: string, vals: map<string, string>) returns (ps: seq<Piece>)
    requires Format(t, vals).Some?
    ensures WellFormed(ps, vals) && TemplateText(ps) == t
    ensures Substituted(ps, vals) == Format(t, vals).value
    decreases |t|
  {
    if t == [] {
      ps := [];
    } else if t[0] == '{' && |t| >= 2 && t[1] == '{' {
      var tail := FormatParses(t[2..], vals);
      ps := [OpenBrace] + tail;
      ConsPiece(OpenBrace, tail, vals);
      assert t == "{{" + t[2..];
    } else if t[0] == '{' {
      var k := IndexOfChar(t, '}', 1).value;
      var tail := FormatParses(t[k + 1..], vals);
      ps := [Field(t[1..k])] + tail;
      NameIsField(t, k);
      ConsPiece(Field(t[1..k]), tail, vals);
    } else if t[0] == '}' {
      var tail := FormatParses(t[2..], vals);
      ps := [CloseBrace] + tail;
      ConsPiece(CloseBrace, tail, vals);
      assert t == "}}" + t[2..];
    } else {
      var tail := FormatParses(t[1..], vals);
      ps := [Text([t[0]])] + tail;
      ConsPiece(Text([t[0]]), tail, vals);
      assert t == [t[0]] + t[1..];
    }
  }

  lemma NameIsField(t: string, k: nat)
    requires |t| >= 2 && t[0] == '{' && t[1] != '{' && IndexOfChar(t, '}', 1) == Some(k)
    ensures FieldName(t[1..k]) && t == "{" + t[1..k] + "}" + t[k + 1..]
  {
    assert forall j :: 0 <= j < k - 1 ==> t[1..k][j] == t[j + 1];
  }

  lemma ConsPiece(p: Piece, tail: seq<Piece>, vals: map<string, string>)
    requires WellFormed(tail, vals) && PieceOk(p, vals)
    ensures WellFormed([p] + tail, vals)
    ensures TemplateText([p] + tail) == PieceText(p) + TemplateText(tail)
    ensures Substituted([p] + tail, vals) == PieceValue(p, vals) + Substituted(tail, vals)
  {
    assert ([p] + tail)[0] == p && ([p] + tail)[1..] == tail;
    forall i | 1 <= i < |tail| + 1 ensures PieceOk(([p] + tail)[i], vals) {
      assert ([p] + tail)[i] == tail[i - 1];
    }
  }

  /** The values `format_prompt` passes by name */
  function Values(chatName: string, history: string, now: string): map<string, string> {
    map["chat_name" := chatName, "chat_history" := history, "current_datetime" := now]
  }

  /** Text followed by one known field */
  lemma TextThenField(p: string, n: string, vals: map<string, string>)
    requires BraceFree(p) && FieldName(n) && n in vals
    ensures Format(p + ("{" + n + "}"), vals) == Some(p + vals[n])
  {
    FormatLiteral(p, "{" + n + "}", vals);
    FormatField(n, [], vals);
    assert "{" + n + "}" + [] == "{" + n + "}";
    assert Format([], vals) == Some([]);
    assert vals[n] + [] == vals[n];
  }

  /** The fallback template is its prefix followed by the history */
  lemma FallbackFormat(vals: map<string, string>)
    requires "chat_history" in vals
    ensures Format(FallbackTemplate, vals) == Some(FallbackPrefix + vals["chat_history"])
  {
    FallbackPrefixPlain();
    assert FieldName("chat_history");
    TextThenField(FallbackPrefix, "chat_history", vals);
    assert "{chat_history}" == "{" + "chat_history" + "}";
  }

  lemma FallbackPrefixPlain()
    ensures BraceFree(FallbackPrefix)
  {
    var a, b, c, d := "Eres un asistente de ", "WhatsApp. Proporciona ", "una respuesta breve y ", "\U{FA}til al mensaje: ";
    assert BraceFree(a) && BraceFree(b);
    assert BraceFree(c) && BraceFree(d);
    BraceFreeAppend(a, b);
    BraceFreeAppend(a + b, c);
    BraceFreeAppend(a + b + c, d);
  }

  /**
   * `format_prompt(chat_name, messages)` at time `now`; `template` is what reading the template
   * file gives, `None` when the read fails.
   */
  function FormatPrompt(template: Option<string>, chatName: string, ms: seq<Message>, now: string): Option<string> {
    match RenderHistory(ms)
    case None => None
    case Some(history) => Format(template.GetOr(FallbackTemplate), Values(chatName, history, now))
  }

  /** Without a readable template the prompt is the fixed Spanish instruction followed by the history */
  lemma PromptFromFallback(chatName: string, ms: seq<Message>, now: string)
    requires RenderHistory(ms).Some?
    ensures FormatPrompt(None, chatName, ms, now) == Some(FallbackPrefix + RenderHistory(ms).value)
  {
    FallbackFormat(Values(chatName, RenderHistory(ms).value, now));
  }

  /** A template made of text and the three fields gives that text with the values put in */
  lemma PromptFromPieces(ps: seq<Piece>, chatName: string, ms: seq<Message>, now: string)
    requires RenderHistory(ms).Some?
    requires WellFormed(ps, Values(chatName, RenderHistory(ms).value, now))
    ensures FormatPrompt(Some(TemplateText(ps)), chatName, ms, now)
        == Some(Substituted(ps, Values(chatName, RenderHistory(ms).value, now)))
  {
    FormatPieces(ps, Values(chatName, RenderHistory(ms).value, now));
  }

  /** A message the history cannot render makes the prompt fail, whatever the template */
  lemma PromptNeedsAllKeys(template: Option<string>, chatName: string, ms: seq<Message>, now: string, i: int)
    requires 0 <= i < |ms| && !Renderable(ms[i])
    ensures FormatPrompt(template, chatName, ms, now) == None
  {
    MissingKeyFails(ms, i);
  }
}
