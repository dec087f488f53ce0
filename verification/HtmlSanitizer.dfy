/** $sanitize: the parser driving the writer, as the code runs them, and the text that comes out. */
module HtmlSanitizer {
  import opened Text
  import opened HtmlParser
  import opened HtmlNesting
  import opened HtmlTokens
  import opened EntityEncoding
  import opened SanitizeWriter

  // ---------- the writer ----------

  class HtmlSanitizeWriter {
    const v: Vocabulary
    var ignore: Option<string>
    var buf: seq<Piece>
    var thrown: bool  // a TypeError was thrown

    ghost function State(): Writer
      reads this
    {
      Writer(ignore, buf, thrown)
    }

    constructor (v: Vocabulary)
      ensures this.v == v && State() == NOTHING_WRITTEN
    {
      this.v := v;
      thrown := false;
      ignore := None;
      buf := [];
    }

    method OnStart(tag: string, attrs: seq<Attr>, unary: bool)
      modifies this
      ensures State() == Handle(v, old(State()), Start(tag, attrs, unary))
    {
      if ignore.None? && v.IsSpecial(tag) {
        ignore := Some(tag);
      }
      if ignore.None? && tag in v.valid {
        thrown := thrown || BreaksForEach(attrs);
        buf := buf + [OpenTag(tag, Allowed(v, attrs), unary)];
      }
    }

    method OnEnd(tag: string)
      modifies this`ignore, this`buf
      ensures State() == Handle(v, old(State()), End(tag))
    {
      if ignore.None? && tag in v.valid {
        buf := buf + [CloseTag(tag)];
      }
      if ignore == Some(tag) {
        ignore := None;
      }
    }

    method OnChars(text: string)
      modifies this`buf
      ensures State() == Handle(v, old(State()), Chars(text))
    {
      if ignore.None? {
        buf := buf + [Text(EncodeEntities(text))];
      }
    }
  }

  // ---------- the parser ----------

  /** Ending the top element is one step of closing down to a position. */
  lemma ClosesOneMore(stack: seq<string>, events: seq<Event>, i: nat, pos: nat)
    requires pos <= i < |stack|
    ensures Parser(stack[..i + 1], events).CloseTo(pos) == Parser(stack[..i], events + [End(stack[i])]).CloseTo(pos)
  {
    assert stack[..i + 1][..i] == stack[..i];
  }

  lemma {:induction false} LastIndexSnoc(stack: seq<string>, pos: nat, tag: string)
    requires pos < |stack|
    ensures LastIndex(stack[..pos + 1], tag) == if stack[pos] == tag then Some(pos) else LastIndex(stack[..pos], tag)
  {
    assert stack[..pos + 1][..pos] == stack[..pos];
  }

  class HtmlParsing {
    const v: Vocabulary
    const b: Browser
    const handler: HtmlSanitizeWriter
    var stack: seq<string>
    ghost var events: seq<Event>

    ghost predicate Valid()
      reads this, handler
    {
      handler.v == v && handler.State() == Written(v, events)
    }

    ghost function State(): Parser
      reads this
    {
      Parser(stack, events)
    }

    constructor (b: Browser, handler: HtmlSanitizeWriter)
      requires handler.State() == NOTHING_WRITTEN
      ensures this.b == b && this.v == handler.v && this.handler == handler
      ensures Valid() && State() == NOTHING_OPEN
    {
      this.v := handler.v;
      this.b := b;
      this.handler := handler;
      stack := [];
      events := [];
    }

    method SendStart(tag: string, attrs: seq<Attr>, unary: bool)
      requires Valid()
      modifies this`events, handler
      ensures Valid() && State() == old(State()).Emit(Start(tag, attrs, unary))
    {
      handler.OnStart(tag, attrs, unary);
      WrittenSnoc(v, events, Start(tag, attrs, unary));
      events := events + [Start(tag, attrs, unary)];
    }

    method SendEnd(tag: string)
      requires Valid()
      modifies this`events, handler
      ensures Valid() && State() == old(State()).Emit(End(tag))
    {
      handler.OnEnd(tag);
      WrittenSnoc(v, events, End(tag));
      events := events + [End(tag)];
    }

    method SendChars(text: string)
      requires Valid()
      modifies this`events, handler
      ensures Valid() && State() == old(State()).Emit(Chars(text))
    {
      handler.OnChars(text);
      WrittenSnoc(v, events, Chars(text));
      events := events + [Chars(text)];
    }

    /** Ends the elements from the top of the stack down to a position, then cuts the stack. */
    method CloseFrom(pos: nat)
      requires Valid() && pos <= |stack|
      modifies this`stack, this`events, handler
      ensures Valid() && State() == old(State()).CloseTo(pos)
    {
      var i := |stack|;
      assert stack[..i] == stack;
      while i > pos
        invariant pos <= i <= |stack|
        invariant Valid() && stack == old(stack)
        invariant Parser(stack[..i], events).CloseTo(pos) == old(State()).CloseTo(pos)
      {
        i := i - 1;
        ghost var before := events;
        ClosesOneMore(stack, before, i, pos);
        SendEnd(stack[i]);
        assert events == before + [End(stack[i])];
      }
      stack := stack[..pos];
    }

    /** The search from the top of the stack. */
    method FindOpen(tagName: string) returns (pos: int)
      ensures -1 <= pos < |stack| && LastIndex(stack, tagName) == if pos < 0 then None else Some(pos)
    {
      pos := |stack| - 1;
      assert stack[..pos + 1] == stack;
      while pos >= 0
        invariant -1 <= pos < |stack|
        invariant LastIndex(stack, tagName) == LastIndex(stack[..pos + 1], tagName)
      {
        LastIndexSnoc(stack, pos, tagName);
        if stack[pos] == tagName {
          return;
        }
        pos := pos - 1;
      }
    }

    method ParseEndTag(tagName: string)
      requires Valid()
      modifies this`stack, this`events, handler
      ensures Valid() && State() == old(State()).CloseTag(tagName)
    {
      var pos := FindOpen(tagName);
      if pos >= 0 {
        CloseFrom(pos);
      }
    }

    /** What ParseEndTag does with the name of the innermost element: it ends that element alone. */
    method CloseInlineElements()
      requires Valid()
      modifies this`stack, this`events, handler
      ensures Valid() && State() == old(State()).CloseInlines(v)
    {
      while stack != [] && v.IsInline(stack[|stack| - 1])
        invariant Valid()
        invariant State().CloseInlines(v) == old(State()).CloseInlines(v)
        decreases |stack|
      {
        ClosingTop(State());
        ParseEndTag(stack[|stack| - 1]);
      }
    }

    method CloseOptionalElement(tagName: string)
      requires Valid()
      modifies this`stack, this`events, handler
      ensures Valid() && State() == old(State()).CloseOptional(v, tagName)
    {
      if v.HasOptionalEndTag(tagName) && stack != [] && stack[|stack| - 1] == tagName {
        ParseEndTag(tagName);
      }
    }

    method ParseStartTag(tagName: string, attrs: seq<Attr>, slash: bool)
      requires Valid()
      modifies this`stack, this`events, handler
      ensures Valid() && State() == old(State()).Open(v, tagName, attrs, slash)
    {
      if v.IsBlock(tagName) {
        CloseInlineElements();
      }
      CloseOptionalElement(tagName);
      var unary := v.IsVoid(tagName) || slash;
      if !unary {
        stack := stack + [tagName];
      }
      SendStart(tagName, attrs, unary);
    }

    /** The text that the element is cut out of, when it has an end tag. */
    method LeaveSpecial(html: string) returns (rest: string)
      requires Valid() && stack != []
      modifies this`stack, this`events, handler
      ensures Valid() && (rest, State()) == RawPass(b, html, old(State()))
    {
      var top := stack[|stack| - 1];
      var m := b.matchRaw(html, top);
      rest := html;
      if m.Some? {
        rest := html[..m.value.start] + html[m.value.end..];
        SendChars(b.decode(m.value.text));
      }
      ParseEndTag(top);
    }

    method TakeToken(html: string) returns (rest: string)
      requires Valid() && html != ""
      modifies this`stack, this`events, handler
      ensures Valid() && rest == html[NextToken(b, html).length..]
      ensures State() == Accept(v, old(State()), NextToken(b, html))
    {
      var t := NextToken(b, html);
      rest := html[t.length..];
      match t
      case CommentToken(_, text) =>
        // the writer has no handler for comments
        WrittenSnoc(v, events, Comment(text));
        events := events + [Comment(text)];
      case EndToken(_, name) => ParseEndTag(name);
      case StartToken(_, name, attrs, slash) => ParseStartTag(name, attrs, slash);
      case TextToken(_, text) => SendChars(text);
    }

    /** The loop. It returns, or throws the parse error, on every text. */
    method Parse(text: string) returns (parsed: bool)
      requires Valid() && State() == NOTHING_OPEN
      modifies this`stack, this`events, handler
      ensures Valid()
      ensures parsed <==> HtmlParser.Parse(v, b, text, NOTHING_OPEN).Parsed?
      ensures events == HtmlParser.Parse(v, b, text, NOTHING_OPEN).events
    {
      var html := text;
      while html != ""
        invariant Valid()
        invariant HtmlParser.Parse(v, b, html, State()) == HtmlParser.Parse(v, b, text, NOTHING_OPEN)
        decreases |html|
      {
        var last := html;
        if stack != [] && v.IsSpecial(stack[|stack| - 1]) {
          html := LeaveSpecial(html);
        } else {
          html := TakeToken(html);
        }
        if html == last {
          return false;
        }
      }
      CloseFrom(0);
      return true;
    }
  }

  lemma ClosingTop(p: Parser)
    requires p.stack != []
    ensures p.CloseTag(p.stack[|p.stack| - 1]) == p.CloseTo(|p.stack| - 1)
  {
    assert LastIndex(p.stack, p.stack[|p.stack| - 1]) == Some(|p.stack| - 1);
  }

  // ---------- the text that comes out ----------

  function RenderAttrs(attrs: seq<Attr>): string {
    if attrs == [] then ""
    else " " + attrs[0].name + "=\"" + EncodeEntities(attrs[0].value) + "\"" + RenderAttrs(attrs[1..])
  }

  /** What stands between "<" and ">". */
  function TagText(p: Piece): string
    requires !p.Text?
  {
    match p
    case OpenTag(tag, attrs, unary) => tag + RenderAttrs(attrs) + (if unary then "/" else "")
    case CloseTag(tag) => "/" + tag
  }

  function Render(p: Piece): string {
    if p.Text? then p.encoded else "<" + TagText(p) + ">"
  }

  function RenderAll(buf: seq<Piece>): string {
    if buf == [] then "" else Render(buf[0]) + RenderAll(buf[1..])
  }

  /** $sanitize. No result when the parser or the writer throws; what the parser would do after the writer has
      thrown is dropped with the rest. */
  method Sanitize(v: Vocabulary, b: Browser, html: string) returns (result: Option<string>)
    ensures var outcome := HtmlParser.Parse(v, b, html, NOTHING_OPEN);
            result.Some? <==> outcome.Parsed? && !Written(v, outcome.events).thrown
    ensures result.Some?
            ==> result.value == RenderAll(Written(v, HtmlParser.Parse(v, b, html, NOTHING_OPEN).events).buf)
  {
    var writer := new HtmlSanitizeWriter(v);
    var parser := new HtmlParsing(b, writer);
    var parsed := parser.Parse(html);
    if parsed && !writer.thrown {
      result := Some(RenderAll(writer.buf));
    } else {
      result := None;
    }
  }

  // ---------- the tags that a reader of the text finds ----------

  /** What stands between each "<" and the next ">". */
  function TagsIn(s: string): seq<string>
    decreases |s|
  {
    if s == [] then []
    else if s[0] != '<' then TagsIn(s[1..])
    else
      var j := IndexOf(s[1..], '>');
      if j.None? then [] else [s[1..j.value + 1]] + TagsIn(s[j.value + 2..])
  }

  function TagTexts(buf: seq<Piece>): seq<string> {
    if buf == [] then []
    else (if buf[0].Text? then [] else [TagText(buf[0])]) + TagTexts(buf[1..])
  }

  /** A name of letters and digits. */
  predicate IsPlainName(name: string) {
    forall i :: 0 <= i < |name| ==> 'a' <= name[i] <= 'z' || '0' <= name[i] <= '9'
  }

  /** All allowed names are such. */
  ghost predicate PlainNames(v: Vocabulary) {
    (forall t :: t in v.valid ==> IsPlainName(t)) && (forall a :: a in v.validAttrs ==> IsPlainName(a))
  }

  lemma {:induction false} TagsAfterText(text: string, rest: string)
    requires '<' !in text
    ensures TagsIn(text + rest) == TagsIn(rest)
  {
    if text == "" {
      assert text + rest == rest;
    } else {
      assert (text + rest)[1..] == text[1..] + rest;
      TagsAfterText(text[1..], rest);
    }
  }

  lemma TagsAfterTag(inner: string, rest: string)
    requires '>' !in inner
    ensures TagsIn("<" + inner + ">" + rest) == [inner] + TagsIn(rest)
  {
    var s := "<" + inner + ">" + rest;
    assert s[1..] == inner + ['>'] + rest;
    IndexOfAfter(inner, '>', rest);
    assert s[1..|inner| + 1] == inner && s[|inner| + 2..] == rest;
  }

  lemma {:induction false} AllowedNameIsPlain(v: Vocabulary, a: Attr)
    requires PlainNames(v) && IsPermitted(v, a)
    ensures '>' !in a.name && '=' !in a.name
  {
    assert IsPlainName(Lower(a.name));
    assert forall i :: 0 <= i < |a.name| ==> Lower(a.name)[i] == LowerChar(a.name[i]);
  }

  lemma {:induction false} AttrsArePlain(v: Vocabulary, attrs: seq<Attr>)
    requires PlainNames(v) && forall i :: 0 <= i < |attrs| ==> IsPermitted(v, attrs[i])
    ensures '>' !in RenderAttrs(attrs)
  {
    if attrs != [] {
      AllowedNameIsPlain(v, attrs[0]);
      EncodedTextIsInert(attrs[0].value);
      AttrsArePlain(v, attrs[1..]);
    }
  }

  /** The tags found in the text that comes out are those that the writer wrote, whatever the input:
      no text and no attribute value can add one. */
  lemma {:induction false} TagsAreThoseWritten(v: Vocabulary, buf: seq<Piece>)
    requires PlainNames(v) && forall i :: 0 <= i < |buf| ==> IsSafe(v, buf[i])
    ensures TagsIn(RenderAll(buf)) == TagTexts(buf)
  {
    if buf != [] {
      var p, rest := buf[0], RenderAll(buf[1..]);
      TagsAreThoseWritten(v, buf[1..]);
      match p
      case Text(encoded) => TagsAfterText(encoded, rest);
      case OpenTag(tag, attrs, _) =>
        AttrsArePlain(v, attrs);
        TagsAfterTag(TagText(p), rest);
      case CloseTag(tag) => TagsAfterTag(TagText(p), rest);
    }
  }

  lemma SanitizedTagsAreThoseWritten(v: Vocabulary, b: Browser, html: string)
    requires PlainNames(v) && HtmlParser.Parse(v, b, html, NOTHING_OPEN).Parsed?
    ensures var buf := Written(v, HtmlParser.Parse(v, b, html, NOTHING_OPEN).events).buf;
            TagsIn(RenderAll(buf)) == TagTexts(buf)
  {
    var events := HtmlParser.Parse(v, b, html, NOTHING_OPEN).events;
    WrittenIsSafe(v, events);
    TagsAreThoseWritten(v, Written(v, events).buf);
  }

  // ---------- reading a written tag ----------

  /** An attribute and where it ends: a blank, a name, an equals sign, and a value in double quotes. */
  function FirstAttr(s: string): (r: Option<(Attr, nat)>)
    ensures r.Some? ==> 0 < r.value.1 <= |s|
  {
    var eq := IndexOf(s, '=');
    if s == "" || s[0] != ' ' || eq.None? || eq.value + 1 >= |s| || s[eq.value + 1] != '"' then None
    else
      var start := eq.value + 2;
      var quote := IndexOf(s[start..], '"');
      if quote.None? then None
      else Some((Attr(s[1..eq.value], s[start..start + quote.value]), start + quote.value + 1))
  }

  /** The attributes in a tag, as many as there are. */
  function ReadAttrs(s: string): seq<Attr>
    decreases |s|
  {
    var first := FirstAttr(s);
    if first.None? then [] else [first.value.0] + ReadAttrs(s[first.value.1..])
  }

  /** The name of a tag, its attributes, and whether it closes itself. */
  function ReadTag(s: string): (string, seq<Attr>, bool) {
    var name := UpToEnd(s);
    (name, ReadAttrs(s[|name|..]), s != "" && s[|s| - 1] == '/')
  }

  function UpToEnd(s: string): (name: string)
    ensures name <= s
  {
    if s == "" || s[0] == ' ' || s[0] == '/' then "" else [s[0]] + UpToEnd(s[1..])
  }

  function WithEncodedValues(attrs: seq<Attr>): seq<Attr> {
    if attrs == [] then []
    else [Attr(attrs[0].name, EncodeEntities(attrs[0].value))] + WithEncodedValues(attrs[1..])
  }

  /** s begins with the attribute as it is written. */
  ghost predicate BeginsWithAttr(s: string, name: string, value: string) {
    var eq := |name| + 1;
    && eq + |value| + 2 < |s| && s[0] == ' ' && s[eq] == '=' && s[eq + 1] == '"' && s[eq + 2 + |value|] == '"'
    && s[1..eq] == name && s[eq + 2..eq + 2 + |value|] == value
  }

  lemma {:induction false} EqualsSign(s: string, name: string, value: string)
    requires '=' !in name && BeginsWithAttr(s, name, value)
    ensures IndexOf(s, '=') == Some(|name| + 1)
  {
    assert s[..|name| + 1] == [s[0]] + name;
    FirstIs(s, '=', |name| + 1);
  }

  lemma {:induction false} ClosingQuote(s: string, name: string, value: string)
    requires '"' !in value && BeginsWithAttr(s, name, value)
    ensures IndexOf(s[|name| + 3..], '"') == Some(|value|)
  {
    assert s[|name| + 3..][..|value|] == value;
    FirstIs(s[|name| + 3..], '"', |value|);
  }

  lemma {:induction false} FirstOfAttrs(s: string, name: string, value: string)
    requires '=' !in name && '"' !in value && BeginsWithAttr(s, name, value)
    ensures FirstAttr(s) == Some((Attr(name, value), |name| + |value| + 4))
  {
    EqualsSign(s, name, value);
    ClosingQuote(s, name, value);
  }

  lemma {:induction false} WrittenAttrBegins(name: string, value: string, rest: string)
    ensures var s := " " + name + "=\"" + value + "\"" + rest;
            BeginsWithAttr(s, name, value) && s[|name| + |value| + 4..] == rest
  {
  }

  lemma {:induction false} ReadOneAttr(s: string, name: string, value: string, rest: string)
    requires '=' !in name && '"' !in value && s == " " + name + "=\"" + value + "\"" + rest
    ensures ReadAttrs(s) == [Attr(name, value)] + ReadAttrs(rest)
  {
    WrittenAttrBegins(name, value, rest);
    FirstOfAttrs(s, name, value);
  }

  lemma {:induction false} ReadAllAttrs(v: Vocabulary, attrs: seq<Attr>, rest: string)
    requires PlainNames(v) && forall i :: 0 <= i < |attrs| ==> IsPermitted(v, attrs[i])
    requires rest == "" || rest[0] != ' '
    ensures ReadAttrs(RenderAttrs(attrs) + rest) == WithEncodedValues(attrs)
  {
    if attrs == [] {
      assert "" + rest == rest;
    } else {
      var a, value := attrs[0], EncodeEntities(attrs[0].value);
      AllowedNameIsPlain(v, a);
      NoQuote(a.value);
      ReadAllAttrs(v, attrs[1..], rest);
      FirstRendered(attrs, rest);
      ReadOneAttr(RenderAttrs(attrs) + rest, a.name, value, RenderAttrs(attrs[1..]) + rest);
    }
  }

  lemma {:induction false} NoQuote(s: string)
    ensures '"' !in EncodeEntities(s)
  {
    EncodedTextIsInert(s);
  }

  lemma {:induction false} FirstRendered(attrs: seq<Attr>, rest: string)
    requires attrs != []
    ensures RenderAttrs(attrs) + rest
         == " " + attrs[0].name + "=\"" + EncodeEntities(attrs[0].value) + "\"" + (RenderAttrs(attrs[1..]) + rest)
  {
    var line := " " + attrs[0].name + "=\"" + EncodeEntities(attrs[0].value) + "\"";
    assert RenderAttrs(attrs) == line + RenderAttrs(attrs[1..]);
    ConcatIsAssociative(line, RenderAttrs(attrs[1..]), rest);
  }

  lemma {:induction false} RenderedEnd(attrs: seq<Attr>)
    ensures var s := RenderAttrs(attrs); s == "" || (s[0] == ' ' && s[|s| - 1] == '"')
  {
    if attrs != [] {
      RenderedEnd(attrs[1..]);
      var line := " " + attrs[0].name + "=\"" + EncodeEntities(attrs[0].value) + "\"";
      assert RenderAttrs(attrs) == line + RenderAttrs(attrs[1..]);
    }
  }

  lemma {:induction false} NameOfTag(tag: string, rest: string)
    requires ' ' !in tag && '/' !in tag && (rest == "" || rest[0] == ' ' || rest[0] == '/')
    ensures UpToEnd(tag + rest) == tag
  {
    if tag == "" {
      assert tag + rest == rest;
    } else {
      assert (tag + rest)[1..] == tag[1..] + rest;
      NameOfTag(tag[1..], rest);
    }
  }

  /** Who reads a written start tag finds its name, its attributes with the values encoded, and the slash of one that
      closes itself. */
  lemma {:induction false} StartTagReadsBack(v: Vocabulary, p: Piece)
    requires PlainNames(v) && IsSafe(v, p) && p.OpenTag?
    ensures Render(p) == "<" + TagText(p) + ">"
    ensures ReadTag(TagText(p)) == (p.tag, WithEncodedValues(p.attrs), p.unary)
  {
    var slash := if p.unary then "/" else "";
    var more := RenderAttrs(p.attrs) + slash;
    assert TagText(p) == p.tag + more;
    assert IsPlainName(p.tag);
    RenderedEnd(p.attrs);
    NameOfTag(p.tag, more);
    assert TagText(p)[|p.tag|..] == more;
    ReadAllAttrs(v, p.attrs, slash);
    EndOfTagText(p);
  }

  lemma {:induction false} EndOfTagText(p: Piece)
    requires p.OpenTag? && IsPlainName(p.tag)
    ensures (TagText(p) != "" && TagText(p)[|TagText(p)| - 1] == '/') <==> p.unary
  {
    RenderedEnd(p.attrs);
    var attrs := RenderAttrs(p.attrs);
    assert p.tag + attrs + "" == p.tag + attrs;
    if !p.unary && attrs != "" {
      assert TagText(p)[|TagText(p)| - 1] == attrs[|attrs| - 1];
    }
  }

  lemma {:induction false} RenderAppend(a: seq<Piece>, b: seq<Piece>)
    ensures RenderAll(a + b) == RenderAll(a) + RenderAll(b)
  {
    if a == [] {
      RenderNone(a);
      assert a + b == b;
    } else {
      assert a == [a[0]] + a[1..] && a + b == [a[0]] + (a[1..] + b);
      RenderAppend(a[1..], b);
      RenderHead(a, a[0], a[1..]);
      RenderHead(a + b, a[0], a[1..] + b);
      ConcatIsAssociative(Render(a[0]), RenderAll(a[1..]), RenderAll(b));
    }
  }

  lemma {:induction false} RenderNone(buf: seq<Piece>)
    requires buf == []
    ensures RenderAll(buf) == "" && forall s: string :: RenderAll(buf) + s == s
  {
  }

  lemma {:induction false} RenderHead(buf: seq<Piece>, p: Piece, rest: seq<Piece>)
    requires buf == [p] + rest
    ensures RenderAll(buf) == Render(p) + RenderAll(rest)
  {
    assert buf[0] == p && buf[1..] == rest;
  }

  lemma {:induction false} RenderOne(p: Piece)
    ensures RenderAll([p]) == Render(p)
  {
    RenderHead([p], p, []);
    assert Render(p) + "" == Render(p);
  }

  lemma {:induction false} PieceText(p: Piece)
    ensures p.CloseTag? ==> Render(p) == "</" + p.tag + ">"
    ensures p.Text? ==> Render(p) == p.encoded
  {
    if p.CloseTag? {
      assert "<" + ("/" + p.tag) + ">" == "</" + p.tag + ">";
    }
  }

  /** An end tag is written with its slash and its name, text as it was encoded, and the pieces one after the other. */
  lemma {:induction false} PiecesInOrder(before: seq<Piece>, p: Piece, after: seq<Piece>)
    ensures RenderAll(before + [p] + after) == RenderAll(before) + Render(p) + RenderAll(after)
    ensures RenderAll([]) == ""
    ensures p.CloseTag? ==> Render(p) == "</" + p.tag + ">"
    ensures p.Text? ==> Render(p) == p.encoded
  {
    RenderAppend(before + [p], after);
    RenderAppend(before, [p]);
    RenderOne(p);
    PieceText(p);
  }
}
