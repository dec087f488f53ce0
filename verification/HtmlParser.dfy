/** htmlParser of angular-sanitize: a stack of open elements, with implied end tags. */
module HtmlParser {
  import opened Text

  // ---------- vocabulary ----------

  /** The element tables of the parser and of the writer. */
  datatype Vocabulary = Vocabulary(
    voids: set<string>,
    blocks: set<string>,
    inlines: set<string>,
    optionalEndTags: set<string>,
    specials: set<string>,
    valid: set<string>,
    validAttrs: set<string>,
    uriAttrs: set<string>)
  {
    predicate IsVoid(tag: string) { Truthy(voids, tag) }

    predicate IsBlock(tag: string) { Truthy(blocks, tag) }

    predicate IsInline(tag: string) { Truthy(inlines, tag) }

    predicate HasOptionalEndTag(tag: string) { Truthy(optionalEndTags, tag) }

    predicate IsSpecial(tag: string) { Truthy(specials, tag) }
  }

  /** The lower-case names that every JavaScript object inherits. */
  const INHERITED := {"constructor", "__proto__"}

  /** A table is an object: looking up a name it inherits finds something too. */
  predicate Truthy(table: set<string>, name: string) {
    name in table || name in INHERITED
  }

  // ---------- tokens ----------

  datatype Attr = Attr(name: string, value: string)

  /** A match of the start tag pattern at the beginning of the text. */
  datatype StartTag = StartTag(length: nat, name: string, attrs: seq<Attr>, slash: bool)

  /** A match of the end tag pattern at the beginning of the text. */
  datatype EndTag = EndTag(length: nat, name: string)

  /** A match, anywhere in the text, of the pattern that ends a script or style element. */
  datatype RawText = RawText(start: nat, end: nat, text: string)

  type StartMatcher = f: string -> Option<StartTag>
    | forall s :: f(s).Some? ==> 0 < f(s).value.length <= |s| && f(s).value.name != ""
    witness s => None

  type EndMatcher = f: string -> Option<EndTag>
    | forall s :: f(s).Some? ==> 0 < f(s).value.length <= |s| && f(s).value.name != ""
    witness s => None

  type RawMatcher = f: (string, string) -> Option<RawText>
    | forall s, tag :: f(s, tag).Some? ==> f(s, tag).value.start < f(s, tag).value.end <= |s|
    witness (s, tag) => None

  /** The regular expressions, and the browser's decoding of entities. */
  datatype Browser = Browser(
    matchStart: StartMatcher,
    matchEnd: EndMatcher,
    matchRaw: RawMatcher,
    decode: string -> string)

  predicate IsSpace(c: char) {
    c in {' ', '\t', '\n', '\r', 0x0b as char, 0x0c as char, 0xa0 as char, 0xfeff as char}
    || c in {0x1680 as char, 0x2028 as char, 0x2029 as char, 0x202f as char, 0x205f as char, 0x3000 as char}
    || 0x2000 as char <= c <= 0x200a as char
  }

  function SkipSpaces(s: string): string {
    if s != [] && IsSpace(s[0]) then SkipSpaces(s[1..]) else s
  }

  /** "<", spaces, "/". */
  predicate BeginsEndTag(s: string) {
    StartsWith(s, "<") && StartsWith(SkipSpaces(s[1..]), "/")
  }

  function LowerChar(c: char): char {
    if 'A' <= c <= 'Z' then c - 'A' + 'a' else c
  }

  function Lower(s: string): (r: string)
    ensures |r| == |s|
  {
    seq(|s|, i requires 0 <= i < |s| => LowerChar(s[i]))
  }

  /** String.indexOf(string). */
  function Find(s: string, pattern: string): (r: Option<nat>)
    ensures r.Some? ==> r.value + |pattern| <= |s| && s[r.value..r.value + |pattern|] == pattern
    ensures forall i :: 0 <= i < (if r.Some? then r.value else |s| + 1) ==> !(pattern <= s[i..])
  {
    if pattern <= s then Some(0)
    else if s == [] then None
    else
      var rest := Find(s[1..], pattern);
      assert s[0..] == s;
      assert forall i :: 0 < i <= |s| ==> s[i..] == s[1..][i - 1..];
      if rest.None? then None else Some(rest.value + 1)
  }

  /** The text up to the first "<". */
  function TextEnd(s: string): (i: nat)
    ensures i <= |s|
    ensures i == 0 ==> s == [] || s[0] == '<'
  {
    var i := IndexOf(s, '<');
    if i.None? then |s| else i.value
  }

  // ---------- events ----------

  datatype Event =
    | Start(tag: string, attrs: seq<Attr>, unary: bool)
    | End(tag: string)
    | Chars(text: string)
    | Comment(text: string)

  /** The open elements, and the events sent to the handler so far. */
  datatype Parser = Parser(stack: seq<string>, events: seq<Event>) {
    function Top(): Option<string> {
      if stack == [] then None else Some(stack[|stack| - 1])
    }

    function Emit(e: Event): Parser {
      this.(events := events + [e])
    }

    /** Ends the elements above a position of the stack, innermost first. */
    function CloseTo(pos: nat): (p: Parser)
      ensures pos <= |stack| ==> p.stack == stack[..pos]
      decreases |stack|
    {
      if |stack| <= pos then this
      else
        var n := |stack| - 1;
        Parser(stack[..n], events + [End(stack[n])]).CloseTo(pos)
    }

    /** parseEndTag for a tag name. */
    function CloseTag(tag: string): Parser {
      var pos := LastIndex(stack, tag);
      if pos.None? then this else CloseTo(pos.value)
    }

    function CloseInlines(v: Vocabulary): (p: Parser)
      ensures p.stack <= stack
      ensures p.stack == [] || !v.IsInline(p.stack[|p.stack| - 1])
      decreases |stack|
    {
      if stack != [] && v.IsInline(stack[|stack| - 1]) then CloseTo(|stack| - 1).CloseInlines(v) else this
    }

    function CloseOptional(v: Vocabulary, tag: string): Parser {
      if v.HasOptionalEndTag(tag) && Top() == Some(tag) then CloseTag(tag) else this
    }

    function Push(tag: string, attrs: seq<Attr>, unary: bool): Parser {
      Parser(if unary then stack else stack + [tag], events + [Start(tag, attrs, unary)])
    }

    /** parseStartTag: first the implied end tags, then the element. */
    function Open(v: Vocabulary, tag: string, attrs: seq<Attr>, slash: bool): Parser {
      var p := if v.IsBlock(tag) then CloseInlines(v) else this;
      p.CloseOptional(v, tag).Push(tag, attrs, v.IsVoid(tag) || slash)
    }
  }

  /** The closest open element of a name. */
  function LastIndex(stack: seq<string>, tag: string): (pos: Option<nat>)
    ensures pos.None? <==> tag !in stack
    ensures pos.Some? ==> pos.value < |stack| && stack[pos.value] == tag && tag !in stack[pos.value + 1..]
  {
    if stack == [] then None
    else
      var n := |stack| - 1;
      if stack[n] == tag then Some(n)
      else
        assert stack == stack[..n] + [stack[n]];
        var pos := LastIndex(stack[..n], tag);
        assert pos.Some? ==> stack[pos.value + 1..] == stack[..n][pos.value + 1..] + [stack[n]];
        pos
  }

  /** A later attribute of the same name replaces the value of an earlier one. */
  function SetAttr(attrs: seq<Attr>, a: Attr): seq<Attr> {
    if attrs == [] then [a]
    else if attrs[0].name == a.name then [a] + attrs[1..]
    else [attrs[0]] + SetAttr(attrs[1..], a)
  }

  function Attributes(b: Browser, matched: seq<Attr>): seq<Attr> {
    if matched == [] then []
    else
      var n := |matched| - 1;
      SetAttr(Attributes(b, matched[..n]), matched[n].(value := b.decode(matched[n].value)))
  }

  // ---------- the loop ----------

  /** What stands at the beginning of the text, outside script and style elements. */
  datatype Token =
    | CommentToken(length: nat, text: string)
    | EndToken(length: nat, name: string)
    | StartToken(length: nat, name: string, attrs: seq<Attr>, slash: bool)
    | TextToken(length: nat, text: string)

  function NextToken(b: Browser, html: string): (t: Token)
    requires html != ""
    ensures t.length <= |html| && (t.length == 0 ==> t.TextToken?)
  {
    if StartsWith(html, "<!--") then
      var i := Find(html, "-->");
      if i.None? then NextText(b, html) else CommentToken(i.value + 3, Substring(html, 4, i.value))
    else if BeginsEndTag(html) then
      var m := b.matchEnd(html);
      if m.None? then NextText(b, html) else EndToken(m.value.length, Lower(m.value.name))
    else if StartsWith(html, "<") then
      var m := b.matchStart(html);
      if m.None? then NextText(b, html)
      else StartToken(m.value.length, Lower(m.value.name), Attributes(b, m.value.attrs), m.value.slash)
    else NextText(b, html)
  }

  /** The text up to the first "<", empty when the text begins with it. */
  function NextText(b: Browser, html: string): (t: Token)
    ensures t.TextToken? && t.length <= |html|
  {
    var i := TextEnd(html);
    TextToken(i, b.decode(html[..i]))
  }

  /** String.substring, which swaps its bounds when they are the wrong way round. */
  function Substring(s: string, i: nat, j: nat): string
    requires i <= |s| && j <= |s|
  {
    if i <= j then s[i..j] else s[j..i]
  }

  function Accept(v: Vocabulary, p: Parser, t: Token): Parser {
    match t
    case CommentToken(_, text) => p.Emit(Comment(text))
    case EndToken(_, name) => p.CloseTag(name)
    case StartToken(_, name, attrs, slash) => p.Open(v, name, attrs, slash)
    case TextToken(_, text) => p.Emit(Chars(text))
  }

  /** One pass of the loop over the rest of the text: it shortens the text or leaves it as it is. */
  function Pass(v: Vocabulary, b: Browser, html: string, p: Parser): (r: (string, Parser))
    requires html != ""
    ensures r.0 == html || |r.0| < |html|
  {
    if p.Top().Some? && v.IsSpecial(p.Top().value) then RawPass(b, html, p)
    else
      var t := NextToken(b, html);
      (html[t.length..], Accept(v, p, t))
  }

  function RawPass(b: Browser, html: string, p: Parser): (r: (string, Parser))
    requires p.Top().Some?
    ensures r.0 == html || |r.0| < |html|
  {
    var tag := p.Top().value;
    var m := b.matchRaw(html, tag);
    if m.None? then (html, p.CloseTag(tag))
    else (html[..m.value.start] + html[m.value.end..], p.Emit(Chars(b.decode(m.value.text))).CloseTag(tag))
  }

  /** What the loop ends with: every element closed, or the exception it throws. */
  datatype Outcome = Parsed(events: seq<Event>) | ParseError(rest: string, events: seq<Event>)

  function Parse(v: Vocabulary, b: Browser, html: string, p: Parser): Outcome
    decreases |html|
  {
    if html == "" then Parsed(p.CloseTo(0).events)
    else
      var (rest, p') := Pass(v, b, html, p);
      if rest == html then ParseError(html, p'.events) else Parse(v, b, rest, p')
  }

  const NOTHING_OPEN := Parser([], [])
}
