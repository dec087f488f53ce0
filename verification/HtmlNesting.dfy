/** The events of htmlParser are well nested on every input, and its stack keeps its shape. */
module HtmlNesting {
  import opened Text
  import opened HtmlParser

  /** The elements open after some events; None when an end event does not match the innermost start. */
  function OpenAfter(events: seq<Event>): Option<seq<string>> {
    if events == [] then Some([])
    else
      var n := |events| - 1;
      var before := OpenAfter(events[..n]);
      if before.None? then None else After(before.value, events[n])
  }

  function After(open: seq<string>, e: Event): Option<seq<string>> {
    match e
    case Start(tag, _, unary) => Some(if unary then open else open + [tag])
    case End(tag) =>
      if open != [] && open[|open| - 1] == tag then Some(open[..|open| - 1]) else None
    case Chars(_) => Some(open)
    case Comment(_) => Some(open)
  }

  lemma OpenAfterSnoc(events: seq<Event>, e: Event)
    requires OpenAfter(events).Some?
    ensures OpenAfter(events + [e]) == After(OpenAfter(events).value, e)
  {
    assert (events + [e])[..|events|] == events;
  }

  /** No block directly inside an inline element, no optional-end-tag element directly inside one of
      the same name, no void element open, and nothing inside a script or style. */
  ghost predicate Shape(v: Vocabulary, stack: seq<string>) {
    && (forall i :: 0 <= i < |stack| ==> !v.IsVoid(stack[i]))
    && (forall i :: 0 < i < |stack| ==> Fits(v, stack[i - 1], stack[i]))
  }

  ghost predicate Fits(v: Vocabulary, outer: string, inner: string) {
    && !(v.IsBlock(inner) && v.IsInline(outer))
    && !(v.HasOptionalEndTag(inner) && inner == outer)
    && !v.IsSpecial(outer)
  }

  predicate InSpecial(v: Vocabulary, stack: seq<string>) {
    stack != [] && v.IsSpecial(stack[|stack| - 1])
  }

  /** At every point the events nest and the open elements have the shape, and no element starts inside
      a script or style. */
  ghost predicate WellShaped(v: Vocabulary, events: seq<Event>) {
    && (forall i :: 0 <= i <= |events| ==> OpenAfter(events[..i]).Some? && Shape(v, OpenAfter(events[..i]).value))
    && (forall i :: 0 <= i < |events| && events[i].Start? ==> !InSpecial(v, OpenAfter(events[..i]).value))
  }

  ghost predicate Faithful(v: Vocabulary, p: Parser) {
    WellShaped(v, p.events) && OpenAfter(p.events) == Some(p.stack)
  }

  lemma Emitted(v: Vocabulary, p: Parser, e: Event, stack: seq<string>)
    requires Faithful(v, p) && After(p.stack, e) == Some(stack) && Shape(v, stack)
    requires e.Start? ==> !InSpecial(v, p.stack)
    ensures Faithful(v, Parser(stack, p.events + [e]))
  {
    var events := p.events + [e];
    assert events[..|p.events|] == p.events;
    forall i | 0 <= i <= |events|
      ensures OpenAfter(events[..i]).Some? && Shape(v, OpenAfter(events[..i]).value)
    {
      if i <= |p.events| {
        assert events[..i] == p.events[..i];
      } else {
        assert events[..i] == events;
      }
    }
    forall i | 0 <= i < |events| && events[i].Start?
      ensures !InSpecial(v, OpenAfter(events[..i]).value)
    {
      assert i < |p.events| ==> events[..i] == p.events[..i];
    }
  }

  lemma {:induction false} ClosedIsFaithful(v: Vocabulary, p: Parser, pos: nat)
    requires Faithful(v, p)
    ensures Faithful(v, p.CloseTo(pos))
    decreases |p.stack|
  {
    if |p.stack| > pos {
      var n := |p.stack| - 1;
      Emitted(v, p, End(p.stack[n]), p.stack[..n]);
      ClosedIsFaithful(v, Parser(p.stack[..n], p.events + [End(p.stack[n])]), pos);
    }
  }

  ghost function StackOf(v: Vocabulary, p: Parser): (stack: seq<string>)
    requires Faithful(v, p)
    ensures stack == p.stack && Shape(v, stack)
  {
    assert p.events[..|p.events|] == p.events;
    p.stack
  }

  lemma {:induction false} InlinesClosed(v: Vocabulary, p: Parser)
    requires Faithful(v, p)
    ensures Faithful(v, p.CloseInlines(v))
    decreases |p.stack|
  {
    if p.stack != [] && v.IsInline(p.stack[|p.stack| - 1]) {
      ClosedIsFaithful(v, p, |p.stack| - 1);
      InlinesClosed(v, p.CloseTo(|p.stack| - 1));
    }
  }

  /** The tag may be pushed on the stack. */
  ghost predicate HasRoom(v: Vocabulary, stack: seq<string>, tag: string) {
    Shape(v, stack) && (stack != [] ==> Fits(v, stack[|stack| - 1], tag))
  }

  lemma InlinesClosedTop(v: Vocabulary, p: Parser, tag: string)
    requires Faithful(v, p) && !InSpecial(v, p.stack)
    ensures var p1 := if v.IsBlock(tag) then p.CloseInlines(v) else p;
            && Faithful(v, p1)
            && !InSpecial(v, p1.stack)
            && (p1.stack != [] ==> !(v.IsBlock(tag) && v.IsInline(p1.stack[|p1.stack| - 1])))
  {
    InlinesClosed(v, p);
    var stack, n := StackOf(v, p), |p.CloseInlines(v).stack|;
    if 0 < n < |stack| {
      assert Fits(v, stack[n - 1], stack[n]);
    }
  }

  lemma OptionalClosed(v: Vocabulary, p: Parser, tag: string)
    requires Faithful(v, p) && !InSpecial(v, p.stack)
    requires p.stack != [] ==> !(v.IsBlock(tag) && v.IsInline(p.stack[|p.stack| - 1]))
    ensures Faithful(v, p.CloseOptional(v, tag)) && HasRoom(v, p.CloseOptional(v, tag).stack, tag)
  {
    var stack := StackOf(v, p);
    if v.HasOptionalEndTag(tag) && p.Top() == Some(tag) {
      var n := |stack| - 1;
      assert LastIndex(stack, tag) == Some(n);
      ClosedIsFaithful(v, p, n);
      assert n > 0 ==> Fits(v, stack[n - 1], stack[n]);
    }
  }

  lemma PushedIsFaithful(v: Vocabulary, p: Parser, tag: string, attrs: seq<Attr>, unary: bool)
    requires Faithful(v, p) && HasRoom(v, p.stack, tag) && (v.IsVoid(tag) ==> unary)
    ensures Faithful(v, p.Push(tag, attrs, unary))
  {
    Emitted(v, p, Start(tag, attrs, unary), if unary then p.stack else p.stack + [tag]);
  }

  /** Before a tag is opened, the implied end tags leave a stack on which it fits. */
  lemma OpenedIsFaithful(v: Vocabulary, p: Parser, tag: string, attrs: seq<Attr>, slash: bool)
    requires Faithful(v, p) && !InSpecial(v, p.stack)
    ensures Faithful(v, p.Open(v, tag, attrs, slash))
  {
    var p1 := if v.IsBlock(tag) then p.CloseInlines(v) else p;
    InlinesClosedTop(v, p, tag);
    OptionalClosed(v, p1, tag);
    PushedIsFaithful(v, p1.CloseOptional(v, tag), tag, attrs, v.IsVoid(tag) || slash);
  }

  lemma TagClosed(v: Vocabulary, p: Parser, tag: string)
    requires Faithful(v, p)
    ensures Faithful(v, p.CloseTag(tag))
  {
    var pos := LastIndex(p.stack, tag);
    if pos.Some? {
      ClosedIsFaithful(v, p, pos.value);
    }
  }

  lemma TextIsFaithful(v: Vocabulary, p: Parser, e: Event)
    requires Faithful(v, p) && (e.Chars? || e.Comment?)
    ensures Faithful(v, p.Emit(e))
  {
    Emitted(v, p, e, StackOf(v, p));
  }

  lemma RawPassIsFaithful(v: Vocabulary, b: Browser, html: string, p: Parser)
    requires Faithful(v, p) && p.Top().Some?
    ensures Faithful(v, RawPass(b, html, p).1)
  {
    var tag := p.Top().value;
    var m := b.matchRaw(html, tag);
    if m.None? {
      TagClosed(v, p, tag);
    } else {
      TextIsFaithful(v, p, Chars(b.decode(m.value.text)));
      TagClosed(v, p.Emit(Chars(b.decode(m.value.text))), tag);
    }
  }

  lemma AcceptedIsFaithful(v: Vocabulary, p: Parser, t: Token)
    requires Faithful(v, p) && !InSpecial(v, p.stack)
    ensures Faithful(v, Accept(v, p, t))
  {
    match t
    case CommentToken(_, text) => TextIsFaithful(v, p, Comment(text));
    case EndToken(_, name) => TagClosed(v, p, name);
    case StartToken(_, name, attrs, slash) => OpenedIsFaithful(v, p, name, attrs, slash);
    case TextToken(_, text) => TextIsFaithful(v, p, Chars(text));
  }

  lemma PassIsFaithful(v: Vocabulary, b: Browser, html: string, p: Parser)
    requires html != "" && Faithful(v, p)
    ensures Faithful(v, Pass(v, b, html, p).1)
  {
    if InSpecial(v, p.stack) {
      RawPassIsFaithful(v, b, html, p);
    } else {
      AcceptedIsFaithful(v, p, NextToken(b, html));
    }
  }

  /** On every input, with any browser: the events sent so far nest and keep the shape, also when the
      parser gives up; and when it returns, every element has been ended. */
  lemma {:induction false} ParseIsWellNested(v: Vocabulary, b: Browser, html: string, p: Parser)
    requires Faithful(v, p)
    ensures WellShaped(v, Parse(v, b, html, p).events)
    ensures Parse(v, b, html, p).Parsed? ==> OpenAfter(Parse(v, b, html, p).events) == Some([])
    decreases |html|
  {
    if html == "" {
      ClosedIsFaithful(v, p, 0);
    } else {
      var (rest, p') := Pass(v, b, html, p);
      PassIsFaithful(v, b, html, p);
      if rest != html {
        ParseIsWellNested(v, b, rest, p');
      }
    }
  }

  lemma EventsAreWellNested(v: Vocabulary, b: Browser, html: string)
    ensures var outcome := Parse(v, b, html, NOTHING_OPEN);
            WellShaped(v, outcome.events) && (outcome.Parsed? ==> OpenAfter(outcome.events) == Some([]))
  {
    ParseIsWellNested(v, b, html, NOTHING_OPEN);
  }

  // ---------- when the parser gives up ----------

  /** A "<" that begins neither a finished comment nor a tag. */
  predicate LooseBracket(b: Browser, html: string) {
    && StartsWith(html, "<")
    && (if StartsWith(html, "<!--") then Find(html, "-->").None?
        else if BeginsEndTag(html) then b.matchEnd(html).None?
        else b.matchStart(html).None?)
  }

  /** A pass leaves the text as it is, which makes the parser throw, exactly when the text begins with a
      loose "<", or when the end of the open script or style element is missing. */
  lemma StuckExactly(v: Vocabulary, b: Browser, html: string, p: Parser)
    requires html != ""
    ensures Pass(v, b, html, p).0 == html
       <==> if InSpecial(v, p.stack) then b.matchRaw(html, p.Top().value).None? else LooseBracket(b, html)
  {
    if InSpecial(v, p.stack) {
      RawStuck(b, html, p);
    } else {
      TokenStuck(b, html);
    }
  }

  lemma RawStuck(b: Browser, html: string, p: Parser)
    requires html != "" && p.Top().Some?
    ensures RawPass(b, html, p).0 == html <==> b.matchRaw(html, p.Top().value).None?
  {
    var m := b.matchRaw(html, p.Top().value);
    assert m.Some? ==> |html[..m.value.start] + html[m.value.end..]| < |html|;
  }

  lemma TokenStuck(b: Browser, html: string)
    requires html != ""
    ensures html[NextToken(b, html).length..] == html <==> LooseBracket(b, html)
  {
    var t := NextToken(b, html);
    assert |html[t.length..]| == |html| - t.length;
    assert html[0..] == html;
    TokenIsEmptyIff(b, html);
  }

  lemma TokenIsEmptyIff(b: Browser, html: string)
    requires html != ""
    ensures NextToken(b, html).length == 0 <==> LooseBracket(b, html)
  {
    if StartsWith(html, "<") {
      assert html[0] == '<';
    }
  }

  /** The parser throws exactly when it comes to a text where a pass is stuck. */
  lemma {:induction false} ThrowsExactlyWhenStuck(v: Vocabulary, b: Browser, html: string, p: Parser)
    ensures Parse(v, b, html, p).ParseError? <==> ComesToStuck(v, b, html, p)
    decreases |html|
  {
    if html != "" {
      StuckExactly(v, b, html, p);
      var (rest, p') := Pass(v, b, html, p);
      if rest != html {
        ThrowsExactlyWhenStuck(v, b, rest, p');
      }
    }
  }

  ghost predicate ComesToStuck(v: Vocabulary, b: Browser, html: string, p: Parser)
    decreases |html|
  {
    html != "" && var (rest, p') := Pass(v, b, html, p);
    if InSpecial(v, p.stack) && b.matchRaw(html, p.Top().value).None? then true
    else if !InSpecial(v, p.stack) && LooseBracket(b, html) then true
    else rest != html && ComesToStuck(v, b, rest, p')
  }
}
