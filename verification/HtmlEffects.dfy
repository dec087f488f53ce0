/** What each tag does to the open elements, and that the parser reports everything that its passes read. */
module HtmlEffects {
  import opened Text
  import opened HtmlParser
  import opened HtmlNesting
  import opened HtmlTokens

  /** End events for some elements, the innermost first. */
  function EndsOf(elements: seq<string>): seq<Event> {
    if elements == [] then []
    else [End(elements[|elements| - 1])] + EndsOf(elements[..|elements| - 1])
  }

  lemma {:induction false} ClosedFromTop(p: Parser, pos: nat)
    requires pos <= |p.stack|
    ensures p.CloseTo(pos) == Parser(p.stack[..pos], p.events + EndsOf(p.stack[pos..]))
    decreases |p.stack|
  {
    var n := |p.stack| - 1;
    if pos == |p.stack| {
      assert p.stack[..pos] == p.stack && p.stack[pos..] == [];
      assert p.events + [] == p.events;
    } else {
      var end, rest := End(p.stack[n]), p.stack[pos..n];
      ClosedFromTop(Parser(p.stack[..n], p.events + [end]), pos);
      assert p.stack[..n][..pos] == p.stack[..pos] && p.stack[..n][pos..] == rest;
      assert p.stack[pos..][..n - pos] == rest && p.stack[pos..][n - pos] == p.stack[n];
      ConcatIsAssociative(p.events, [end], EndsOf(rest));
    }
  }

  /** An end tag ends the closest element of its name and everything inside it; without one it does nothing. */
  lemma EndTagEffect(p: Parser, tag: string) returns (pos: nat)
    ensures pos <= |p.stack|
    ensures p.CloseTag(tag) == Parser(p.stack[..pos], p.events + EndsOf(p.stack[pos..]))
    ensures if tag in p.stack then pos < |p.stack| && p.stack[pos] == tag && tag !in p.stack[pos + 1..]
            else pos == |p.stack|
  {
    var last := LastIndex(p.stack, tag);
    pos := if last.Some? then last.value else |p.stack|;
    ClosedFromTop(p, pos);
    if last.None? {
      assert p.stack[..pos] == p.stack;
    }
  }

  lemma {:induction false} InlinesEffect(v: Vocabulary, p: Parser) returns (k: nat)
    ensures k <= |p.stack|
    ensures p.CloseInlines(v) == Parser(p.stack[..k], p.events + EndsOf(p.stack[k..]))
    ensures forall j :: k <= j < |p.stack| ==> v.IsInline(p.stack[j])
    ensures k > 0 ==> !v.IsInline(p.stack[k - 1])
    decreases |p.stack|
  {
    var n := |p.stack| - 1;
    if p.stack != [] && v.IsInline(p.stack[n]) {
      ClosedFromTop(p, n);
      var p1 := p.CloseTo(n);
      k := InlinesEffect(v, p1);
      EndsInTwo(p, k, n);
    } else {
      k := |p.stack|;
      assert p.stack[..k] == p.stack && p.stack[k..] == [];
      assert p.events + [] == p.events;
    }
  }

  /** Ending the elements above n and then those above k is ending those above k. */
  lemma EndsInTwo(p: Parser, k: nat, n: nat)
    requires k <= n <= |p.stack|
    ensures p.stack[..n][..k] == p.stack[..k]
    ensures (p.events + EndsOf(p.stack[n..])) + EndsOf(p.stack[..n][k..]) == p.events + EndsOf(p.stack[k..])
  {
    assert p.stack[..n][k..] == p.stack[k..n];
    EndsAppend(p.stack[k..n], p.stack[n..]);
    assert p.stack[k..n] + p.stack[n..] == p.stack[k..];
    ConcatIsAssociative(p.events, EndsOf(p.stack[n..]), EndsOf(p.stack[k..n]));
  }

  lemma {:induction false} EndsAppend(a: seq<string>, b: seq<string>)
    ensures EndsOf(a + b) == EndsOf(b) + EndsOf(a)
    decreases |b|
  {
    if b == [] {
      assert a + b == a;
    } else {
      var init, last := b[..|b| - 1], b[|b| - 1];
      assert b == init + [last] && a + b == (a + init) + [last];
      EndsAppend(a, init);
      ConcatIsAssociative([End(last)], EndsOf(init), EndsOf(a));
    }
  }

  lemma OptionalEffect(v: Vocabulary, p: Parser, tag: string) returns (k: nat)
    ensures k <= |p.stack|
    ensures p.CloseOptional(v, tag) == Parser(p.stack[..k], p.events + EndsOf(p.stack[k..]))
    ensures forall j :: k <= j < |p.stack| ==> v.HasOptionalEndTag(tag) && j == |p.stack| - 1 && p.stack[j] == tag
  {
    if v.HasOptionalEndTag(tag) && p.Top() == Some(tag) {
      k := |p.stack| - 1;
      assert LastIndex(p.stack, tag) == Some(k);
    } else {
      k := |p.stack|;
    }
    ClosedFromTop(p, k);
  }

  /** A start tag ends only what it has to: inline elements when it is a block, then one element of its own name
      when that may be left open. Then it is reported, and open unless it is void or closes itself. */
  lemma StartTagEffect(v: Vocabulary, p: Parser, tag: string, attrs: seq<Attr>, slash: bool) returns (k: nat)
    ensures k <= |p.stack|
    ensures var unary := v.IsVoid(tag) || slash;
            p.Open(v, tag, attrs, slash)
            == Parser(p.stack[..k] + if unary then [] else [tag],
                      p.events + EndsOf(p.stack[k..]) + [Start(tag, attrs, unary)])
    ensures forall j :: k <= j < |p.stack| ==>
              (v.IsBlock(tag) && v.IsInline(p.stack[j])) || (v.HasOptionalEndTag(tag) && j == k && p.stack[j] == tag)
  {
    var n := |p.stack|;
    if v.IsBlock(tag) {
      n := InlinesEffect(v, p);
    } else {
      ClosedFromTop(p, n);
    }
    var p1 := if v.IsBlock(tag) then p.CloseInlines(v) else p;
    assert p.stack[..n] == p1.stack;
    k := OptionalEffect(v, p1, tag);
    EndsInTwo(p, k, n);
    assert p.stack[..k] + [] == p.stack[..k];
  }

  // ---------- everything is reported ----------

  /** The events that report what was read; end events only say where elements end. */
  function Content(events: seq<Event>): seq<Event> {
    if events == [] then []
    else
      var n := |events| - 1;
      Content(events[..n]) + if events[n].End? then [] else [events[n]]
  }

  lemma {:induction false} EndsAreNoContent(events: seq<Event>, elements: seq<string>)
    ensures Content(events + EndsOf(elements)) == Content(events)
    decreases |elements|
  {
    if elements == [] {
      assert events + [] == events;
    } else {
      var n := |elements| - 1;
      var end := End(elements[n]);
      EndsAreNoContent(events + [end], elements[..n]);
      ConcatIsAssociative(events, [end], EndsOf(elements[..n]));
    }
  }

  function TokenReport(v: Vocabulary, t: Token): seq<Event> {
    match t
    case CommentToken(_, text) => [Comment(text)]
    case EndToken(_, _) => []
    case StartToken(_, name, attrs, slash) => [Start(name, attrs, v.IsVoid(name) || slash)]
    case TextToken(_, text) => [Chars(text)]
  }

  /** What one pass reads: the text that ends an open script or style, or the token at the beginning of the text. */
  ghost function Report(v: Vocabulary, b: Browser, html: string, p: Parser): seq<Event>
    requires html != ""
  {
    if InSpecial(v, p.stack) then
      var m := b.matchRaw(html, p.Top().value);
      if m.None? then [] else [Chars(b.decode(m.value.text))]
    else
      NextTokenIs(b, html);
      var t :| IsTokenOf(b, html, t);
      TokenReport(v, t)
  }

  lemma TagCloseIsNoContent(p: Parser, tag: string)
    ensures Content(p.CloseTag(tag).events) == Content(p.events)
  {
    var pos := EndTagEffect(p, tag);
    EndsAreNoContent(p.events, p.stack[pos..]);
  }

  lemma StartIsReported(v: Vocabulary, p: Parser, tag: string, attrs: seq<Attr>, slash: bool)
    ensures Content(p.Open(v, tag, attrs, slash).events)
         == Content(p.events) + [Start(tag, attrs, v.IsVoid(tag) || slash)]
  {
    var k := StartTagEffect(v, p, tag, attrs, slash);
    EndsAreNoContent(p.events, p.stack[k..]);
  }

  lemma RawPassReports(v: Vocabulary, b: Browser, html: string, p: Parser)
    requires html != "" && InSpecial(v, p.stack)
    ensures Content(RawPass(b, html, p).1.events) == Content(p.events) + Report(v, b, html, p)
  {
    var tag := p.Top().value;
    var m := b.matchRaw(html, tag);
    if m.None? {
      TagCloseIsNoContent(p, tag);
    } else {
      var text := Chars(b.decode(m.value.text));
      TagCloseIsNoContent(p.Emit(text), tag);
    }
  }

  lemma TokenIsReported(v: Vocabulary, p: Parser, t: Token)
    ensures Content(Accept(v, p, t).events) == Content(p.events) + TokenReport(v, t)
  {
    match t
    case CommentToken(_, _) =>
    case EndToken(_, name) => TagCloseIsNoContent(p, name);
    case StartToken(_, name, attrs, slash) => StartIsReported(v, p, name, attrs, slash);
    case TextToken(_, _) =>
  }

  lemma TokenPassReports(v: Vocabulary, b: Browser, html: string, p: Parser)
    requires html != "" && !InSpecial(v, p.stack)
    ensures Content(Pass(v, b, html, p).1.events) == Content(p.events) + TokenReport(v, NextToken(b, html))
  {
    TokenIsReported(v, p, NextToken(b, html));
  }

  lemma PassReports(v: Vocabulary, b: Browser, html: string, p: Parser)
    requires html != ""
    ensures Content(Pass(v, b, html, p).1.events) == Content(p.events) + Report(v, b, html, p)
  {
    if InSpecial(v, p.stack) {
      RawPassReports(v, b, html, p);
    } else {
      TokenPassReports(v, b, html, p);
      forall t
        ensures IsTokenOf(b, html, t) <==> t == NextToken(b, html)
      {
        OneToken(b, html, t);
      }
    }
  }

  /** What all passes read, one after the other. */
  ghost function Reports(v: Vocabulary, b: Browser, html: string, p: Parser): seq<Event>
    decreases |html|
  {
    if html == "" then []
    else
      var (rest, p') := Pass(v, b, html, p);
      Report(v, b, html, p) + if rest == html then [] else Reports(v, b, rest, p')
  }

  /** On every html the events, apart from ends, are what the passes read, in the order of the passes: nothing is
      lost or added. */
  lemma {:induction false} EverythingIsReported(v: Vocabulary, b: Browser, html: string, p: Parser)
    ensures Content(Parse(v, b, html, p).events) == Content(p.events) + Reports(v, b, html, p)
    decreases |html|
  {
    if html == "" {
      ClosingIsNoContent(p);
    } else {
      var (rest, p') := Pass(v, b, html, p);
      PassReports(v, b, html, p);
      if rest != html {
        EverythingIsReported(v, b, rest, p');
        ConcatIsAssociative(Content(p.events), Report(v, b, html, p), Reports(v, b, rest, p'));
      }
    }
  }

  lemma ClosingIsNoContent(p: Parser)
    ensures Content(p.CloseTo(0).events) == Content(p.events)
  {
    ClosedFromTop(p, 0);
    EndsAreNoContent(p.events, p.stack[0..]);
  }

  // ---------- attributes ----------

  ghost predicate DistinctNames(attrs: seq<Attr>) {
    forall i, j :: 0 <= i < j < |attrs| ==> attrs[i].name != attrs[j].name
  }

  lemma {:induction false} SetAttrEffect(attrs: seq<Attr>, a: Attr)
    requires DistinctNames(attrs)
    ensures DistinctNames(SetAttr(attrs, a))
    ensures forall x :: x in SetAttr(attrs, a) <==> x == a || (x in attrs && x.name != a.name)
  {
    if attrs != [] {
      var first, rest := attrs[0], attrs[1..];
      assert attrs == [first] + rest;
      if first.name != a.name {
        SetAttrEffect(rest, a);
      }
    }
  }

  /** a is the last of the matched attributes of its name, decoded. */
  ghost predicate IsLastOfItsName(b: Browser, matched: seq<Attr>, a: Attr) {
    exists i :: 0 <= i < |matched| && a == matched[i].(value := b.decode(matched[i].value))
                && forall j :: i < j < |matched| ==> matched[j].name != a.name
  }

  /** Each name comes once, with its last value. */
  lemma {:induction false} LastValueWins(b: Browser, matched: seq<Attr>)
    ensures DistinctNames(Attributes(b, matched))
    ensures forall a :: a in Attributes(b, matched) <==> IsLastOfItsName(b, matched, a)
  {
    if matched != [] {
      var n := |matched| - 1;
      var init, last := matched[..n], matched[n].(value := b.decode(matched[n].value));
      LastValueWins(b, init);
      SetAttrEffect(Attributes(b, init), last);
      forall a
        ensures IsLastOfItsName(b, matched, a) <==> a == last || (IsLastOfItsName(b, init, a) && a.name != last.name)
      {
        LastOfLonger(b, matched, a);
      }
    }
  }

  lemma LastOfLonger(b: Browser, matched: seq<Attr>, a: Attr)
    requires matched != []
    ensures var n := |matched| - 1;
            IsLastOfItsName(b, matched, a) <==>
              a == matched[n].(value := b.decode(matched[n].value))
              || (IsLastOfItsName(b, matched[..n], a) && a.name != matched[n].name)
  {
    var n := |matched| - 1;
    if IsLastOfItsName(b, matched[..n], a) && a.name != matched[n].name {
      StaysLast(b, matched, a);
    }
  }

  lemma StaysLast(b: Browser, matched: seq<Attr>, a: Attr)
    requires matched != [] && a.name != matched[|matched| - 1].name
    requires IsLastOfItsName(b, matched[..|matched| - 1], a)
    ensures IsLastOfItsName(b, matched, a)
  {
    var init := matched[..|matched| - 1];
    var i :| 0 <= i < |init| && a == init[i].(value := b.decode(init[i].value))
             && forall j :: i < j < |init| ==> init[j].name != a.name;
    assert a == matched[i].(value := b.decode(matched[i].value));
    forall j | i < j < |matched|
      ensures matched[j].name != a.name
    {
      if j < |init| {
        assert matched[j] == init[j];
      }
    }
  }

}
