/** htmlSanitizeWriter: the handler that writes the allowed part of what the parser reports. */
module SanitizeWriter {
  import opened Text
  import opened HtmlParser
  import opened HtmlNesting
  import opened EntityEncoding

  datatype Piece =
    | OpenTag(tag: string, attrs: seq<Attr>, unary: bool)
    | CloseTag(tag: string)
    | Text(encoded: string)

  /** The script or style element being left out, what has been written, and whether a TypeError was thrown. */
  datatype Writer = Writer(ignore: Option<string>, buf: seq<Piece>, thrown: bool)

  const NOTHING_WRITTEN := Writer(None, [], false)

  predicate MatchesUri(value: string) {
    || StartsWith(value, "ftp://") || StartsWith(value, "http://") || StartsWith(value, "https://")
    || StartsWith(value, "mailto:") || StartsWith(value, "#")
  }

  /** What comes before the first colon of a link. */
  ghost predicate HasScheme(value: string, scheme: string) {
    ':' !in scheme && scheme + ":" <= value
  }

  /** A link to a place in the page, or one of a scheme that runs nothing. */
  ghost predicate IsSafeLink(value: string) {
    || "#" <= value
    || HasScheme(value, "mailto")
    || exists scheme :: scheme in {"ftp", "http", "https"} && HasScheme(value, scheme) && scheme + "://" <= value
  }

  lemma {:induction false} SchemeSlashes(value: string, scheme: string)
    requires ':' !in scheme && scheme + "://" <= value
    ensures HasScheme(value, scheme)
  {
    assert (scheme + "://")[..|scheme| + 1] == scheme + ":";
  }

  /** Exactly these links are kept. */
  lemma {:induction false} MatchesUriIff(value: string)
    ensures MatchesUri(value) <==> IsSafeLink(value)
  {
    assert "ftp" + "://" == "ftp://" && "http" + "://" == "http://" && "https" + "://" == "https://";
    assert "mailto" + ":" == "mailto:";
    if "ftp://" <= value {
      SchemeSlashes(value, "ftp");
    }
    if "http://" <= value {
      SchemeSlashes(value, "http");
    }
    if "https://" <= value {
      SchemeSlashes(value, "https");
    }
  }

  lemma {:induction false} OneScheme(value: string, a: string, b: string)
    requires HasScheme(value, a) && HasScheme(value, b)
    ensures a == b
  {
    assert value[|a|] == ':' && value[|b|] == ':';
    assert a == value[..|a|] && b == value[..|b|];
  }

  /** A link of any other scheme, such as javascript, is not kept. */
  lemma {:induction false} OtherSchemesAreDropped(value: string, scheme: string)
    requires HasScheme(value, scheme) && scheme !in {"ftp", "http", "https", "mailto"} && !("#" <= value)
    ensures !MatchesUri(value)
  {
    MatchesUriIff(value);
    if HasScheme(value, "mailto") {
      OneScheme(value, scheme, "mailto");
    }
    if s :| s in {"ftp", "http", "https"} && HasScheme(value, s) {
      OneScheme(value, scheme, s);
    }
  }

  predicate IsAllowed(v: Vocabulary, a: Attr) {
    Lower(a.name) in v.validAttrs && (Lower(a.name) !in v.uriAttrs || MatchesUri(a.value))
  }

  function Allowed(v: Vocabulary, attrs: seq<Attr>): (r: seq<Attr>)
    ensures forall i :: 0 <= i < |r| ==> IsAllowed(v, r[i])
  {
    if attrs == [] then []
    else (if IsAllowed(v, attrs[0]) then [attrs[0]] else []) + Allowed(v, attrs[1..])
  }

  /** The attribute is in the table, whatever its case, and its value is a safe link where it is to be one. */
  ghost predicate IsPermitted(v: Vocabulary, a: Attr) {
    Lower(a.name) in v.validAttrs && (Lower(a.name) in v.uriAttrs ==> IsSafeLink(a.value))
  }

  lemma {:induction false} PermittedIff(v: Vocabulary, a: Attr)
    ensures IsAllowed(v, a) <==> IsPermitted(v, a)
  {
    MatchesUriIff(a.value);
  }

  /** Exactly the permitted attributes are kept, as they are. */
  lemma {:induction false} AllowedIff(v: Vocabulary, attrs: seq<Attr>, a: Attr)
    ensures a in Allowed(v, attrs) <==> a in attrs && IsPermitted(v, a)
  {
    if attrs != [] {
      assert attrs == [attrs[0]] + attrs[1..];
      PermittedIff(v, attrs[0]);
      AllowedIff(v, attrs[1..], a);
    }
  }

  lemma {:induction false} AllPermitted(v: Vocabulary, attrs: seq<Attr>)
    ensures forall i :: 0 <= i < |Allowed(v, attrs)| ==> IsPermitted(v, Allowed(v, attrs)[i])
  {
    forall i | 0 <= i < |Allowed(v, attrs)|
      ensures IsPermitted(v, Allowed(v, attrs)[i])
    {
      PermittedIff(v, Allowed(v, attrs)[i]);
    }
  }

  /** And each of them in its place. */
  lemma {:induction false} AllowedInOrder(v: Vocabulary, before: seq<Attr>, a: Attr, after: seq<Attr>)
    ensures Allowed(v, before + [a] + after)
         == Allowed(v, before) + (if IsPermitted(v, a) then [a] else []) + Allowed(v, after)
  {
    var attrs := before + [a] + after;
    if before == [] {
      assert attrs[0] == a && attrs[1..] == after;
      PermittedIff(v, a);
    } else {
      assert attrs[0] == before[0] && attrs[1..] == before[1..] + [a] + after;
      AllowedInOrder(v, before[1..], a, after);
    }
  }

  /** forEach calls what it finds as hasOwnProperty, and as forEach if that is truthy: a string is no function. */
  predicate BreaksForEach(attrs: seq<Attr>) {
    exists i :: 0 <= i < |attrs| && BreaksIt(attrs[i])
  }

  predicate BreaksIt(a: Attr) {
    a.name == "hasOwnProperty" || (a.name == "forEach" && a.value != "")
  }

  /** An attribute named hasOwnProperty breaks it, as does one named forEach with a value; no others do. */
  lemma {:induction false} WhatBreaks(before: seq<Attr>, a: Attr, after: seq<Attr>)
    ensures a.name == "hasOwnProperty" ==> BreaksForEach(before + [a] + after)
    ensures a.name == "forEach" ==> (BreaksForEach([a]) <==> a.value != "")
    ensures a.name !in {"hasOwnProperty", "forEach"} ==>
              (BreaksForEach(before + [a] + after) <==> BreaksForEach(before) || BreaksForEach(after))
    ensures a.name == "forEach" && a.value != "" ==> BreaksForEach(before + [a] + after)
    ensures !BreaksForEach([])
  {
    var attrs, n := before + [a] + after, |before|;
    assert attrs[n] == a;
    assert forall i :: 0 <= i < n ==> attrs[i] == before[i];
    assert forall i :: 0 <= i < |after| ==> attrs[n + 1 + i] == after[i];
    if a.name !in {"hasOwnProperty", "forEach"} {
      if i :| 0 <= i < |attrs| && BreaksIt(attrs[i]) {
        assert i < n || attrs[i] == after[i - n - 1];
      }
    }
    assert [a][0] == a;
  }

  function Handle(v: Vocabulary, w: Writer, e: Event): Writer {
    match e
    case Start(tag, attrs, unary) =>
      var ignore := if w.ignore.None? && v.IsSpecial(tag) then Some(tag) else w.ignore;
      if ignore.None? && tag in v.valid then
        Writer(ignore, w.buf + [OpenTag(tag, Allowed(v, attrs), unary)], w.thrown || BreaksForEach(attrs))
      else w.(ignore := ignore)
    case End(tag) =>
      var buf := if w.ignore.None? && tag in v.valid then w.buf + [CloseTag(tag)] else w.buf;
      Writer(if w.ignore == Some(tag) then None else w.ignore, buf, w.thrown)
    case Chars(text) =>
      if w.ignore.None? then w.(buf := w.buf + [Text(EncodeEntities(text))]) else w
    case Comment(_) => w
  }

  function Written(v: Vocabulary, events: seq<Event>): Writer {
    if events == [] then NOTHING_WRITTEN
    else Handle(v, Written(v, events[..|events| - 1]), events[|events| - 1])
  }

  lemma WrittenSnoc(v: Vocabulary, events: seq<Event>, e: Event)
    ensures Written(v, events + [e]) == Handle(v, Written(v, events), e)
  {
    assert (events + [e])[..|events|] == events;
  }

  /** The written elements that are open; None when a written end tag does not match. */
  function WrittenOpen(buf: seq<Piece>): Option<seq<string>> {
    if buf == [] then Some([])
    else
      var before := WrittenOpen(buf[..|buf| - 1]);
      if before.None? then None else WrittenAfter(before.value, buf[|buf| - 1])
  }

  function WrittenAfter(open: seq<string>, p: Piece): Option<seq<string>> {
    match p
    case OpenTag(tag, _, unary) => Some(if unary then open else open + [tag])
    case CloseTag(tag) => if open != [] && open[|open| - 1] == tag then Some(open[..|open| - 1]) else None
    case Text(_) => Some(open)
  }

  /** The open elements whose tags are written. */
  function Visible(v: Vocabulary, stack: seq<string>): seq<string> {
    if stack == [] then []
    else
      var n := |stack| - 1;
      Visible(v, stack[..n]) + (if stack[n] in v.valid && !v.IsSpecial(stack[n]) then [stack[n]] else [])
  }

  /** The special element that the parser is in. */
  function Ignored(v: Vocabulary, stack: seq<string>): Option<string> {
    if InSpecial(v, stack) then Some(stack[|stack| - 1]) else None
  }

  predicate IsUnarySpecial(v: Vocabulary, e: Event) {
    e.Start? && e.unary && v.IsSpecial(e.tag)
  }

  /** No script or style element closes itself. */
  ghost predicate NoUnarySpecial(v: Vocabulary, events: seq<Event>) {
    forall i :: 0 <= i < |events| ==> !IsUnarySpecial(v, events[i])
  }

  /** Tags of allowed elements only, with allowed attributes only; never a script or style tag. */
  ghost predicate IsSafe(v: Vocabulary, p: Piece) {
    match p
    case OpenTag(tag, attrs, _) =>
      tag in v.valid && !v.IsSpecial(tag) && forall i :: 0 <= i < |attrs| ==> IsPermitted(v, attrs[i])
    case CloseTag(tag) => tag in v.valid
    case Text(encoded) => forall i :: 0 <= i < |encoded| ==> IsInert(encoded[i])
  }

  lemma {:induction false} HandledIsSafe(v: Vocabulary, w: Writer, e: Event)
    requires forall i :: 0 <= i < |w.buf| ==> IsSafe(v, w.buf[i])
    ensures forall i :: 0 <= i < |Handle(v, w, e).buf| ==> IsSafe(v, Handle(v, w, e).buf[i])
  {
    if e.Chars? {
      EncodedTextIsInert(e.text);
    } else if e.Start? {
      AllPermitted(v, e.attrs);
    }
  }

  /** On every sequence of events, whether or not the parser makes it, each piece written is safe. */
  lemma {:induction false} WrittenIsSafe(v: Vocabulary, events: seq<Event>)
    ensures forall i :: 0 <= i < |Written(v, events).buf| ==> IsSafe(v, Written(v, events).buf[i])
  {
    if events != [] {
      var n := |events| - 1;
      WrittenIsSafe(v, events[..n]);
      HandledIsSafe(v, Written(v, events[..n]), events[n]);
    }
  }

  /** The writer is in step with the parser. */
  ghost predicate InStep(v: Vocabulary, w: Writer, stack: seq<string>) {
    w.ignore == Ignored(v, stack) && WrittenOpen(w.buf) == Some(Visible(v, stack))
  }

  lemma VisibleSnoc(v: Vocabulary, stack: seq<string>, tag: string)
    ensures Visible(v, stack + [tag]) == Visible(v, stack) + (if tag in v.valid && !v.IsSpecial(tag) then [tag] else [])
  {
    assert (stack + [tag])[..|stack|] == stack;
  }

  lemma StartedInStep(v: Vocabulary, w: Writer, stack: seq<string>, e: Event)
    requires e.Start? && InStep(v, w, stack) && !InSpecial(v, stack) && !IsUnarySpecial(v, e)
    ensures InStep(v, Handle(v, w, e), After(stack, e).value)
  {
    VisibleSnoc(v, stack, e.tag);
    assert Visible(v, stack) + [] == Visible(v, stack);
  }

  lemma EndedInStep(v: Vocabulary, w: Writer, stack: seq<string>, e: Event)
    requires e.End? && InStep(v, w, stack) && Shape(v, stack) && After(stack, e).Some?
    ensures InStep(v, Handle(v, w, e), After(stack, e).value)
  {
    var n := |stack| - 1;
    assert stack == stack[..n] + [e.tag];
    VisibleSnoc(v, stack[..n], e.tag);
    var open := Visible(v, stack[..n]);
    assert (open + [e.tag])[..|open|] == open;
    assert open + [] == open;
    assert n > 0 ==> Fits(v, stack[n - 1], stack[n]);
  }

  lemma HandledInStep(v: Vocabulary, w: Writer, stack: seq<string>, e: Event)
    requires InStep(v, w, stack) && Shape(v, stack) && After(stack, e).Some?
    requires e.Start? ==> !InSpecial(v, stack) && !IsUnarySpecial(v, e)
    ensures InStep(v, Handle(v, w, e), After(stack, e).value)
  {
    match e
    case Start(_, _, _) => StartedInStep(v, w, stack, e);
    case End(_) => EndedInStep(v, w, stack, e);
    case Chars(_) =>
    case Comment(_) =>
  }

  lemma {:induction false} WriterInStep(v: Vocabulary, events: seq<Event>)
    requires WellShaped(v, events) && NoUnarySpecial(v, events)
    ensures OpenAfter(events).Some? && InStep(v, Written(v, events), OpenAfter(events).value)
  {
    assert events[..|events|] == events;
    if events != [] {
      var n := |events| - 1;
      WellShapedPrefix(v, events, n);
      WriterInStep(v, events[..n]);
      HandledInStep(v, Written(v, events[..n]), OpenAfter(events[..n]).value, events[n]);
    }
  }

  lemma WellShapedPrefix(v: Vocabulary, events: seq<Event>, n: nat)
    requires n <= |events| && WellShaped(v, events)
    ensures WellShaped(v, events[..n])
  {
    var before := events[..n];
    forall i | 0 <= i <= n
      ensures OpenAfter(before[..i]).Some? && Shape(v, OpenAfter(before[..i]).value)
      ensures i < n && before[i].Start? ==> !InSpecial(v, OpenAfter(before[..i]).value)
    {
      assert before[..i] == events[..i];
    }
  }

  lemma WellShapedAt(v: Vocabulary, events: seq<Event>, e: Event)
    requires WellShaped(v, events + [e])
    ensures WellShaped(v, events) && OpenAfter(events).Some? && Shape(v, OpenAfter(events).value)
    ensures After(OpenAfter(events).value, e).Some? && (e.Start? ==> !InSpecial(v, OpenAfter(events).value))
  {
    var more, n := events + [e], |events|;
    WellShapedPrefix(v, more, n);
    assert more[..n] == events && more[n] == e && more[..n + 1] == more;
    OpenAfterSnoc(events, e);
  }

  // ---------- exactly when the written tags keep in step ----------

  /** The self-closing script or style element since which no end of that name has come: it silences the writer. */
  function Silencer(v: Vocabulary, events: seq<Event>): Option<string> {
    if events == [] then None
    else
      var (before, e) := (Silencer(v, events[..|events| - 1]), events[|events| - 1]);
      if before.Some? then (if e == End(before.value) then None else before)
      else if IsUnarySpecial(v, e) then Some(e.tag) else None
  }

  function IgnoredName(silencer: Option<string>, v: Vocabulary, stack: seq<string>): Option<string> {
    if silencer.Some? then silencer else Ignored(v, stack)
  }

  lemma IgnoreOfOneMore(v: Vocabulary, events: seq<Event>, stack: seq<string>, w: Writer, e: Event)
    requires w.ignore == IgnoredName(Silencer(v, events), v, stack) && Shape(v, stack) && After(stack, e).Some?
    requires e.Start? ==> !InSpecial(v, stack)
    ensures Handle(v, w, e).ignore == IgnoredName(Silencer(v, events + [e]), v, After(stack, e).value)
  {
    assert (events + [e])[..|events|] == events;
    var n := |stack| - 1;
    assert n > 0 ==> Fits(v, stack[n - 1], stack[n]);
  }

  /** What the writer ignores, told by the events alone. */
  lemma {:induction false} IgnoreIs(v: Vocabulary, events: seq<Event>)
    requires WellShaped(v, events)
    ensures OpenAfter(events).Some?
    ensures Written(v, events).ignore == IgnoredName(Silencer(v, events), v, OpenAfter(events).value)
  {
    if events != [] {
      var init, e := events[..|events| - 1], events[|events| - 1];
      assert events == init + [e];
      WellShapedAt(v, init, e);
      IgnoreIs(v, init);
      OpenAfterSnoc(init, e);
      IgnoreOfOneMore(v, init, OpenAfter(init).value, Written(v, init), e);
    }
  }

  /** The event opens or ends an element whose tags are written. */
  predicate ChangesVisible(v: Vocabulary, e: Event) {
    ((e.Start? && !e.unary) || e.End?) && e.tag in v.valid && !v.IsSpecial(e.tag)
  }

  /** The written open elements are the visible ones. */
  ghost predicate WrittenInStep(v: Vocabulary, events: seq<Event>) {
    OpenAfter(events).Some? && WrittenOpen(Written(v, events).buf) == Some(Visible(v, OpenAfter(events).value))
  }

  lemma ChangeShows(v: Vocabulary, stack: seq<string>, e: Event)
    requires After(stack, e).Some?
    ensures Visible(v, After(stack, e).value) == Visible(v, stack) <==> !ChangesVisible(v, e)
  {
    if e.Start? {
      VisibleSnoc(v, stack, e.tag);
    } else if e.End? {
      assert stack == stack[..|stack| - 1] + [e.tag];
      VisibleSnoc(v, stack[..|stack| - 1], e.tag);
    }
  }

  lemma OneMoreInStep(v: Vocabulary, events: seq<Event>, e: Event)
    requires WellShaped(v, events + [e]) && WrittenInStep(v, events)
    ensures WrittenInStep(v, events + [e]) <==> Silencer(v, events).None? || !ChangesVisible(v, e)
  {
    var w, stack := Written(v, events), OpenAfter(events).value;
    WellShapedAt(v, events, e);
    IgnoreIs(v, events);
    WrittenSnoc(v, events, e);
    OpenAfterSnoc(events, e);
    if Silencer(v, events).Some? {
      ChangeShows(v, stack, e);
    } else if !IsUnarySpecial(v, e) {
      HandledInStep(v, w, stack, e);
    }
  }

  /** No element whose tags are written opens or ends while the writer is silenced. */
  ghost predicate NoneSilenced(v: Vocabulary, events: seq<Event>) {
    forall i :: 0 <= i < |events| && ChangesVisible(v, events[i]) ==> Silencer(v, events[..i]).None?
  }

  ghost predicate AlwaysInStep(v: Vocabulary, events: seq<Event>) {
    forall i :: 0 <= i <= |events| ==> WrittenInStep(v, events[..i])
  }

  lemma AlwaysInStepSnoc(v: Vocabulary, init: seq<Event>, e: Event)
    ensures AlwaysInStep(v, init + [e]) <==> AlwaysInStep(v, init) && WrittenInStep(v, init + [e])
  {
    var events := init + [e];
    assert events[..|events|] == events;
    assert forall i :: 0 <= i <= |init| ==> init[..i] == events[..i];
  }

  lemma NoneSilencedSnoc(v: Vocabulary, init: seq<Event>, e: Event)
    ensures NoneSilenced(v, init + [e])
       <==> NoneSilenced(v, init) && (ChangesVisible(v, e) ==> Silencer(v, init).None?)
  {
    var events := init + [e];
    assert events[|init|] == e && events[..|init|] == init;
    assert forall i :: 0 <= i < |init| ==> init[..i] == events[..i] && init[i] == events[i];
  }

  lemma LastInStep(v: Vocabulary, events: seq<Event>)
    requires AlwaysInStep(v, events)
    ensures WrittenInStep(v, events)
  {
    assert events[..|events|] == events;
  }

  /** At every point the written tags nest, and those open are the visible elements that the parser has open, exactly
      when none of these opens or ends between a self-closing script or style and the next end of that name. */
  lemma {:induction false} AlwaysInStepIff(v: Vocabulary, events: seq<Event>)
    requires WellShaped(v, events)
    ensures AlwaysInStep(v, events) <==> NoneSilenced(v, events)
  {
    if events == [] {
      assert events[..0] == [];
    } else {
      var init, e := events[..|events| - 1], events[|events| - 1];
      assert events == init + [e];
      WellShapedAt(v, init, e);
      AlwaysInStepIff(v, init);
      AlwaysInStepSnoc(v, init, e);
      NoneSilencedSnoc(v, init, e);
      if AlwaysInStep(v, init) {
        LastInStep(v, init);
        OneMoreInStep(v, init, e);
      }
    }
  }

  // ---------- nothing else is left out ----------

  /** What an event is worth outside script and style elements. */
  function PieceOf(v: Vocabulary, e: Event): seq<Piece> {
    match e
    case Start(tag, attrs, unary) => if tag in v.valid then [OpenTag(tag, Allowed(v, attrs), unary)] else []
    case End(tag) => if tag in v.valid then [CloseTag(tag)] else []
    case Chars(text) => [Text(EncodeEntities(text))]
    case Comment(_) => []
  }

  /** The event stands inside a script or style element, or is one of its tags. */
  predicate IsHidden(v: Vocabulary, stack: seq<string>, e: Event) {
    InSpecial(v, stack) || (e.Start? && v.IsSpecial(e.tag))
  }

  /** The pieces of the events that are not hidden, told by the open elements alone. */
  function VisiblePieces(v: Vocabulary, events: seq<Event>): seq<Piece> {
    if events == [] then []
    else
      var n := |events| - 1;
      var open := OpenAfter(events[..n]);
      VisiblePieces(v, events[..n])
      + if open.None? || IsHidden(v, open.value, events[n]) then [] else PieceOf(v, events[n])
  }

  lemma HandledIsVisible(v: Vocabulary, w: Writer, stack: seq<string>, e: Event)
    requires w.ignore == Ignored(v, stack) && After(stack, e).Some?
    ensures Handle(v, w, e).buf == w.buf + if IsHidden(v, stack, e) then [] else PieceOf(v, e)
  {
    assert w.buf + [] == w.buf;
  }

  /** With no self-closing script or style, exactly the allowed part of what stands outside these elements is
      written, in order. */
  lemma {:induction false} VisibleIsWritten(v: Vocabulary, events: seq<Event>)
    requires WellShaped(v, events) && NoUnarySpecial(v, events)
    ensures Written(v, events).buf == VisiblePieces(v, events)
  {
    if events != [] {
      var init, e := events[..|events| - 1], events[|events| - 1];
      assert events == init + [e];
      WellShapedAt(v, init, e);
      VisibleIsWritten(v, init);
      WriterInStep(v, init);
      HandledIsVisible(v, Written(v, init), OpenAfter(init).value, e);
    }
  }

  lemma OutputIsTheVisiblePart(v: Vocabulary, b: Browser, html: string)
    requires NoUnarySpecial(v, Parse(v, b, html, NOTHING_OPEN).events)
    ensures var events := Parse(v, b, html, NOTHING_OPEN).events;
            Written(v, events).buf == VisiblePieces(v, events)
  {
    EventsAreWellNested(v, b, html);
    VisibleIsWritten(v, Parse(v, b, html, NOTHING_OPEN).events);
  }

  /** An allowed tag outside script and style elements has an attribute on which forEach breaks. */
  predicate ThrowsAt(v: Vocabulary, events: seq<Event>, i: nat)
    requires i < |events|
  {
    var open := OpenAfter(events[..i]);
    && events[i].Start? && events[i].tag in v.valid && BreaksForEach(events[i].attrs)
    && open.Some? && !IsHidden(v, open.value, events[i])
  }

  lemma ThrowsSnoc(v: Vocabulary, events: seq<Event>, e: Event)
    ensures (exists i :: 0 <= i < |events + [e]| && ThrowsAt(v, events + [e], i))
            <==> (exists i :: 0 <= i < |events| && ThrowsAt(v, events, i)) || ThrowsAt(v, events + [e], |events|)
  {
    var more := events + [e];
    forall i | 0 <= i < |events|
      ensures ThrowsAt(v, more, i) <==> ThrowsAt(v, events, i)
    {
      assert more[..i] == events[..i] && more[i] == events[i];
    }
  }

  lemma {:induction false} HandledThrows(v: Vocabulary, events: seq<Event>, e: Event)
    requires OpenAfter(events).Some? && Written(v, events).ignore == Ignored(v, OpenAfter(events).value)
    ensures Written(v, events + [e]).thrown <==> Written(v, events).thrown || ThrowsAt(v, events + [e], |events|)
  {
    WrittenSnoc(v, events, e);
    assert (events + [e])[..|events|] == events;
  }

  /** With no self-closing script or style, the writer throws exactly on such tags. */
  lemma {:induction false} ThrowsExactlyOnVisible(v: Vocabulary, events: seq<Event>)
    requires WellShaped(v, events) && NoUnarySpecial(v, events)
    ensures Written(v, events).thrown <==> exists i :: 0 <= i < |events| && ThrowsAt(v, events, i)
  {
    if events != [] {
      var init, e := events[..|events| - 1], events[|events| - 1];
      assert events == init + [e];
      WellShapedPrefix(v, events, |init|);
      ThrowsExactlyOnVisible(v, init);
      WriterInStep(v, init);
      HandledThrows(v, init, e);
      ThrowsSnoc(v, init, e);
    }
  }

  lemma {:induction false} NothingSilencesWithoutUnarySpecial(v: Vocabulary, events: seq<Event>)
    requires NoUnarySpecial(v, events)
    ensures Silencer(v, events).None? && NoneSilenced(v, events)
  {
    if events != [] {
      var n := |events| - 1;
      NothingSilencesWithoutUnarySpecial(v, events[..n]);
      assert forall i :: 0 <= i <= n ==> events[..n][..i] == events[..i];
    }
  }

  /** On every text the written tags nest as the parser's elements do, at every point, exactly when none of them
      stands in a silenced part, as when no script or style closes itself; at the end all are then closed. */
  lemma OutputIsWellNested(v: Vocabulary, b: Browser, html: string)
    ensures var outcome := Parse(v, b, html, NOTHING_OPEN);
            && (AlwaysInStep(v, outcome.events) <==> NoneSilenced(v, outcome.events))
            && (NoUnarySpecial(v, outcome.events) ==> NoneSilenced(v, outcome.events))
            && (outcome.Parsed? && NoneSilenced(v, outcome.events) ==>
                  WrittenOpen(Written(v, outcome.events).buf) == Some([]))
  {
    var events := Parse(v, b, html, NOTHING_OPEN).events;
    EventsAreWellNested(v, b, html);
    AlwaysInStepIff(v, events);
    if NoUnarySpecial(v, events) {
      NothingSilencesWithoutUnarySpecial(v, events);
    }
    if AlwaysInStep(v, events) {
      LastInStep(v, events);
    }
  }

  /** At every point, output is suppressed exactly while the parser is in a script or style element. */
  ghost predicate IgnoresExactly(v: Vocabulary, events: seq<Event>) {
    forall i :: 0 <= i <= |events| ==>
      OpenAfter(events[..i]).Some? && Written(v, events[..i]).ignore == Ignored(v, OpenAfter(events[..i]).value)
  }

  lemma {:induction false} FirstUnarySpecial(v: Vocabulary, events: seq<Event>) returns (i: nat)
    requires !NoUnarySpecial(v, events)
    ensures i < |events| && IsUnarySpecial(v, events[i]) && NoUnarySpecial(v, events[..i])
  {
    var n := |events| - 1;
    if NoUnarySpecial(v, events[..n]) {
      i := n;
    } else {
      i := FirstUnarySpecial(v, events[..n]);
      assert events[..n][..i] == events[..i];
    }
  }

  /** That holds exactly when no script or style element closes itself. */
  lemma IgnoresExactlyUnlessUnarySpecial(v: Vocabulary, events: seq<Event>)
    requires WellShaped(v, events)
    ensures IgnoresExactly(v, events) <==> NoUnarySpecial(v, events)
  {
    if NoUnarySpecial(v, events) {
      forall i | 0 <= i <= |events|
        ensures OpenAfter(events[..i]).Some?
        ensures Written(v, events[..i]).ignore == Ignored(v, OpenAfter(events[..i]).value)
      {
        WellShapedPrefix(v, events, i);
        WriterInStep(v, events[..i]);
      }
    } else {
      var i := FirstUnarySpecial(v, events);
      WellShapedPrefix(v, events, i);
      WriterInStep(v, events[..i]);
      var after := events[..i + 1];
      assert after[..i] == events[..i] && after[i] == events[i];
      assert Written(v, after).ignore.Some? && !InSpecial(v, OpenAfter(after).value);
      assert !IgnoresExactly(v, events);
    }
  }

  lemma SilentInB(v: Vocabulary)
    requires "b" in v.valid && "script" in v.specials && "b" !in v.specials
    ensures var events := [Start("b", [], false), Start("script", [], true)];
            && OpenAfter(events) == Some(["b"])
            && Written(v, events) == Writer(Some("script"), [OpenTag("b", [], false)], false)
  {
    var e0, e1 := Start("b", [], false), Start("script", [], true);
    OpenAfterSnoc([], e0);
    OpenAfterSnoc([e0], e1);
    WrittenSnoc(v, [], e0);
    WrittenSnoc(v, [e0], e1);
    assert [] + [e0] == [e0] && [e0] + [e1] == [e0, e1] && [] + ["b"] == ["b"];
    assert NOTHING_WRITTEN.buf + [OpenTag("b", [], false)] == [OpenTag("b", [], false)];
  }

  /** A self-closing script leaves the writer silent, and an element that was open is never closed. */
  lemma StuckIgnore(v: Vocabulary)
    requires "b" in v.valid && "script" in v.specials && "b" !in v.specials
    ensures var events := [Start("b", [], false), Start("script", [], true), End("b")];
            OpenAfter(events) == Some([]) && WrittenOpen(Written(v, events).buf) == Some(["b"])
  {
    var events := [Start("b", [], false), Start("script", [], true)];
    SilentInB(v);
    OpenAfterSnoc(events, End("b"));
    WrittenSnoc(v, events, End("b"));
    assert events + [End("b")] == [Start("b", [], false), Start("script", [], true), End("b")];
    var buf := [OpenTag("b", [], false)];
    assert buf[..0] == [] && [] + ["b"] == ["b"] && ["b"][..0] == [];
  }
}
