/** From the wire to the file and back: what a session stores is fit for an EML file. */
module MailToFile {
  import opened Text
  import opened MailMessages
  import opened SmtpProtocol
  import opened Sessions
  import opened EmlFiles
  import opened MailDelivery
  import opened RememberedName
  import HeaderFolding

  lemma {:induction false} NoColonNoSeparator(s: string)
    requires ':' !in s
    ensures Separator(s).None?
  {
    if |s| >= 2 {
      NoColonNoSeparator(s[1..]);
    }
  }

  lemma TrimmedIsLine(s: string)
    requires NoLineBreaks(s)
    ensures NoLineBreaks(Trim(s))
  {
    TrimKeepsCharacters(s);
    forall i | 0 <= i < |Trim(s)|
      ensures !IsLineBreak(Trim(s)[i])
    {
      assert Trim(s)[i] in s;
    }
  }

  ghost predicate CleanSession(s: Session) {
    && Sound(s)
    && CleanHeaders(s.msg.headers)
    && (s.lastHeaderName.Some? ==> CleanName(s.lastHeaderName.value))
    && forall i :: 0 <= i < |s.delivered| ==> CleanHeaders(s.delivered[i].headers)
  }

  ghost predicate AllWellFormed(messages: seq<Message>) {
    forall i :: 0 <= i < |messages| ==> WellFormed(messages[i])
  }

  lemma {:induction false} StoredAreWellFormed(s: Session, lines: seq<string>)
    requires Sound(s) && AllWellFormed(s.delivered)
    ensures AllWellFormed(Run(s, lines).delivered)
    decreases |lines|
  {
    if lines != [] && s.state != Connect {
      var request := CreateRequest(s.state, lines[0]);
      var (msg, _) := StoreInput(s.msg, s.lastHeaderName, request.params, Respond(request.action, s.state).nextState);
      assert WellFormed(msg);
      StoredAreWellFormed(Step(s, lines[0]), lines[1..]);
    }
  }

  lemma RemoveFirstKeeps(values: seq<string>, x: string)
    requires AreLines(values) && x in values
    ensures AreLines(RemoveFirst(values, x))
  {
    var rest := RemoveFirst(values, x);
    RemoveFirstMultiset(values, x);
    forall i | 0 <= i < |rest|
      ensures NoLineBreaks(rest[i])
    {
      assert rest[i] in multiset(rest) && rest[i] in values;
    }
  }

  lemma ExtendedIsClean(m: Message, name: string, text: string)
    requires WellFormed(m) && CleanHeaders(m.headers) && CleanName(name) && NoLineBreaks(text)
    ensures CleanHeaders(WithExtendedHeader(m, name, text).headers)
  {
    if name in m.headers {
      var values := m.headers[name];
      RemoveFirstKeeps(values, values[|values| - 1]);
    }
  }

  lemma HeaderLineIsClean(m: Message, last: Option<string>, line: string)
    requires WellFormed(m) && CleanHeaders(m.headers) && (last.Some? ==> CleanName(last.value)) && NoLineBreaks(line)
    ensures var (m', last') := AddDataHeader(m, last, line);
            CleanHeaders(m'.headers) && (last'.Some? ==> CleanName(last'.value))
  {
    var end := IndexOf(line, ':');
    if end.Some? && end.value > 0 && !WhiteSpacedLineStart(line) {
      var name := line[..end.value];
      TrimmedIsLine(name);
      TrimKeepsCharacters(name);
      NoColonNoSeparator(Trim(name));
      TrimmedIsLine(line[end.value + 1..]);
    } else if WhiteSpacedLineStart(line) && last.Some? {
      ExtendedIsClean(m, last.value, StripStartingTab(line));
    }
  }

  lemma StoredInputIsClean(msg: Message, last: Option<string>, params: Option<string>, next: SmtpState)
    requires WellFormed(msg) && CleanHeaders(msg.headers) && (last.Some? ==> CleanName(last.value))
    requires next == DataHdr && params.Some? ==> NoLineBreaks(params.value)
    ensures var (msg', last') := StoreInput(msg, last, params, next);
            CleanHeaders(msg'.headers) && (last'.Some? ==> CleanName(last'.value))
  {
    if params.Some? && next == DataHdr {
      HeaderLineIsClean(msg, last, params.value);
    }
  }

  lemma HeaderInputIsTheLine(state: SmtpState, line: string)
    ensures var request := CreateRequest(state, line);
            (request.params.Some? && Respond(request.action, state).nextState == DataHdr)
            ==> request.params.value == line && state == DataHdr
  {
  }

  lemma StepIsClean(s: Session, line: string)
    requires CleanSession(s) && (s.state == DataHdr ==> NoLineBreaks(line))
    ensures CleanSession(Step(s, line))
  {
    var request := CreateRequest(s.state, line);
    HeaderInputIsTheLine(s.state, line);
    StoredInputIsClean(s.msg, s.lastHeaderName, request.params, Respond(request.action, s.state).nextState);
  }

  /** The lines that the session reads among headers have no line separator in them. */
  predicate HeaderLinesAreLines(s: Session, lines: seq<string>)
    requires Sound(s)
    decreases |lines|
  {
    lines == [] || s.state == Connect
    || ((s.state == DataHdr ==> NoLineBreaks(lines[0])) && HeaderLinesAreLines(Step(s, lines[0]), lines[1..]))
  }

  /** Then the headers of every message stored are clean, whatever the other lines are. */
  lemma {:induction false} RunIsClean(s: Session, lines: seq<string>)
    requires CleanSession(s) && HeaderLinesAreLines(s, lines)
    ensures CleanSession(Run(s, lines))
    decreases |lines|
  {
    if lines != [] && s.state != Connect {
      StepIsClean(s, lines[0]);
      RunIsClean(Step(s, lines[0]), lines[1..]);
    }
  }

  /** Whatever a client sends, the headers of a stored message come back from its file exactly when they are
      clean, which they are when no line among headers has a line separator in it; then the body comes back
      without the blank lines. */
  lemma StoredMessagesReload(lines: seq<string>, i: nat, names: seq<string>)
    requires i < |Run(OPENED, lines).delivered|
    requires Enumerates(names, Run(OPENED, lines).delivered[i].headers)
    ensures var m := Run(OPENED, lines).delivered[i];
            && (Load(Print(m, names)).headers == m.headers <==> CleanHeaders(m.headers))
            && (CleanHeaders(m.headers) ==> Load(Print(m, names)) == Message(m.headers, WithoutBlankLines(m.body)))
            && (HeaderLinesAreLines(OPENED, lines) ==> CleanHeaders(m.headers))
  {
    StoredAreWellFormed(OPENED, lines);
    HeadersSurviveIff(Run(OPENED, lines).delivered[i], names);
    if HeaderLinesAreLines(OPENED, lines) {
      RunIsClean(OPENED, lines);
    }
  }

  lemma LeadingNewline(s: string)
    ensures NonEmpty(Lines("\n" + s)) == NonEmpty(Lines(s))
  {
    LinesOfLine("", s);
    assert "" + "\n" + s == "\n" + s;
    assert ([""] + Lines(s))[1..] == Lines(s);
  }

  lemma LinesOfStoredBody(body: seq<string>)
    requires AreLines(body)
    ensures WithoutBlankLines(StoredBody(body)) == Join(NonEmpty(body), "\n")
  {
    var s := Join(body, "\n");
    NonEmptyLinesOfJoin(body);
    if body != [] && body[0] == "" {
      LeadingNewline(s);
    } else {
      assert StoredBody(body) == s;
    }
  }

  lemma {:induction false} NonEmptyLinesOfJoin(lines: seq<string>)
    requires AreLines(lines)
    ensures NonEmpty(Lines(Join(lines, "\n"))) == NonEmpty(lines)
  {
    if |lines| == 1 {
      LineEndAt(lines[0], []);
      assert lines[0] + [] == lines[0];
      assert lines[0][|lines[0]|..] == [];
    } else if |lines| > 1 {
      var rest := Join(lines[1..], "\n");
      LinesOfLine(lines[0], rest);
      assert ([lines[0]] + Lines(rest))[1..] == Lines(rest);
      NonEmptyLinesOfJoin(lines[1..]);
    }
  }

  /** Names and unfolded values of the fields have no line separator in them. */
  predicate FieldsAreLines(fields: seq<Field>) {
    forall i :: 0 <= i < |fields| ==> NoLineBreaks(fields[i].name) && NoLineBreaks(HeaderFolding.Unfolded(fields[i]))
  }

  /** A name that a session may remember ended at a colon. */
  predicate MayRemember(last: Option<string>) {
    last.Some? ==> ':' !in last.value
  }

  lemma LineKeepsRemembered(m: Message, last: Option<string>, line: string)
    requires WellFormed(m) && MayRemember(last)
    ensures MayRemember(AddDataHeader(m, last, line).1)
  {
    if IsHeaderLine(line) {
      TrimKeepsCharacters(line[..IndexOf(line, ':').value]);
    }
  }

  /** And no session ever remembers another, whatever the client sends. */
  lemma {:induction false} SessionsRememberSuch(s: Session, lines: seq<string>)
    requires Sound(s) && MayRemember(s.lastHeaderName)
    ensures MayRemember(Run(s, lines).lastHeaderName)
    decreases |lines|
  {
    if lines != [] && s.state != Connect {
      var request := CreateRequest(s.state, lines[0]);
      if request.params.Some? {
        LineKeepsRemembered(s.msg, s.lastHeaderName, request.params.value);
      }
      SessionsRememberSuch(Step(s, lines[0]), lines[1..]);
    }
  }

  lemma {:induction false} FieldNamesHaveNoColon(last: Option<string>, lines: seq<string>)
    requires MayRemember(last)
    ensures forall i :: 0 <= i < |FieldsOf(last, lines)| ==> ':' !in FieldsOf(last, lines)[i].name
  {
    if lines != [] {
      FieldNamesHaveNoColon(last, lines[..|lines| - 1]);
      var line := lines[|lines| - 1];
      if IsHeaderLine(line) {
        TrimKeepsCharacters(line[..IndexOf(line, ':').value]);
      }
    }
  }

  lemma {:induction false} ValuesAreUnfolded(fields: seq<Field>, name: string, value: string)
    ensures value in HeaderFolding.ValuesOf(fields, name)
       <==> exists i :: 0 <= i < |fields| && fields[i].name == name && HeaderFolding.Unfolded(fields[i]) == value
  {
    if fields != [] {
      var init := fields[..|fields| - 1];
      ValuesAreUnfolded(init, name, value);
      assert forall i :: 0 <= i < |init| ==> init[i] == fields[i];
    }
  }

  /** Every value in the headers is that of a field, and the other way round. */
  lemma HeadersHoldTheFields(fields: seq<Field>, name: string, value: string)
    ensures value in Values(AfterFields(fields), name)
       <==> exists i :: 0 <= i < |fields| && fields[i].name == name && HeaderFolding.Unfolded(fields[i]) == value
  {
    HeaderFolding.FieldsMultisets(fields, name);
    ValuesAreUnfolded(fields, name, value);
    assert value in multiset(Values(AfterFields(fields), name)) <==> value in Values(AfterFields(fields), name);
    assert value in multiset(HeaderFolding.ValuesOf(fields, name)) <==> value in HeaderFolding.ValuesOf(fields, name);
  }

  /** The headers of a mail are fit for a file exactly when its fields have no line separator in them. */
  lemma CleanIffFieldsAreLines(last: Option<string>, lines: seq<string>)
    requires MayRemember(last)
    ensures CleanHeaders(AfterFields(FieldsOf(last, lines))) <==> FieldsAreLines(FieldsOf(last, lines))
  {
    var fields := FieldsOf(last, lines);
    var headers := AfterFields(fields);
    FieldNamesHaveNoColon(last, lines);
    if FieldsAreLines(fields) {
      forall name | name in headers
        ensures CleanName(name) && CleanValues(headers[name])
      {
        LinesMakeCleanHeader(fields, name);
      }
    }
    if CleanHeaders(headers) {
      forall i | 0 <= i < |fields|
        ensures NoLineBreaks(fields[i].name) && NoLineBreaks(HeaderFolding.Unfolded(fields[i]))
      {
        HeadersHoldTheFields(fields, fields[i].name, HeaderFolding.Unfolded(fields[i]));
      }
    }
  }

  lemma ValueIsOfField(fields: seq<Field>, name: string, value: string)
    requires FieldsAreLines(fields) && value in Values(AfterFields(fields), name)
    requires forall i :: 0 <= i < |fields| ==> ':' !in fields[i].name
    ensures NoLineBreaks(value) && NoLineBreaks(name) && ':' !in name
  {
    HeadersHoldTheFields(fields, name, value);
    var i :| 0 <= i < |fields| && fields[i].name == name && HeaderFolding.Unfolded(fields[i]) == value;
  }

  lemma LinesMakeCleanHeader(fields: seq<Field>, name: string)
    requires FieldsAreLines(fields) && name in AfterFields(fields)
    requires forall i :: 0 <= i < |fields| ==> ':' !in fields[i].name
    ensures CleanName(name) && CleanValues(AfterFields(fields)[name])
  {
    var values := AfterFields(fields)[name];
    ValueIsOfField(fields, name, values[0]);
    NoColonNoSeparator(name);
    forall j | 0 <= j < |values|
      ensures NoLineBreaks(values[j])
    {
      ValueIsOfField(fields, name, values[j]);
    }
  }

  /** A mail sent, stored, written to its file and read back has its headers exactly when its fields have no
      line separator in them; when its body lines have none either, it has those that are not empty. */
  lemma MailSurvivesFile(last: Option<string>, mail: Mail, names: seq<string>)
    requires MayRemember(last) && Enumerates(names, Stored(last, mail).headers)
    ensures var (stored, loaded) := (Stored(last, mail), Load(Print(Stored(last, mail), names)));
            && (loaded.headers == stored.headers <==> FieldsAreLines(FieldsOf(last, Received(mail))))
            && (loaded.headers == stored.headers && AreLines(mail.body) ==>
                  loaded.body == Join(NonEmpty(mail.body), "\n"))
  {
    CleanIffFieldsAreLines(last, Received(mail));
    HeadersSurviveIff(Stored(last, mail), names);
    if AreLines(mail.body) {
      LinesOfStoredBody(mail.body);
    }
  }

  /** A header line with a line separator in its value is lost. */
  lemma {:induction false} SeparatorInValueIsLost(last: Option<string>, mail: Mail, line: string, names: seq<string>)
    requires mail.header == [line] && Stuff(line) == line && IsHeaderLine(line) && !NoLineBreaks(ValueOf(line))
    requires MayRemember(last) && Enumerates(names, Stored(last, mail).headers)
    ensures Load(Print(Stored(last, mail), names)).headers != Stored(last, mail).headers
  {
    OnlyField(last, line);
    assert Received(mail) == [line];
    MailSurvivesFile(last, mail, names);
  }

  lemma {:induction false} OnlyField(last: Option<string>, line: string)
    requires IsHeaderLine(line)
    ensures var f := Field(NameOf(line), ValueOf(line), []);
            FieldsOf(last, [line]) == [f] && HeaderFolding.Unfolded(f) == f.value
  {
    var none: seq<string> := [];
    var f := Field(NameOf(line), ValueOf(line), []);
    FieldsOfSnoc(last, none, line);
    assert none + [line] == [line];
    assert f.value + "" == f.value;
  }

  /** readLine leaves a line separator of Unicode in a line, where the file reader ends the line. */
  lemma UnicodeSeparatorIsSuch()
    ensures var line := "N:" + "a\U{2028}b";
            Stuff(line) == line && IsHeaderLine(line) && !NoLineBreaks(ValueOf(line))
  {
    var f := Field("N", "a\U{2028}b", []);
    assert f.name + ":" + f.value == "N:" + "a\U{2028}b";
    FirstLineOfField(f);
    assert Trim(f.value) == f.value && IsLineBreak(f.value[1]);
  }
}
