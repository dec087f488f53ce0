/** End to end: what a client sends is what the store receives. */
module MailDelivery {
  import opened Text
  import opened MailMessages
  import opened SmtpProtocol
  import opened Sessions
  import opened RememberedName

  /** A mail as the client's lines: the commands MAIL, RCPT and DATA, then header and body before dot-stuffing. */
  datatype Mail = Mail(from: string, recipients: seq<string>, data: string, header: seq<string>, body: seq<string>)

  /** A header field: its name, the text after the colon, and its continuation lines. */
  datatype Field = Field(name: string, value: string, continuations: seq<string>)

  // ---------- the client ----------

  /** Dot-stuffing, section 4.5.2 of RFC 5321. */
  function Stuff(line: string): string {
    if StartsWith(line, ".") then "." + line else line
  }

  function StuffAll(lines: seq<string>): (r: seq<string>)
    ensures |r| == |lines|
    ensures forall i :: 0 <= i < |lines| ==> r[i] == Stuff(lines[i])
  {
    if lines == [] then [] else [Stuff(lines[0])] + StuffAll(lines[1..])
  }

  function Envelope(mail: Mail): seq<string> {
    [mail.from] + mail.recipients + [mail.data]
  }

  function Script(mail: Mail): seq<string> {
    Envelope(mail) + Received(mail) + [""] + StuffAll(mail.body) + ["."]
  }

  /** The header lines as the server takes them: among headers it leaves stuffed dots in place. */
  function Received(mail: Mail): seq<string> {
    StuffAll(mail.header)
  }

  /** That is as the client means them exactly when no header line begins with a dot. */
  lemma {:induction false} StuffingShowsInDots(lines: seq<string>)
    ensures StuffAll(lines) == lines <==> forall i :: 0 <= i < |lines| ==> !StartsWith(lines[i], ".")
  {
    forall i | 0 <= i < |lines|
      ensures Stuff(lines[i]) == lines[i] <==> !StartsWith(lines[i], ".")
    {
      assert StartsWith(lines[i], ".") ==> |Stuff(lines[i])| == |lines[i]| + 1;
    }
  }

  function Scripts(mails: seq<Mail>): seq<string> {
    if mails == [] then [] else Script(mails[0]) + Scripts(mails[1..])
  }

  function Conversation(greeting: string, mails: seq<Mail>, farewell: string): seq<string> {
    [greeting] + Scripts(mails) + [farewell]
  }

  /** The commands are what they should be, no header line is empty, and body lines are lines. */
  predicate GoodMail(mail: Mail) {
    && CommandOf(mail.from) == MailFrom && CommandOf(mail.data) == Data
    && (forall i :: 0 <= i < |mail.recipients| ==> CommandOf(mail.recipients[i]) == RcptTo)
    && "" !in mail.header
    && (forall i :: 0 <= i < |mail.body| ==> '\n' !in mail.body[i])
  }

  /** Whatever follows the key words, and in whatever case they are, the lines are these commands. */
  lemma UsualCommands(rest: string)
    ensures CommandOf("EHLO " + rest) == Ehlo && CommandOf("HELO" + rest) == Ehlo
    ensures CommandOf("MAIL FROM:" + rest) == MailFrom && CommandOf("RCPT TO:" + rest) == RcptTo
    ensures CommandOf("DATA" + rest) == Data && CommandOf("QUIT" + rest) == QuitSession
  {
    UpperPrefix("EHLO ", rest);
    UpperPrefix("HELO", rest);
    UpperPrefix("MAIL FROM:", rest);
    UpperPrefix("RCPT TO:", rest);
    UpperPrefix("DATA", rest);
    UpperPrefix("QUIT", rest);
    CommandByPrefix(Greet, "EHLO " + rest);
    CommandByPrefix(Greet, "HELO" + rest);
    CommandByPrefix(Greet, "MAIL FROM:" + rest);
    CommandByPrefix(Greet, "RCPT TO:" + rest);
    CommandByPrefix(Greet, "DATA" + rest);
    CommandByPrefix(Greet, "QUIT" + rest);
  }

  lemma UpperPrefix(command: string, rest: string)
    requires ToUpperCase(command) == command
    ensures StartsWith(ToUpperCase(command + rest), command)
  {
    assert forall i :: 0 <= i < |command| ==> ToUpperCase(command + rest)[i] == ToUpperCase(command)[i];
  }

  // ---------- what is stored ----------

  function NameOf(line: string): string
    requires IsHeaderLine(line)
  {
    Trim(line[..IndexOf(line, ':').value])
  }

  function ValueOf(line: string): string
    requires IsHeaderLine(line)
  {
    Trim(line[IndexOf(line, ':').value + 1..])
  }

  /** The fields that some header lines make, last being the name remembered from before: a name before a colon
      begins a field, and so does white space at first, under that name; later, white space continues the field
      before it; any other line is passed over. */
  function FieldsOf(last: Option<string>, lines: seq<string>): seq<Field> {
    if lines == [] then [] else AddLine(last, FieldsOf(last, lines[..|lines| - 1]), lines[|lines| - 1])
  }

  function AddLine(last: Option<string>, fields: seq<Field>, line: string): seq<Field> {
    if IsHeaderLine(line) then fields + [Field(NameOf(line), ValueOf(line), [])]
    else if !WhiteSpacedLineStart(line) then fields
    else if fields != [] then fields[..|fields| - 1] + [Continued(fields[|fields| - 1], line)]
    else if last.Some? then [Field(last.value, StripTab(line), [])]
    else []
  }

  function Continued(f: Field, line: string): Field {
    f.(continuations := f.continuations + [line])
  }

  function Extended(headers: Headers, name: string, texts: seq<string>): (r: Headers)
    requires name in headers && headers[name] != []
    ensures name in r && r[name] != [] && r.Keys == headers.Keys
    ensures forall n :: n in headers && n != name ==> r[n] == headers[n]
  {
    if texts == [] then headers
    else
      var before := Extended(headers, name, texts[..|texts| - 1]);
      before[name := ExtendLast(before[name], StripTab(texts[|texts| - 1]))]
  }

  function StripTab(line: string): string {
    if line == "" then "" else StripStartingTab(line)
  }

  function AfterField(headers: Headers, f: Field): Headers {
    Extended(headers[f.name := Values(headers, f.name) + [f.value]], f.name, f.continuations)
  }

  function AfterFields(fields: seq<Field>): (headers: Headers)
    ensures forall name :: name in headers ==> headers[name] != []
    ensures forall i :: 0 <= i < |fields| ==> fields[i].name in headers
  {
    if fields == [] then map[] else AfterField(AfterFields(fields[..|fields| - 1]), fields[|fields| - 1])
  }

  /** The lines joined by newlines, with one more in front when the first line is empty. */
  function StoredBody(lines: seq<string>): string {
    (if lines != [] && lines[0] == "" then "\n" else "") + Join(lines, "\n")
  }

  /** The mail as stored by a session that remembers this name. */
  function Stored(last: Option<string>, mail: Mail): Message {
    Message(AfterFields(FieldsOf(last, Received(mail))), StoredBody(mail.body))
  }

  /** The name that the session remembers after the mail. */
  function NameAfter(last: Option<string>, mail: Mail): Option<string> {
    LastName(FieldsOf(last, Received(mail)), last)
  }

  function AllStored(last: Option<string>, mails: seq<Mail>): (r: seq<Message>)
    ensures |r| == |mails|
    decreases |mails|
  {
    if mails == [] then [] else [Stored(last, mails[0])] + AllStored(NameAfter(last, mails[0]), mails[1..])
  }

  function Repeat(code: int, n: nat): seq<int> {
    seq(n, _ => code)
  }

  /** MAIL, each RCPT, DATA and the final dot are all accepted. */
  function Replies(mail: Mail): seq<int> {
    [250] + Repeat(250, |mail.recipients|) + [354, 250]
  }

  function AllReplies(mails: seq<Mail>): seq<int> {
    if mails == [] then [] else Replies(mails[0]) + AllReplies(mails[1..])
  }

  // ---------- fields as a client writes them ----------

  function FieldLines(f: Field): seq<string> {
    [f.name + ":" + f.value] + f.continuations
  }

  function HeaderLines(fields: seq<Field>): seq<string> {
    if fields == [] then [] else HeaderLines(fields[..|fields| - 1]) + FieldLines(fields[|fields| - 1])
  }

  /** A name that ends at its colon and does not look like a continuation; continuations that do. */
  predicate Writable(f: Field) {
    && f.name != "" && ':' !in f.name && !WhiteSpacedLineStart(f.name)
    && forall i :: 0 <= i < |f.continuations| ==> WhiteSpacedLineStart(f.continuations[i])
  }

  /** The server trims the name and the text on the first line. */
  function Trimmed(f: Field): Field {
    f.(name := Trim(f.name), value := Trim(f.value))
  }

  function AllTrimmed(fields: seq<Field>): (r: seq<Field>)
    ensures |r| == |fields| && forall i :: 0 <= i < |fields| ==> r[i] == Trimmed(fields[i])
  {
    seq(|fields|, i requires 0 <= i < |fields| => Trimmed(fields[i]))
  }

  lemma {:induction false} IndexOfEndOfName(name: string, rest: string)
    requires ':' !in name
    ensures IndexOf(name + ":" + rest, ':') == Some(|name|)
  {
    var line := name + ":" + rest;
    if name != "" {
      assert line[1..] == name[1..] + ":" + rest;
      IndexOfEndOfName(name[1..], rest);
    }
  }

  lemma FirstLineOfField(f: Field)
    requires Writable(f)
    ensures var line := f.name + ":" + f.value;
            IsHeaderLine(line) && NameOf(line) == Trim(f.name) && ValueOf(line) == Trim(f.value)
  {
    var line := f.name + ":" + f.value;
    IndexOfEndOfName(f.name, f.value);
    assert line[0] == f.name[0];
    assert line[..|f.name|] == f.name && line[|f.name| + 1..] == f.value;
  }

  lemma FieldsOfMore(last: Option<string>, before: seq<string>, init: seq<string>, line: string)
    ensures FieldsOf(last, before + (init + [line])) == AddLine(last, FieldsOf(last, before + init), line)
  {
    ConcatIsAssociative(before, init, [line]);
  }

  lemma WhiteSpaceIsNoHeader(line: string)
    requires WhiteSpacedLineStart(line)
    ensures !IsHeaderLine(line)
  {
  }

  lemma OneMoreContinuation(last: Option<string>, before: seq<Field>, f: Field, text: string)
    requires WhiteSpacedLineStart(text)
    ensures AddLine(last, before + [f], text) == before + [Continued(f, text)]
  {
    WhiteSpaceIsNoHeader(text);
    assert (before + [f])[..|before|] == before;
  }

  lemma {:induction false} ContinuationsFollow(last: Option<string>, lines: seq<string>, before: seq<Field>, f: Field,
                                               texts: seq<string>)
    requires FieldsOf(last, lines) == before + [f.(continuations := [])]
    requires forall i :: 0 <= i < |texts| ==> WhiteSpacedLineStart(texts[i])
    ensures FieldsOf(last, lines + texts) == before + [f.(continuations := texts)]
  {
    if texts == [] {
      assert lines + texts == lines;
    } else {
      var init, text := texts[..|texts| - 1], texts[|texts| - 1];
      assert texts == init + [text];
      ContinuationsFollow(last, lines, before, f, init);
      FieldsOfMore(last, lines, init, text);
      OneMoreContinuation(last, before, f.(continuations := init), text);
    }
  }

  lemma FieldsOfSnoc(last: Option<string>, lines: seq<string>, line: string)
    ensures FieldsOf(last, lines + [line]) == AddLine(last, FieldsOf(last, lines), line)
  {
    assert (lines + [line])[..|lines|] == lines;
  }

  lemma FieldBegins(last: Option<string>, lines: seq<string>, f: Field)
    requires Writable(f)
    ensures FieldsOf(last, lines + [f.name + ":" + f.value])
         == FieldsOf(last, lines) + [Trimmed(f).(continuations := [])]
  {
    FirstLineOfField(f);
    FieldsOfSnoc(last, lines, f.name + ":" + f.value);
  }

  lemma {:induction false} AllTrimmedSnoc(fields: seq<Field>)
    requires fields != []
    ensures AllTrimmed(fields) == AllTrimmed(fields[..|fields| - 1]) + [Trimmed(fields[|fields| - 1])]
  {
  }

  lemma {:induction false} WrittenFieldIsRead(last: Option<string>, lines: seq<string>, f: Field)
    requires Writable(f)
    ensures FieldsOf(last, lines + FieldLines(f)) == FieldsOf(last, lines) + [Trimmed(f)]
  {
    var line := f.name + ":" + f.value;
    FieldBegins(last, lines, f);
    ContinuationsFollow(last, lines + [line], FieldsOf(last, lines), Trimmed(f), f.continuations);
    ConcatIsAssociative(lines, [line], f.continuations);
  }

  /** Writing fields and reading them gives the same fields, trimmed, whatever name is remembered. */
  lemma {:induction false} WrittenFieldsAreRead(last: Option<string>, fields: seq<Field>)
    requires forall i :: 0 <= i < |fields| ==> Writable(fields[i])
    ensures FieldsOf(last, HeaderLines(fields)) == AllTrimmed(fields)
  {
    if fields != [] {
      var init, f := fields[..|fields| - 1], fields[|fields| - 1];
      WrittenFieldsAreRead(last, init);
      WrittenFieldIsRead(last, HeaderLines(init), f);
      AllTrimmedSnoc(fields);
    }
  }

  /** In the usual form, with a blank after the colon and no white space around, they come back as they are. */
  lemma UsualFieldIsExact(name: string, value: string, continuations: seq<string>)
    requires IsTrimmed(name) && IsTrimmed(value)
    ensures Trimmed(Field(name, " " + value, continuations)) == Field(name, value, continuations)
  {
    TrimDropsLeadingSpace(name);
    TrimDropsLeadingSpace(value);
  }

  lemma {:induction false} SameFieldsAfter(last: Option<string>, a: seq<string>, b: seq<string>, lines: seq<string>)
    requires FieldsOf(last, a) == FieldsOf(last, b)
    ensures FieldsOf(last, a + lines) == FieldsOf(last, b + lines)
  {
    if lines == [] {
      assert a + lines == a && b + lines == b;
    } else {
      var init, line := lines[..|lines| - 1], lines[|lines| - 1];
      assert lines == init + [line];
      SameFieldsAfter(last, a, b, init);
      FieldsOfMore(last, a, init, line);
      FieldsOfMore(last, b, init, line);
    }
  }

  /** A line that is neither a header nor a continuation can be left out anywhere. */
  lemma OtherLinesAreIgnored(last: Option<string>, before: seq<string>, line: string, after: seq<string>)
    requires !IsHeaderLine(line) && !WhiteSpacedLineStart(line)
    ensures FieldsOf(last, before + [line] + after) == FieldsOf(last, before + after)
  {
    SameFieldsAfter(last, before + [line], before, after);
  }

  // ---------- header lines ----------

  /** The name that continuation lines refer to after some fields. */
  function LastName(fields: seq<Field>, remembered: Option<string>): Option<string> {
    if fields == [] then remembered else Some(fields[|fields| - 1].name)
  }

  lemma AfterFieldsSnoc(fields: seq<Field>, f: Field)
    ensures AfterFields(fields + [f]) == AfterField(AfterFields(fields), f)
  {
    assert (fields + [f])[..|fields|] == fields;
  }

  lemma ContinuedHeaders(fields: seq<Field>, line: string)
    requires fields != []
    ensures var (headers, name) := (AfterFields(fields), fields[|fields| - 1].name);
            AfterFields(fields[..|fields| - 1] + [Continued(fields[|fields| - 1], line)])
            == headers[name := ExtendLast(headers[name], StripTab(line))]
  {
    var init, f := fields[..|fields| - 1], fields[|fields| - 1];
    AfterFieldsSnoc(init, Continued(f, line));
    assert (f.continuations + [line])[..|f.continuations|] == f.continuations;
  }

  lemma HeaderContinues(last: Option<string>, fields: seq<Field>, line: string)
    requires WhiteSpacedLineStart(line) && fields != []
    ensures AddDataHeader(Message(AfterFields(fields), ""), LastName(fields, last), line)
         == (Message(AfterFields(AddLine(last, fields, line)), ""), LastName(AddLine(last, fields, line), last))
  {
    WhiteSpaceIsNoHeader(line);
    ContinuedHeaders(fields, line);
  }

  lemma HeaderBegins(last: Option<string>, line: string)
    requires WhiteSpacedLineStart(line) && last.Some?
    ensures AddDataHeader(EMPTY_MESSAGE, last, line) == (Message(AfterFields(AddLine(last, [], line)), ""), last)
  {
    WhiteSpaceIsNoHeader(line);
    AfterFieldsSnoc([], Field(last.value, StripTab(line), []));
  }

  /** addDataHeader does to the message what the line does to the fields. */
  lemma HeaderLineAddsToFields(last: Option<string>, fields: seq<Field>, line: string)
    ensures WellFormed(Message(AfterFields(fields), ""))
    ensures AddDataHeader(Message(AfterFields(fields), ""), LastName(fields, last), line)
         == (Message(AfterFields(AddLine(last, fields, line)), ""), LastName(AddLine(last, fields, line), last))
  {
    if IsHeaderLine(line) {
      AfterFieldsSnoc(fields, Field(NameOf(line), ValueOf(line), []));
    } else if WhiteSpacedLineStart(line) && fields != [] {
      HeaderContinues(last, fields, line);
    } else if WhiteSpacedLineStart(line) && last.Some? {
      HeaderBegins(last, line);
    }
  }

  /** The header lines of a block leave the headers that their fields make. */
  lemma {:induction false} HeaderRun(s: Session, lines: seq<string>)
    requires s.state == DataHdr && s.msg == EMPTY_MESSAGE && "" !in lines && "." !in lines
    ensures var fields := FieldsOf(s.lastHeaderName, lines);
            Run(s, lines)
            == s.(msg := Message(AfterFields(fields), ""), lastHeaderName := LastName(fields, s.lastHeaderName))
  {
    if lines == [] {
      assert FieldsOf(s.lastHeaderName, lines) == [];
    } else {
      var init, line := lines[..|lines| - 1], lines[|lines| - 1];
      assert lines == init + [line];
      HeaderRun(s, init);
      HeaderLineRun(s, init, line);
    }
  }

  lemma {:induction false} HeaderLineRun(s: Session, init: seq<string>, line: string)
    requires s.state == DataHdr && Sound(s) && line != "" && line != "."
    requires var fields := FieldsOf(s.lastHeaderName, init);
             Run(s, init)
             == s.(msg := Message(AfterFields(fields), ""), lastHeaderName := LastName(fields, s.lastHeaderName))
    ensures var fields := FieldsOf(s.lastHeaderName, init + [line]);
            Run(s, init + [line])
            == s.(msg := Message(AfterFields(fields), ""), lastHeaderName := LastName(fields, s.lastHeaderName))
  {
    var mid := Run(s, init);
    RunAppend(s, init, [line]);
    HeaderLineStep(mid, line);
    HeaderLineAddsToFields(s.lastHeaderName, FieldsOf(s.lastHeaderName, init), line);
  }

  lemma ReceivedIsHeaderInput(mail: Mail)
    requires GoodMail(mail)
    ensures "" !in Received(mail) && "." !in Received(mail)
  {
    assert forall i :: 0 <= i < |mail.header| ==>
             mail.header[i] in mail.header && Received(mail)[i] == Stuff(mail.header[i]);
  }

  // ---------- mails that do not depend on the remembered name ----------

  lemma {:induction false} NoFieldsNoHeaders(lines: seq<string>)
    requires FieldsOf(None, lines) == []
    ensures forall i :: 0 <= i < |lines| ==> !IsHeaderLine(lines[i])
  {
    if lines != [] {
      var init := lines[..|lines| - 1];
      NoFieldsNoHeaders(init);
      assert lines == init + [lines[|lines| - 1]];
    }
  }

  lemma {:induction false} ContinuationComesFirst(lines: seq<string>, line: string)
    requires "" !in lines && WhiteSpacedLineStart(line)
    requires forall i :: 0 <= i < |lines| ==> !IsHeaderLine(lines[i])
    ensures StartsWithContinuation(lines + [line])
  {
    WhiteSpaceIsNoHeader(line);
    if lines == [] {
      assert lines + [line] == [line];
    } else {
      assert (lines + [line])[1..] == lines[1..] + [line];
      ContinuationComesFirst(lines[1..], line);
    }
  }

  lemma {:induction false} StartsInPrefix(a: seq<string>, b: seq<string>)
    requires StartsWithContinuation(a)
    ensures StartsWithContinuation(a + b)
  {
    assert (a + b)[1..] == a[1..] + b;
    if !WhiteSpacedLineStart(a[0]) {
      StartsInPrefix(a[1..], b);
    }
  }

  lemma {:induction false} FieldsIgnoreName(last: Option<string>, lines: seq<string>)
    requires "" !in lines && !StartsWithContinuation(lines)
    ensures FieldsOf(last, lines) == FieldsOf(None, lines)
  {
    if lines != [] {
      var init, line := lines[..|lines| - 1], lines[|lines| - 1];
      assert lines == init + [line];
      if StartsWithContinuation(init) {
        StartsInPrefix(init, [line]);
      }
      FieldsIgnoreName(last, init);
      if FieldsOf(None, init) == [] && WhiteSpacedLineStart(line) {
        NoFieldsNoHeaders(init);
        ContinuationComesFirst(init, line);
      }
    }
  }

  /** Mails whose header lines begin no continuation before a field are stored as they are alone, in any company. */
  lemma {:induction false} AllStoredAlone(last: Option<string>, mails: seq<Mail>)
    requires forall i :: 0 <= i < |mails| ==> GoodMail(mails[i]) && !StartsWithContinuation(Received(mails[i]))
    ensures forall i :: 0 <= i < |mails| ==> AllStored(last, mails)[i] == Stored(None, mails[i])
    decreases |mails|
  {
    if mails != [] {
      var next := NameAfter(last, mails[0]);
      StoredAlone(last, mails[0]);
      AllStoredAlone(next, mails[1..]);
      forall i | 0 <= i < |mails|
        ensures AllStored(last, mails)[i] == Stored(None, mails[i])
      {
        StoredAt(last, mails, i);
        if i > 0 {
          assert mails[i] == mails[1..][i - 1];
        }
      }
    }
  }

  lemma {:induction false} StoredAt(last: Option<string>, mails: seq<Mail>, i: nat)
    requires i < |mails|
    ensures AllStored(last, mails)[i]
         == if i == 0 then Stored(last, mails[0]) else AllStored(NameAfter(last, mails[0]), mails[1..])[i - 1]
  {
  }

  lemma StoredAlone(last: Option<string>, mail: Mail)
    requires GoodMail(mail) && !StartsWithContinuation(Received(mail))
    ensures Stored(last, mail) == Stored(None, mail)
  {
    ReceivedIsHeaderInput(mail);
    FieldsIgnoreName(last, Received(mail));
  }

  // ---------- body lines ----------

  function AfterLines(body: string, lines: seq<string>): string
    decreases |lines|
  {
    if lines == [] then body
    else AfterLines(WithBodyText(Message(map[], body), if lines[0] == "" then "\n" else lines[0]).body, lines[1..])
  }

  lemma {:induction false} StuffedLineStep(s: Session, line: string)
    requires s.state == DataBody && Sound(s) && '\n' !in line
    ensures Step(s, Stuff(line)) == s.(msg := s.msg.(body := AfterLines(s.msg.body, [line])))
  {
    UnstuffedLine(line);
    BodyLineStep(s, Stuff(line));
    assert [line][1..] == [];
  }

  /** What the server makes of a stuffed line is the line. */
  lemma {:induction false} UnstuffedLine(line: string)
    ensures Stuff(line) != "." && (Stuff(line) == "" <==> line == "")
    ensures (if StartsWith(Stuff(line), ".") then Stuff(line)[1..] else Stuff(line)) == line
  {
    if StartsWith(line, ".") {
      assert |Stuff(line)| == |line| + 1 && Stuff(line)[1..] == line;
    }
  }

  lemma {:induction false} BodyRun(s: Session, lines: seq<string>)
    requires s.state == DataBody && Sound(s)
    requires forall i :: 0 <= i < |lines| ==> '\n' !in lines[i]
    ensures Run(s, StuffAll(lines)) == s.(msg := s.msg.(body := AfterLines(s.msg.body, lines)))
    decreases |lines|
  {
    if lines != [] {
      StuffedLineStep(s, lines[0]);
      var text := if lines[0] == "" then "\n" else lines[0];
      assert AfterLines(s.msg.body, [lines[0]]) == WithBodyText(Message(map[], s.msg.body), text).body by {
        assert [lines[0]][1..] == [];
      }
      assert StuffAll(lines)[1..] == StuffAll(lines[1..]);
      BodyRun(Step(s, Stuff(lines[0])), lines[1..]);
    }
  }

  lemma {:induction false} AfterMoreLines(body: string, lines: seq<string>)
    requires body != "" && forall i :: 0 <= i < |lines| ==> '\n' !in lines[i]
    ensures AfterLines(body, lines) == if lines == [] then body else body + "\n" + Join(lines, "\n")
    decreases |lines|
  {
    if lines != [] {
      var text := if lines[0] == "" then "\n" else lines[0];
      var next := WithBodyText(Message(map[], body), text).body;
      assert next == body + "\n" + lines[0];
      AfterMoreLines(next, lines[1..]);
      if |lines| > 1 {
        assert body + "\n" + lines[0] + "\n" + Join(lines[1..], "\n")
            == body + "\n" + (lines[0] + "\n" + Join(lines[1..], "\n"));
      }
    }
  }

  lemma FirstLineTaken(lines: seq<string>)
    requires lines != []
    ensures AfterLines("", lines) == AfterLines(if lines[0] == "" then "\n" else lines[0], lines[1..])
  {
    var first := if lines[0] == "" then "\n" else lines[0];
    assert WithBodyText(Message(map[], ""), first).body == first;
  }

  lemma StoredAfterText(lines: seq<string>)
    requires lines != [] && lines[0] != ""
    ensures StoredBody(lines) == if |lines| == 1 then lines[0] else lines[0] + "\n" + Join(lines[1..], "\n")
  {
    assert "" + Join(lines, "\n") == Join(lines, "\n");
  }

  lemma StoredAfterEmptyLine(lines: seq<string>)
    requires lines != [] && lines[0] == ""
    ensures StoredBody(lines) == if |lines| == 1 then "\n" else "\n" + "\n" + Join(lines[1..], "\n")
  {
    if |lines| > 1 {
      assert Join(lines, "\n") == "\n" + Join(lines[1..], "\n");
    }
  }

  lemma BodyIsJoined(lines: seq<string>)
    requires forall i :: 0 <= i < |lines| ==> '\n' !in lines[i]
    ensures AfterLines("", lines) == StoredBody(lines)
  {
    if lines != [] {
      FirstLineTaken(lines);
      AfterMoreLines(if lines[0] == "" then "\n" else lines[0], lines[1..]);
      if lines[0] == "" {
        StoredAfterEmptyLine(lines);
      } else {
        StoredAfterText(lines);
      }
    }
  }

  /** The stored body is the lines joined by newlines exactly when the first line is not empty. */
  lemma BodyIsExactUnlessFirstLineEmpty(lines: seq<string>)
    ensures StoredBody(lines) == Join(lines, "\n") <==> (lines == [] || lines[0] != "")
  {
    assert lines != [] && lines[0] == "" ==> |StoredBody(lines)| == 1 + |Join(lines, "\n")|;
  }

  // ---------- the envelope ----------

  lemma {:induction false} CommandStep(s: Session, line: string)
    requires Sound(s) && !InData(s.state) && CommandOf(line) in {Ehlo, MailFrom, RcptTo, Data, QuitSession}
    requires var next := Respond(CommandOf(line), s.state).nextState;
             next !in {DataBody, Quit} && (CommandOf(line) != Data ==> next != DataHdr)
    ensures var response := Respond(CommandOf(line), s.state);
            Step(s, line) == s.(state := response.nextState, replies := s.replies + [response.code])
  {
  }

  lemma CommandRun(s: Session, line: string, state: SmtpState, code: int)
    requires Sound(s) && !InData(s.state) && s.state != Connect
    requires CommandOf(line) in {Ehlo, MailFrom, RcptTo, QuitSession} || (CommandOf(line) == Data && s.state == Rcpt)
    requires Respond(CommandOf(line), s.state) == Response(code, state) && state !in {DataBody, Quit}
    ensures Run(s, [line]) == s.(state := state, replies := s.replies + [code])
  {
    CommandStep(s, line);
  }

  lemma {:induction false} RecipientsRun(s: Session, recipients: seq<string>)
    requires Sound(s) && s.state == Rcpt
    requires forall i :: 0 <= i < |recipients| ==> CommandOf(recipients[i]) == RcptTo
    ensures Run(s, recipients) == s.(replies := s.replies + Repeat(250, |recipients|))
    decreases |recipients|
  {
    if recipients == [] {
      assert s.replies + Repeat(250, 0) == s.replies;
    } else {
      var next := s.(replies := s.replies + [250]);
      CommandStep(s, recipients[0]);
      RecipientsRun(next, recipients[1..]);
      assert s.replies + [250] + Repeat(250, |recipients| - 1) == s.replies + Repeat(250, |recipients|);
    }
  }

  lemma EnvelopeRun(s: Session, mail: Mail)
    requires Sound(s) && s.state in {SmtpState.Mail, Quit} && GoodMail(mail)
    ensures Run(s, Envelope(mail))
         == s.(state := DataHdr, replies := s.replies + [250] + Repeat(250, |mail.recipients|) + [354])
  {
    var s1 := s.(state := Rcpt, replies := s.replies + [250]);
    var s2 := s1.(replies := s1.replies + Repeat(250, |mail.recipients|));
    CommandRun(s, mail.from, Rcpt, 250);
    RecipientsRun(s1, mail.recipients);
    RunAppend(s, [mail.from], mail.recipients);
    CommandRun(s2, mail.data, DataHdr, 354);
    RunAppend(s, [mail.from] + mail.recipients, [mail.data]);
  }

  // ---------- whole mails ----------

  lemma EmptyLineStep(s: Session)
    requires Sound(s) && s.state == DataHdr
    ensures Run(s, [""]) == s.(state := DataBody)
  {
  }

  lemma {:induction false} FinalDotStep(s: Session)
    requires Sound(s) && InData(s.state)
    ensures Run(s, ["."])
         == s.(state := Quit, msg := EMPTY_MESSAGE, delivered := s.delivered + [s.msg], replies := s.replies + [250])
  {
    RunOne(s, ".");
    assert Respond(DataEnd, s.state) == Response(250, Quit);
  }

  /** The session after a mail has been stored. */
  ghost function Done(s: Session, mail: Mail, replies: seq<int>): Session {
    var last := s.lastHeaderName;
    Session(Quit, EMPTY_MESSAGE, NameAfter(last, mail), s.delivered + [Stored(last, mail)], s.replies + replies)
  }

  lemma DataRun(s: Session, mail: Mail)
    requires s.state == DataHdr && s.msg == EMPTY_MESSAGE && GoodMail(mail)
    ensures Run(s, Received(mail) + [""] + StuffAll(mail.body) + ["."]) == Done(s, mail, [250])
  {
    var header, body, last := Received(mail), StuffAll(mail.body), s.lastHeaderName;
    var s1 := s.(msg := Message(AfterFields(FieldsOf(last, header)), ""), lastHeaderName := NameAfter(last, mail));
    var s2 := s1.(state := DataBody);
    var s3 := s2.(msg := Stored(last, mail));
    ReceivedIsHeaderInput(mail);
    HeaderRun(s, header);
    EmptyLineStep(s1);
    RunThrough(s, header, s1, [""], s2);
    BodyRun(s2, mail.body);
    BodyIsJoined(mail.body);
    RunThrough(s, header + [""], s2, body, s3);
    FinalDotStep(s3);
    RunThrough(s, header + [""] + body, s3, ["."], Done(s, mail, [250]));
  }

  lemma RepliesInOrder(replies: seq<int>, mail: Mail)
    ensures replies + [250] + Repeat(250, |mail.recipients|) + [354] + [250] == replies + Replies(mail)
  {
  }

  lemma ScriptParts(mail: Mail)
    ensures Script(mail) == Envelope(mail) + (Received(mail) + [""] + StuffAll(mail.body) + ["."])
  {
  }

  lemma ScriptRun(s: Session, mail: Mail)
    requires s.state in {SmtpState.Mail, Quit} && s.msg == EMPTY_MESSAGE && GoodMail(mail)
    ensures Run(s, Script(mail)) == Done(s, mail, Replies(mail))
  {
    var data := Received(mail) + [""] + StuffAll(mail.body) + ["."];
    var s1 := s.(state := DataHdr, replies := s.replies + [250] + Repeat(250, |mail.recipients|) + [354]);
    EnvelopeRun(s, mail);
    DataRun(s1, mail);
    RepliesInOrder(s.replies, mail);
    RunThrough(s, Envelope(mail), s1, data, Done(s, mail, Replies(mail)));
    ScriptParts(mail);
  }

  function LastNameAfter(last: Option<string>, mails: seq<Mail>): Option<string>
    decreases |mails|
  {
    if mails == [] then last else LastNameAfter(NameAfter(last, mails[0]), mails[1..])
  }

  /** The session after some mails have been stored. */
  ghost function AllDone(s: Session, mails: seq<Mail>): Session {
    Session(if mails == [] then s.state else Quit, EMPTY_MESSAGE, LastNameAfter(s.lastHeaderName, mails),
            s.delivered + AllStored(s.lastHeaderName, mails), s.replies + AllReplies(mails))
  }

  lemma AllDoneAfterDone(s: Session, mails: seq<Mail>)
    requires mails != []
    ensures AllDone(Done(s, mails[0], Replies(mails[0])), mails[1..]) == AllDone(s, mails)
  {
    var last := s.lastHeaderName;
    var rest := AllStored(NameAfter(last, mails[0]), mails[1..]);
    ConcatIsAssociative(s.delivered, [Stored(last, mails[0])], rest);
    ConcatIsAssociative(s.replies, Replies(mails[0]), AllReplies(mails[1..]));
  }

  lemma {:induction false} ScriptsRun(s: Session, mails: seq<Mail>)
    requires s.state in {SmtpState.Mail, Quit} && s.msg == EMPTY_MESSAGE
    requires forall i :: 0 <= i < |mails| ==> GoodMail(mails[i])
    ensures Run(s, Scripts(mails)) == AllDone(s, mails)
    decreases |mails|
  {
    if mails != [] {
      var mid := Done(s, mails[0], Replies(mails[0]));
      ScriptRun(s, mails[0]);
      ScriptsRun(mid, mails[1..]);
      AllDoneAfterDone(s, mails);
      RunThrough(s, Script(mails[0]), mid, Scripts(mails[1..]), AllDone(s, mails));
    }
  }

  const GREETED := Session(SmtpState.Mail, EMPTY_MESSAGE, None, [], [220, 250])

  lemma GreetingRun(greeting: string)
    requires CommandOf(greeting) == Ehlo
    ensures Run(OPENED, [greeting]) == GREETED
  {
    CommandRun(OPENED, greeting, SmtpState.Mail, 250);
    assert OPENED.replies + [250] == [220, 250];
  }

  lemma FarewellRun(s: Session, farewell: string)
    requires Sound(s) && s.state in {SmtpState.Mail, Quit} && CommandOf(farewell) == QuitSession
    ensures Run(s, [farewell]) == s.(state := Connect, replies := s.replies + [221])
  {
    CommandRun(s, farewell, Connect, 221);
  }

  /** Greeting, then the mails, then QUIT. */
  lemma ConversationRun(greeting: string, mails: seq<Mail>, farewell: string)
    requires CommandOf(greeting) == Ehlo && CommandOf(farewell) == QuitSession
    requires forall i :: 0 <= i < |mails| ==> GoodMail(mails[i])
    ensures var served := AllDone(GREETED, mails);
            Run(OPENED, Conversation(greeting, mails, farewell))
            == served.(state := Connect, replies := served.replies + [221])
  {
    var served := AllDone(GREETED, mails);
    GreetingRun(greeting);
    ScriptsRun(GREETED, mails);
    RunThrough(OPENED, [greeting], GREETED, Scripts(mails), served);
    FarewellRun(served, farewell);
    RunThrough(OPENED, [greeting] + Scripts(mails), served, [farewell],
               served.(state := Connect, replies := served.replies + [221]));
  }

  /** The mails of a conversation are delivered to the store, exactly those and in order, each made of its own lines
      and the name that the one before it left; every command is accepted; and the connection ends. */
  lemma EveryMailIsStored(greeting: string, mails: seq<Mail>, farewell: string)
    requires CommandOf(greeting) == Ehlo && CommandOf(farewell) == QuitSession
    requires forall i :: 0 <= i < |mails| ==> GoodMail(mails[i])
    ensures var end := Run(OPENED, Conversation(greeting, mails, farewell));
            && end.state == Connect
            && end.delivered == AllStored(None, mails)
            && end.replies == [220, 250] + AllReplies(mails) + [221]
  {
    ConversationRun(greeting, mails, farewell);
    assert [] + AllStored(None, mails) == AllStored(None, mails);
  }
}
