/** Messages printed to EML files and read back. */
module EmlFiles {
  import opened Text
  import opened MailMessages

  // ---------- lines of a file ----------

  /** What java.util.Scanner takes for a line separator, and the dot of a pattern does not match. */
  predicate IsLineBreak(c: char) {
    c == '\n' || c == '\r' || c == '\U{0085}' || c == '\U{2028}' || c == '\U{2029}'
  }

  predicate NoLineBreaks(s: string) {
    forall i :: 0 <= i < |s| ==> !IsLineBreak(s[i])
  }

  /** Where the first line ends. */
  function LineEnd(s: string): (i: nat)
    ensures i <= |s| && NoLineBreaks(s[..i]) && (i < |s| ==> IsLineBreak(s[i]))
  {
    if s == [] || IsLineBreak(s[0]) then 0
    else
      var i := 1 + LineEnd(s[1..]);
      assert s[..i] == [s[0]] + s[1..][..i - 1];
      i
  }

  /** Where the line after it begins: carriage return and line feed together are one separator. */
  function NextLine(s: string): (i: nat)
    ensures i <= |s| && (s != [] ==> i > 0)
  {
    var i := LineEnd(s);
    if i == |s| then i
    else if s[i] == '\r' && i + 1 < |s| && s[i + 1] == '\n' then i + 2
    else i + 1
  }

  /** The lines that hasNextLine and nextLine go through. */
  function Lines(s: string): seq<string> {
    if s == [] then [] else [s[..LineEnd(s)]] + Lines(s[NextLine(s)..])
  }

  function NonEmpty(lines: seq<string>): seq<string> {
    if lines == [] then []
    else (if lines[0] == "" then [] else [lines[0]]) + NonEmpty(lines[1..])
  }

  predicate AreLines(lines: seq<string>) {
    forall i :: 0 <= i < |lines| ==> NoLineBreaks(lines[i])
  }

  lemma {:induction false} LinesAreLines(s: string)
    ensures AreLines(Lines(s))
    decreases |s|
  {
    if s != [] {
      LinesAreLines(s[NextLine(s)..]);
    }
  }

  lemma {:induction false} NonEmptyLines(lines: seq<string>)
    ensures forall i :: 0 <= i < |NonEmpty(lines)| ==> NonEmpty(lines)[i] != ""
    ensures AreLines(lines) ==> AreLines(NonEmpty(lines))
  {
    if lines != [] {
      NonEmptyLines(lines[1..]);
    }
  }

  lemma {:induction false} LineEndAt(line: string, rest: string)
    requires NoLineBreaks(line) && (rest == [] || IsLineBreak(rest[0]))
    ensures LineEnd(line + rest) == |line|
  {
    var s := line + rest;
    if line == [] {
      assert s == rest;
    } else {
      assert s[1..] == line[1..] + rest;
      LineEndAt(line[1..], rest);
    }
  }

  lemma LinesOfLine(line: string, rest: string)
    requires NoLineBreaks(line)
    ensures Lines(line + "\n" + rest) == [line] + Lines(rest)
  {
    var s := line + "\n" + rest;
    assert s == line + ("\n" + rest);
    LineEndAt(line, "\n" + rest);
    assert s[..|line|] == line && s[|line| + 1..] == rest;
  }

  lemma {:induction false} NextLineAt(s: string, i: nat)
    requires LineEnd(s) == i < |s|
    ensures NextLine(s) == if s[i] == '\r' && i + 1 < |s| && s[i + 1] == '\n' then i + 2 else i + 1
  {
  }

  /** Any of the five separators ends a line, carriage return and line feed together as one; nothing else does. */
  lemma {:induction false} SeparatorsEndLines(line: string, separator: string, rest: string)
    requires forall i :: 0 <= i < |line| ==> line[i] !in {'\n', '\r', '\U{0085}', '\U{2028}', '\U{2029}'}
    requires separator in {"\n", "\r", "\r\n", "\U{0085}", "\U{2028}", "\U{2029}"}
    requires separator == "\r" ==> !("\n" <= rest)
    ensures Lines(line + separator + rest) == [line] + Lines(rest)
    ensures line != "" ==> Lines(line) == [line]
  {
    var s := line + separator + rest;
    assert s == line + (separator + rest) && IsLineBreak((separator + rest)[0]);
    LineEndAt(line, separator + rest);
    NextLineAt(s, |line|);
    SplitLine(s, line, |line| + |separator|, rest);
    if line != "" {
      OneLine(line);
    }
  }

  lemma {:induction false} SplitLine(s: string, line: string, next: nat, rest: string)
    requires LineEnd(s) == |line| < next == NextLine(s) && line <= s && s[next..] == rest
    ensures Lines(s) == [line] + Lines(rest)
  {
    assert s != "" && s[..|line|] == line;
  }

  lemma {:induction false} OneLine(line: string)
    requires line != "" && NoLineBreaks(line)
    ensures Lines(line) == [line]
  {
    LineEndAt(line, []);
    assert line + [] == line && line[..|line|] == line && line[|line|..] == [];
  }

  /** A final newline adds no line that is not empty. */
  lemma {:induction false} FinalNewline(s: string)
    ensures NonEmpty(Lines(s + "\n")) == NonEmpty(Lines(s))
    decreases |s|
  {
    var i, t := LineEnd(s), s + "\n";
    assert t == s[..i] + (s[i..] + "\n");
    LineEndAt(s[..i], s[i..] + "\n");
    assert t[..i] == s[..i];
    if s == [] {
      assert t[NextLine(t)..] == [];
    } else if i == |s| {
      assert t[NextLine(t)..] == [] && s[NextLine(s)..] == [];
    } else if s[i] == '\r' && i + 1 == |s| {
      assert t[NextLine(t)..] == [] && s[NextLine(s)..] == [];
    } else {
      NextLineKept(s);
      FinalNewline(s[NextLine(s)..]);
    }
  }

  lemma {:induction false} NextLineKept(s: string)
    requires LineEnd(s) < |s| && LineEnd(s + "\n") == LineEnd(s) && (s[LineEnd(s)] == '\r' ==> LineEnd(s) + 1 < |s|)
    ensures NextLine(s + "\n") == NextLine(s) && (s + "\n")[NextLine(s)..] == s[NextLine(s)..] + "\n"
  {
    var i, t := LineEnd(s), s + "\n";
    NextLineAt(s, i);
    NextLineAt(t, i);
    assert t[i] == s[i] && (i + 1 < |s| ==> t[i + 1] == s[i + 1]);
    TailWithNewline(s, NextLine(s));
  }

  lemma {:induction false} TailWithNewline(s: string, k: nat)
    requires k <= |s|
    ensures (s + "\n")[k..] == s[k..] + "\n"
  {
  }

  // ---------- printing ----------

  function PrintValues(name: string, values: seq<string>): string {
    if values == [] then "" else name + ": " + values[0] + "\n" + PrintValues(name, values[1..])
  }

  function PrintHeaders(headers: Headers, names: seq<string>): string {
    if names == [] then "" else PrintValues(names[0], Values(headers, names[0])) + PrintHeaders(headers, names[1..])
  }

  /** The text of a file. A hash map lists its names in no particular order: names is any listing. */
  function Print(m: Message, names: seq<string>): string {
    PrintHeaders(m.headers, names) + "\n" + m.body + "\n"
  }

  /** names lists every name of the headers, once. */
  ghost predicate Enumerates(names: seq<string>, headers: Headers) {
    && (forall i, j :: 0 <= i < j < |names| ==> names[i] != names[j])
    && (forall name :: name in names <==> name in headers)
  }

  // ---------- reading ----------

  /** Where the first ": " of a line begins. */
  function Separator(line: string): (r: Option<nat>)
    ensures r.Some? ==> r.value + 1 < |line| && line[r.value] == ':' && line[r.value + 1] == ' '
  {
    if |line| < 2 then None
    else if line[0] == ':' && line[1] == ' ' then Some(0)
    else
      var rest := Separator(line[1..]);
      if rest.None? then None else Some(rest.value + 1)
  }

  function ReadHeader(m: Message, line: string): Message {
    var i := Separator(line);
    if i.None? then m else WithHeader(m, line[..i.value], line[i.value + 2..])
  }

  function ReadBody(m: Message, lines: seq<string>): Message
    decreases |lines|
  {
    if lines == [] then m else ReadBody(WithBodyText(m, lines[0]), lines[1..])
  }

  /** Header lines up to the first empty line, then body lines. */
  function Read(m: Message, lines: seq<string>): Message
    decreases |lines|
  {
    if lines == [] then m
    else if lines[0] == "" then ReadBody(m, lines[1..])
    else Read(ReadHeader(m, lines[0]), lines[1..])
  }

  function Load(text: string): Message {
    Read(EMPTY_MESSAGE, Lines(text))
  }

  // ---------- what the headers must be like ----------

  predicate CleanName(name: string) {
    NoLineBreaks(name) && Separator(name).None?
  }

  predicate CleanValues(values: seq<string>) {
    AreLines(values)
  }

  ghost predicate CleanHeaders(headers: Headers) {
    forall name :: name in headers ==> CleanName(name) && CleanValues(headers[name])
  }

  // ---------- round trip ----------

  lemma {:induction false} SeparatorAfterName(name: string, rest: string)
    requires Separator(name).None?
    ensures Separator(name + ": " + rest) == Some(|name|)
  {
    var line := name + ": " + rest;
    if name != "" {
      assert line[1..] == name[1..] + ": " + rest;
      if |name| == 1 {
        assert name[1..] == "";
        assert line[1] == ':';
      } else {
        assert line[0] == name[0] && line[1] == name[1];
      }
      SeparatorAfterName(name[1..], rest);
    }
  }

  lemma ReadPrintedHeader(m: Message, name: string, value: string)
    requires CleanName(name)
    ensures ReadHeader(m, name + ": " + value) == WithHeader(m, name, value)
  {
    SeparatorAfterName(name, value);
    var line := name + ": " + value;
    assert line[..|name|] == name && line[|name| + 2..] == value;
  }

  /** The lines that the values of one name are printed on. */
  function ValueLines(name: string, values: seq<string>): seq<string> {
    if values == [] then [] else [name + ": " + values[0]] + ValueLines(name, values[1..])
  }

  function HeaderLines(headers: Headers, names: seq<string>): seq<string> {
    if names == [] then [] else ValueLines(names[0], Values(headers, names[0])) + HeaderLines(headers, names[1..])
  }

  lemma PrintedCons(name: string, values: seq<string>, rest: string)
    requires values != []
    ensures PrintValues(name, values) + rest
         == (name + ": " + values[0]) + "\n" + (PrintValues(name, values[1..]) + rest)
  {
    ConcatIsAssociative(name + ": " + values[0] + "\n", PrintValues(name, values[1..]), rest);
  }

  lemma {:induction false} LinesOfValues(name: string, values: seq<string>, rest: string)
    requires CleanName(name) && CleanValues(values)
    ensures Lines(PrintValues(name, values) + rest) == ValueLines(name, values) + Lines(rest)
  {
    if values == [] {
      assert "" + rest == rest;
    } else {
      var line, more := name + ": " + values[0], PrintValues(name, values[1..]) + rest;
      PrintedCons(name, values, rest);
      LinesOfLine(line, more);
      LinesOfValues(name, values[1..], rest);
      ConcatIsAssociative([line], ValueLines(name, values[1..]), Lines(rest));
    }
  }

  lemma {:induction false} LinesOfHeaders(headers: Headers, names: seq<string>, rest: string)
    requires CleanHeaders(headers) && forall i :: 0 <= i < |names| ==> names[i] in headers
    ensures Lines(PrintHeaders(headers, names) + rest) == HeaderLines(headers, names) + Lines(rest)
  {
    if names == [] {
      assert "" + rest == rest;
    } else {
      var name, tail := names[0], names[1..];
      var first, more := PrintValues(name, headers[name]), PrintHeaders(headers, tail);
      LinesOfHeaders(headers, tail, rest);
      LinesOfValues(name, headers[name], more + rest);
      ConcatIsAssociative(first, more, rest);
      ConcatIsAssociative(ValueLines(name, headers[name]), HeaderLines(headers, tail), Lines(rest));
    }
  }

  lemma ReadFirstValue(m: Message, name: string, values: seq<string>, rest: seq<string>)
    requires CleanName(name) && values != []
    ensures Read(m, ValueLines(name, values) + rest)
         == Read(WithHeader(m, name, values[0]), ValueLines(name, values[1..]) + rest)
  {
    var lines := ValueLines(name, values) + rest;
    assert lines[0] == name + ": " + values[0] && lines[1..] == ValueLines(name, values[1..]) + rest;
    ReadPrintedHeader(m, name, values[0]);
  }

  lemma {:induction false} ReadValues(m: Message, name: string, values: seq<string>, rest: seq<string>)
    requires CleanName(name) && values != []
    ensures Read(m, ValueLines(name, values) + rest)
         == Read(m.(headers := m.headers[name := Values(m.headers, name) + values]), rest)
    decreases |values|
  {
    var next := WithHeader(m, name, values[0]);
    ReadFirstValue(m, name, values, rest);
    if |values| == 1 {
      assert [] + rest == rest && values == [values[0]];
    } else {
      ReadValues(next, name, values[1..], rest);
      assert Values(next.headers, name) + values[1..] == Values(m.headers, name) + values;
      var all := Values(m.headers, name) + values;
      assert next.headers[name := all] == m.headers[name := all];
    }
  }

  /** The headers with those of the listed names taken from another message. */
  function Taken(to: Headers, from: Headers, names: seq<string>): Headers
    decreases |names|
  {
    if names == [] then to else Taken(to[names[0] := Values(from, names[0])], from, names[1..])
  }

  lemma {:induction false} ReadHeaders(m: Message, headers: Headers, names: seq<string>, rest: seq<string>)
    requires CleanHeaders(headers) && WellFormed(Message(headers, ""))
    requires forall i :: 0 <= i < |names| ==> names[i] in headers && names[i] !in m.headers
    requires forall i, j :: 0 <= i < j < |names| ==> names[i] != names[j]
    ensures Read(m, HeaderLines(headers, names) + rest) == Read(m.(headers := Taken(m.headers, headers, names)), rest)
    decreases |names|
  {
    if names == [] {
      assert [] + rest == rest;
    } else {
      var name, more := names[0], HeaderLines(headers, names[1..]);
      assert HeaderLines(headers, names) + rest == ValueLines(name, headers[name]) + (more + rest);
      ReadValues(m, name, headers[name], more + rest);
      assert [] + headers[name] == headers[name];
      ReadHeaders(m.(headers := m.headers[name := headers[name]]), headers, names[1..], rest);
    }
  }

  lemma {:induction false} TakenValues(to: Headers, from: Headers, names: seq<string>)
    ensures Taken(to, from, names).Keys == to.Keys + set name | name in names
    ensures forall name :: name in Taken(to, from, names)
              ==> Taken(to, from, names)[name] == if name in names then Values(from, name) else to[name]
    decreases |names|
  {
    if names != [] {
      TakenValues(to[names[0] := Values(from, names[0])], from, names[1..]);
      assert names == [names[0]] + names[1..];
    }
  }

  lemma TakenAll(headers: Headers, names: seq<string>)
    requires Enumerates(names, headers)
    ensures Taken(map[], headers, names) == headers
  {
    TakenValues(map[], headers, names);
    assert Taken(map[], headers, names).Keys == headers.Keys;
  }

  lemma {:induction false} ReadBodyJoins(m: Message, lines: seq<string>)
    requires AreLines(lines)
    ensures var some := NonEmpty(lines);
            ReadBody(m, lines) == m.(body := if some == [] then m.body
                                             else if m.body == "" then Join(some, "\n")
                                             else m.body + "\n" + Join(some, "\n"))
    decreases |lines|
  {
    if lines != [] {
      ReadBodyJoins(WithBodyText(m, lines[0]), lines[1..]);
      if lines[0] == "" {
        EmptyLineAdds(m);
        assert NonEmpty(lines) == NonEmpty(lines[1..]);
      } else {
        LineAdds(m, lines[0]);
        if NonEmpty(lines[1..]) != [] {
          JoinsAfter(m.body, lines[0], NonEmpty(lines[1..]));
        }
      }
    }
  }

  lemma EmptyLineAdds(m: Message)
    ensures WithBodyText(m, "") == m
  {
    assert m.body + "" + "" == m.body;
  }

  lemma LineAdds(m: Message, line: string)
    requires line != "" && NoLineBreaks(line)
    ensures WithBodyText(m, line) == m.(body := if m.body == "" then line else m.body + "\n" + line)
  {
    assert !IsLineBreak(line[0]);
  }

  lemma JoinsAfter(body: string, line: string, rest: seq<string>)
    requires rest != []
    ensures Join([line] + rest, "\n") == line + "\n" + Join(rest, "\n")
    ensures body + "\n" + line + "\n" + Join(rest, "\n") == body + "\n" + Join([line] + rest, "\n")
  {
    assert ([line] + rest)[1..] == rest;
  }

  /** A body that reading gives back unchanged: its only breaks are newlines, and none of them makes an
      empty line. */
  predicate NoBlankLines(body: string) {
    forall i :: 0 <= i < |body| && IsLineBreak(body[i])
      ==> body[i] == '\n' && 0 < i < |body| - 1 && body[i - 1] != '\n'
  }

  function WithoutBlankLines(body: string): string {
    Join(NonEmpty(Lines(body)), "\n")
  }

  /** A printed message reads back as the same headers, and the lines of its body that are not empty. */
  lemma PrintThenLoad(m: Message, names: seq<string>)
    requires WellFormed(m) && CleanHeaders(m.headers) && Enumerates(names, m.headers)
    ensures Load(Print(m, names)) == Message(m.headers, WithoutBlankLines(m.body))
  {
    var end := m.body + "\n";
    assert Print(m, names) == PrintHeaders(m.headers, names) + ("" + "\n" + end);
    LinesOfHeaders(m.headers, names, "" + "\n" + end);
    LinesOfLine("", end);
    ReadHeaders(EMPTY_MESSAGE, m.headers, names, [""] + Lines(end));
    TakenAll(m.headers, names);
    assert ([""] + Lines(end))[1..] == Lines(end);
    LinesAreLines(end);
    ReadBodyJoins(Message(m.headers, ""), Lines(end));
    FinalNewline(m.body);
  }

  lemma {:induction false} JoinHasNoBlankLines(lines: seq<string>)
    requires AreLines(lines) && forall i :: 0 <= i < |lines| ==> lines[i] != ""
    ensures NoBlankLines(Join(lines, "\n"))
    ensures lines != [] ==> Join(lines, "\n") != "" && !IsLineBreak(Join(lines, "\n")[0])
  {
    if |lines| > 1 {
      JoinHasNoBlankLines(lines[1..]);
      var rest := Join(lines[1..], "\n");
      var s := lines[0] + "\n" + rest;
      assert forall i :: |lines[0]| < i < |s| ==> s[i] == rest[i - |lines[0]| - 1];
      assert forall i :: 0 <= i < |lines[0]| ==> s[i] == lines[0][i];
    }
  }

  lemma NonEmptyOne(line: string)
    requires line != ""
    ensures NonEmpty([line]) == [line]
  {
    assert NonEmpty([line][1..]) == [];
  }

  lemma {:induction false} NoBlankLinesIsKept(body: string)
    requires NoBlankLines(body)
    ensures WithoutBlankLines(body) == body
    decreases |body|
  {
    if body != [] {
      var i, rest := LineEnd(body), body[NextLine(body)..];
      if i == |body| {
        assert rest == [] && body[..i] == body;
        NonEmptyOne(body);
        assert Lines(body) == [body];
      } else {
        NoBlankLinesIsKept(rest);
        assert body == body[..i] + "\n" + rest;
        assert Lines(body)[1..] == Lines(rest);
        assert NonEmpty(Lines(body)) == [body[..i]] + NonEmpty(Lines(rest));
      }
    }
  }

  lemma WithoutBlankLinesIsClean(body: string)
    ensures NoBlankLines(WithoutBlankLines(body))
  {
    LinesAreLines(body);
    NonEmptyLines(Lines(body));
    JoinHasNoBlankLines(NonEmpty(Lines(body)));
  }

  /** Dropping blank lines changes a body exactly when it has some, and doing it twice is doing it once. */
  lemma BlankLinesOnly(body: string)
    ensures WithoutBlankLines(body) == body <==> NoBlankLines(body)
    ensures WithoutBlankLines(WithoutBlankLines(body)) == WithoutBlankLines(body)
  {
    WithoutBlankLinesIsClean(body);
    NoBlankLinesIsKept(WithoutBlankLines(body));
    if NoBlankLines(body) {
      NoBlankLinesIsKept(body);
    }
  }

  // ---------- whatever is read is clean ----------

  lemma {:induction false} SeparatorIsFirst(line: string)
    requires Separator(line).Some?
    ensures Separator(line[..Separator(line).value]).None?
  {
    var i := Separator(line).value;
    if i > 0 {
      SeparatorIsFirst(line[1..]);
      assert line[..i][1..] == line[1..][..i - 1];
    }
  }

  lemma ReadHeaderIsClean(m: Message, line: string)
    requires CleanHeaders(m.headers) && NoLineBreaks(line)
    ensures CleanHeaders(ReadHeader(m, line).headers)
  {
    if Separator(line).Some? {
      SeparatorIsFirst(line);
      var i := Separator(line).value;
      var name, value := line[..i], line[i + 2..];
      assert CleanName(name) && NoLineBreaks(value);
      assert CleanValues(Values(m.headers, name));
    }
  }

  lemma {:induction false} ReadIsClean(m: Message, lines: seq<string>)
    requires CleanHeaders(m.headers) && AreLines(lines)
    ensures CleanHeaders(Read(m, lines).headers)
    decreases |lines|
  {
    if lines != [] {
      if lines[0] == "" {
        ReadBodyJoins(m, lines[1..]);
      } else {
        ReadHeaderIsClean(m, lines[0]);
        ReadIsClean(ReadHeader(m, lines[0]), lines[1..]);
      }
    }
  }

  /** The headers come back from the file exactly when their names have no ": " and neither names nor values
      have a line break; the body then comes back without blank lines. */
  lemma HeadersSurviveIff(m: Message, names: seq<string>)
    requires WellFormed(m) && Enumerates(names, m.headers)
    ensures Load(Print(m, names)).headers == m.headers <==> CleanHeaders(m.headers)
    ensures CleanHeaders(m.headers) ==> Load(Print(m, names)) == Message(m.headers, WithoutBlankLines(m.body))
  {
    LinesAreLines(Print(m, names));
    ReadIsClean(EMPTY_MESSAGE, Lines(Print(m, names)));
    if CleanHeaders(m.headers) {
      PrintThenLoad(m, names);
    }
  }

  /** A message survives the file exactly when its header names have no ": ", neither names nor values
      have a line break, and its body has no blank line. */
  lemma SurvivesExactlyWhenClean(m: Message, names: seq<string>)
    requires WellFormed(m) && Enumerates(names, m.headers)
    ensures Load(Print(m, names)) == m <==> CleanHeaders(m.headers) && NoBlankLines(m.body)
  {
    HeadersSurviveIff(m, names);
    BlankLinesOnly(m.body);
  }

  lemma ReadBodyIsClean(m: Message, lines: seq<string>)
    requires AreLines(lines) && m.body == ""
    ensures ReadBody(m, lines).headers == m.headers && NoBlankLines(ReadBody(m, lines).body)
  {
    ReadBodyJoins(m, lines);
    NonEmptyLines(lines);
    JoinHasNoBlankLines(NonEmpty(lines));
  }

  lemma {:induction false} ReadIsFit(m: Message, lines: seq<string>)
    requires WellFormed(m) && m.body == "" && AreLines(lines)
    ensures WellFormed(Read(m, lines)) && NoBlankLines(Read(m, lines).body)
    decreases |lines|
  {
    if lines != [] {
      if lines[0] == "" {
        ReadBodyIsClean(m, lines[1..]);
      } else {
        ReadIsFit(ReadHeader(m, lines[0]), lines[1..]);
      }
    }
  }

  /** Whatever the text of a file is: storing the message that was read from it gives the same message again. */
  lemma ReloadIsIdempotent(text: string, names: seq<string>)
    requires Enumerates(names, Load(text).headers)
    ensures Load(Print(Load(text), names)) == Load(text)
  {
    LinesAreLines(text);
    ReadIsFit(EMPTY_MESSAGE, Lines(text));
    ReadIsClean(EMPTY_MESSAGE, Lines(text));
    SurvivesExactlyWhenClean(Load(text), names);
  }
}
