/** EMLMailStore and EMLMailMessage: one file a message. */
module EmlStore {
  import opened Text
  import opened Decimals
  import opened MailMessages
  import opened EmlFiles

  // ---------- writing ----------

  lemma {:induction false} PrintValuesSnoc(name: string, values: seq<string>, value: string)
    ensures PrintValues(name, values + [value]) == PrintValues(name, values) + name + ": " + value + "\n"
  {
    if values == [] {
      assert [value][1..] == [];
    } else {
      assert (values + [value])[1..] == values[1..] + [value];
      PrintValuesSnoc(name, values[1..], value);
      var line, last := name + ": " + values[0] + "\n", name + ": " + value + "\n";
      var more := PrintValues(name, values[1..]);
      assert line + (more + name + ": " + value + "\n") == line + more + name + ": " + value + "\n";
    }
  }

  lemma {:induction false} PrintHeadersSnoc(headers: Headers, names: seq<string>, name: string)
    ensures PrintHeaders(headers, names + [name])
         == PrintHeaders(headers, names) + PrintValues(name, Values(headers, name))
  {
    if names == [] {
      assert [name][1..] == [];
      assert PrintHeaders(headers, [name]) == PrintValues(name, Values(headers, name)) + "";
    } else {
      assert (names + [name])[1..] == names[1..] + [name];
      PrintHeadersSnoc(headers, names[1..], name);
      ConcatIsAssociative(PrintValues(names[0], Values(headers, names[0])), PrintHeaders(headers, names[1..]),
              PrintValues(name, Values(headers, name)));
    }
  }

  method WriteValues(name: string, values: seq<string>) returns (text: string)
    ensures text == PrintValues(name, values)
  {
    text := "";
    for i := 0 to |values|
      invariant text == PrintValues(name, values[..i])
    {
      PrintValuesSnoc(name, values[..i], values[i]);
      assert values[..i + 1] == values[..i] + [values[i]];
      text := text + name;
      text := text + ": ";
      text := text + values[i];
      text := text + "\n";
    }
    assert values[..|values|] == values;
  }

  /** The text of a file of the message; the names come in the order of a hash map, which can be any. */
  ghost predicate IsPrintOf(text: string, m: Message) {
    exists names :: Enumerates(names, m.headers) && text == Print(m, names)
  }

  method WriteMessage(message: MailMessageImpl) returns (text: string)
    ensures IsPrintOf(text, message.Contents())
  {
    text := "";
    ghost var names := [];
    var left := message.headers.Keys;
    while left != {}
      invariant left <= message.headers.Keys
      invariant forall name :: name in names <==> name in message.headers && name !in left
      invariant forall i, j :: 0 <= i < j < |names| ==> names[i] != names[j]
      invariant text == PrintHeaders(message.headers, names)
      decreases left
    {
      var name :| name in left;
      var values := message.GetHeaderValues(name);
      var block := WriteValues(name, values);
      text := text + block;
      PrintHeadersSnoc(message.headers, names, name);
      names := names + [name];
      left := left - {name};
    }
    text := text + "\n";
    text := text + message.body;
    text := text + "\n";
    assert Enumerates(names, message.headers) && text == Print(message.Contents(), names);
  }

  // ---------- reading ----------

  /** A message that is read from its file when it is first asked for something. */
  class EMLMailMessage {
    const stream: string
    const delegate: MailMessageImpl
    var isLoaded: bool

    constructor (file: string)
      ensures !isLoaded && stream == file && fresh(delegate) && delegate.Contents() == EMPTY_MESSAGE
    {
      stream := file;
      delegate := new MailMessageImpl();
      isLoaded := false;
    }

    method LoadFile()
      modifies delegate
      ensures delegate.Contents() == Read(old(delegate.Contents()), Lines(stream))
    {
      var rest, inBody := stream, false;
      while rest != ""
        invariant (if inBody then ReadBody(delegate.Contents(), Lines(rest))
                   else Read(delegate.Contents(), Lines(rest)))
               == Read(old(delegate.Contents()), Lines(stream))
        decreases |rest|
      {
        var line := rest[..LineEnd(rest)];
        rest := rest[NextLine(rest)..];
        if inBody {
          delegate.AppendBody(line);
        } else if line == "" {
          inBody := true;
        } else {
          var i := Separator(line);
          if i.Some? {
            delegate.AddHeader(line[..i.value], line[i.value + 2..]);
          }
        }
      }
    }

    /** The first question reads the file, on top of what has been added to this object before. */
    method CheckLoaded()
      modifies this, delegate
      ensures isLoaded
      ensures delegate.Contents() == if old(isLoaded) then old(delegate.Contents())
                                     else Read(old(delegate.Contents()), Lines(stream))
    {
      if !isLoaded {
        LoadFile();
        isLoaded := true;
      }
    }

    method GetBody() returns (body: string)
      modifies this, delegate
      ensures isLoaded && body == delegate.body
      ensures !old(isLoaded) && old(delegate.Contents()) == EMPTY_MESSAGE ==> body == Load(stream).body
    {
      CheckLoaded();
      body := delegate.body;
    }

    method GetHeaderValues(name: string) returns (values: seq<string>)
      modifies this, delegate
      ensures isLoaded && values == Values(delegate.headers, name)
      ensures !old(isLoaded) && old(delegate.Contents()) == EMPTY_MESSAGE
              ==> values == Values(Load(stream).headers, name)
    {
      CheckLoaded();
      values := delegate.GetHeaderValues(name);
    }
  }

  // ---------- the store ----------

  predicate IsReplaced(c: char) {
    c in {'\\', '/', '<', '>', '?', '*', '"', '|'}
  }

  function Replaced(s: string): (r: string)
    ensures |r| == |s| && forall i :: 0 <= i < |s| ==> !IsReplaced(r[i])
  {
    seq(|s|, i requires 0 <= i < |s| => if IsReplaced(s[i]) then '_' else s[i])
  }

  function Subject(m: Message): string {
    var values := Values(m.headers, "Subject");
    if values == [] then "null" else values[0]
  }

  function Filename(m: Message, count: nat): string {
    Replaced(Decimal(count) + "_" + Subject(m) + ".eml")
  }

  /** What a file may not have in its name is replaced, one by one; all else stays. */
  ghost predicate IsReplacement(c: char, s: char) {
    if c in "\\/<>?*\"|" then s == '_' else s == c
  }

  /** The name is the number, the first subject or null, and the ending, each character replaced where it has to be. */
  lemma {:induction false} FilenameIs(m: Message, count: nat, subject: string)
    requires if "Subject" in m.headers && m.headers["Subject"] != [] then subject == m.headers["Subject"][0]
             else subject == "null"
    ensures var s := Decimal(count) + "_" + subject + ".eml";
            |Filename(m, count)| == |s| && forall i :: 0 <= i < |s| ==> IsReplacement(s[i], Filename(m, count)[i])
  {
  }

  /** The number at the start of a file name tells the file apart from all others. */
  lemma FilenameTellsCount(m: Message, i: nat, n: Message, j: nat)
    requires Filename(m, i) == Filename(n, j)
    ensures i == j
  {
    StartsWithCount(m, i);
    StartsWithCount(n, j);
    var a, b, name := Decimal(i), Decimal(j), Filename(m, i);
    assert a == b;
    DecimalIsInjective(i, j);
  }

  lemma StartsWithCount(m: Message, i: nat)
    ensures var (a, name) := (Decimal(i), Filename(m, i));
            a <= name && |a| < |name| && name[|a|] == '_'
  {
    var a := Decimal(i);
    var s := a + "_" + Subject(m) + ".eml";
    assert s[|a|] == '_';
    assert forall k :: 0 <= k < |a| ==> s[k] == a[k] && IsDigit(a[k]);
  }

  /** File k + 1 is a print of the message stored as number k + 1. */
  ghost predicate FilesHold(files: map<string, string>, written: seq<Message>) {
    forall k :: 0 <= k < |written| ==> HoldsNumber(files, written[k], k + 1)
  }

  ghost predicate HoldsNumber(files: map<string, string>, m: Message, number: nat) {
    Filename(m, number) in files && IsPrintOf(files[Filename(m, number)], m)
  }

  lemma NewFileKeepsOthers(files: map<string, string>, written: seq<Message>, m: Message, text: string)
    requires FilesHold(files, written) && IsPrintOf(text, m)
    ensures FilesHold(files[Filename(m, |written| + 1) := text], written + [m])
  {
    var n := |written| + 1;
    var more := files[Filename(m, n) := text];
    forall k | 0 <= k < n
      ensures HoldsNumber(more, (written + [m])[k], k + 1)
    {
      if k < n - 1 {
        assert HoldsNumber(files, written[k], k + 1);
        if Filename(written[k], k + 1) == Filename(m, n) {
          FilenameTellsCount(written[k], k + 1, m, n);
        }
      }
    }
  }

  class EMLMailStore {
    var count: nat
    var messages: seq<MailMessageImpl>
    var files: map<string, string>   // the directory
    ghost var written: seq<Message>  // what each message was when it was stored

    ghost predicate Valid()
      reads this
    {
      && count == |written| == |messages|
      && FilesHold(files, written)
    }

    constructor ()
      ensures Valid() && written == []
    {
      count := 0;
      messages := [];
      files := map[];
      written := [];
    }

    method GetEmailCount() returns (n: nat)
      ensures n == count
    {
      n := count;
    }

    method AddMessage(message: MailMessageImpl)
      requires Valid()
      modifies this
      ensures Valid()
      ensures count == old(count) + 1 && messages == old(messages) + [message]
      ensures written == old(written) + [message.Contents()]
      ensures forall name :: name in old(files)
                ==> name in files && (files[name] == old(files[name]) || name == Filename(message.Contents(), count))
    {
      count := count + 1;
      messages := messages + [message];
      ghost var stored := message.Contents();
      var filename := GetFilename(message, count);
      var text := WriteMessage(message);
      NewFileKeepsOthers(files, written, stored, text);
      files := files[filename := text];
      written := written + [stored];
    }

    method GetFilename(message: MailMessageImpl, count: nat) returns (filename: string)
      ensures filename == Filename(message.Contents(), count)
    {
      var subject := "null";
      var values := message.GetHeaderValues("Subject");
      if values != [] {
        subject := values[0];
      }
      filename := Replaced(Decimal(count) + "_" + subject + ".eml");
    }
  }

  /** Every print of a message, in whatever order the names come, reads back the same. */
  lemma EveryPrintLoads(text: string, m: Message)
    requires WellFormed(m) && CleanHeaders(m.headers) && IsPrintOf(text, m)
    ensures Load(text) == Message(m.headers, WithoutBlankLines(m.body))
  {
    var names :| Enumerates(names, m.headers) && text == Print(m, names);
    PrintThenLoad(m, names);
  }
}
