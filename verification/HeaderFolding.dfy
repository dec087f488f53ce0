/** What the stored headers are, told without the order in which the session built them. */
module HeaderFolding {
  import opened Text
  import opened MailMessages
  import opened RememberedName
  import opened RollingStore
  import opened SmtpProtocol
  import opened Sessions
  import opened MailDelivery

  /** The continuation lines, each without a leading tab, one after the other. */
  function Tail(continuations: seq<string>): string {
    if continuations == [] then ""
    else Tail(continuations[..|continuations| - 1]) + StripTab(continuations[|continuations| - 1])
  }

  /** The unfolded value, section 2.2.3 of RFC 5322. */
  function Unfolded(f: Field): string {
    f.value + Tail(f.continuations)
  }

  /** The unfolded values of the fields of one name, in the order of the fields. */
  function ValuesOf(fields: seq<Field>, name: string): seq<string> {
    if fields == [] then []
    else
      var f := fields[|fields| - 1];
      ValuesOf(fields[..|fields| - 1], name) + if f.name == name then [Unfolded(f)] else []
  }

  // ---------- the same values, in some order ----------

  /** Extending the last value keeps the others, if not their order. */
  lemma ExtendedOnce(others: seq<string>, value: string, text: string) returns (rest: seq<string>)
    ensures ExtendLast(others + [value], text) == rest + [value + text] && multiset(rest) == multiset(others)
  {
    var values := others + [value];
    rest := RemoveFirst(values, value);
    assert values[|values| - 1] == value;
    RemoveFirstMultiset(values, value);
  }

  lemma {:induction false} ExtendedValues(headers: Headers, name: string, others: seq<string>, value: string,
                                          texts: seq<string>)
    returns (rest: seq<string>)
    requires name in headers && headers[name] == others + [value]
    ensures Extended(headers, name, texts)[name] == rest + [value + Tail(texts)] && multiset(rest) == multiset(others)
  {
    if texts == [] {
      rest := others;
      assert value + "" == value;
    } else {
      var init, text := texts[..|texts| - 1], StripTab(texts[|texts| - 1]);
      var before := ExtendedValues(headers, name, others, value, init);
      OneMoreExtension(headers, name, texts);
      rest := ExtendedOnce(before, value + Tail(init), text);
      assert value + Tail(init) + text == value + Tail(texts);
    }
  }

  lemma {:induction false} OneMoreExtension(headers: Headers, name: string, texts: seq<string>)
    requires name in headers && headers[name] != [] && texts != []
    ensures var n := |texts| - 1;
            Extended(headers, name, texts)[name]
            == ExtendLast(Extended(headers, name, texts[..n])[name], StripTab(texts[n]))
  {
  }

  lemma FieldMultiset(headers: Headers, f: Field, name: string)
    ensures var after := AfterField(headers, f);
            && multiset(Values(after, name))
               == multiset(Values(headers, name)) + (if f.name == name then multiset{Unfolded(f)} else multiset{})
            && (name in after <==> name in headers || f.name == name)
  {
    var others := Values(headers, f.name);
    var rest := ExtendedValues(headers[f.name := others + [f.value]], f.name, others, f.value, f.continuations);
  }

  lemma {:induction false} FieldsMultisets(fields: seq<Field>, name: string)
    ensures var headers := AfterFields(fields);
            && multiset(Values(headers, name)) == multiset(ValuesOf(fields, name))
            && (name in headers <==> ValuesOf(fields, name) != [])
  {
    if fields != [] {
      FieldsMultisets(fields[..|fields| - 1], name);
      FieldMultiset(AfterFields(fields[..|fields| - 1]), fields[|fields| - 1], name);
    }
  }

  /** Whatever the header lines, each name has exactly the unfolded values of its fields, with the same
      multiplicities, and no other name is present. */
  lemma StoredHeadersAreTheFields(last: Option<string>, mail: Mail, name: string)
    ensures var (headers, fields) := (Stored(last, mail).headers, FieldsOf(last, Received(mail)));
            && multiset(Values(headers, name)) == multiset(ValuesOf(fields, name))
            && (name in headers <==> ValuesOf(fields, name) != [])
  {
    FieldsMultisets(FieldsOf(last, Received(mail)), name);
  }

  /** A line that continues a field, as a client folds it: white space, then text. */
  datatype Fold = Fold(blank: char, text: string)

  ghost predicate AreFolds(folds: seq<Fold>) {
    forall i :: 0 <= i < |folds| ==> folds[i].blank in {'\t', ' ', '\n', '\r', '\U{000b}', '\U{000c}'}
  }

  function FoldLines(folds: seq<Fold>): (lines: seq<string>)
    ensures |lines| == |folds| && forall i :: 0 <= i < |folds| ==> lines[i] == [folds[i].blank] + folds[i].text
  {
    seq(|folds|, i requires 0 <= i < |folds| => [folds[i].blank] + folds[i].text)
  }

  /** What the folds stand for: the tab is dropped, other white space is kept. */
  function Unfold(folds: seq<Fold>): string {
    if folds == [] then ""
    else
      var f := folds[|folds| - 1];
      Unfold(folds[..|folds| - 1]) + if f.blank == '\t' then f.text else [f.blank] + f.text
  }

  lemma {:induction false} TailOfFolds(folds: seq<Fold>)
    requires AreFolds(folds)
    ensures Tail(FoldLines(folds)) == Unfold(folds)
  {
    if folds != [] {
      var n := |folds| - 1;
      TailOfFolds(folds[..n]);
      assert FoldLines(folds)[..n] == FoldLines(folds[..n]);
      assert FoldLines(folds)[n][1..] == folds[n].text;
    }
  }

  /** A field that a client writes and folds is stored with the unfolded value, and nothing else. */
  lemma {:induction false} FoldedFieldIsStored(last: Option<string>, mail: Mail, name: string, value: string,
                                               folds: seq<Fold>)
    requires Received(mail) == [name + ":" + (" " + value)] + FoldLines(folds) && AreFolds(folds)
    requires name != "" && ':' !in name && IsTrimmed(name) && IsTrimmed(value)
    ensures Stored(last, mail).headers == map[name := [value + Unfold(folds)]]
  {
    var f := Field(name, " " + value, FoldLines(folds));
    var none: seq<string> := [];
    WrittenFieldIsRead(last, none, f);
    assert none + FieldLines(f) == Received(mail);
    TrimDropsLeadingSpace(name);
    TrimDropsLeadingSpace(value);
    TailOfFolds(folds);
    OneFieldStored(last, mail, Trimmed(f));
  }

  lemma {:induction false} OneFieldStored(last: Option<string>, mail: Mail, f: Field)
    requires FieldsOf(last, Received(mail)) == [f]
    ensures Stored(last, mail).headers == map[f.name := [Unfolded(f)]]
  {
    HeadersOfOne([f]);
  }

  lemma {:induction false} ValuesOfOne(fields: seq<Field>, name: string)
    requires |fields| == 1
    ensures ValuesOf(fields, name) == if fields[0].name == name then [Unfolded(fields[0])] else []
  {
    assert fields[..0] == [];
  }

  lemma {:induction false} HeadersOfOne(fields: seq<Field>)
    requires |fields| == 1
    ensures AfterFields(fields) == map[fields[0].name := [Unfolded(fields[0])]]
  {
    var headers, f := AfterFields(fields), fields[0];
    forall name
      ensures name in headers <==> name == f.name
    {
      FieldsMultisets(fields, name);
      ValuesOfOne(fields, name);
    }
    FieldsMultisets(fields, f.name);
    ValuesOfOne(fields, f.name);
    OneElement(headers[f.name], Unfolded(f));
  }

  lemma {:induction false} OneElement(values: seq<string>, x: string)
    requires multiset(values) == multiset{x}
    ensures values == [x]
  {
    assert |values| == |multiset(values)| == 1;
    assert values[0] in multiset(values);
  }

  // ---------- and when they are in order ----------

  /** The values of the name are those of its fields, in order. */
  ghost predicate HasInOrder(fields: seq<Field>, name: string) {
    Values(AfterFields(fields), name) == ValuesOf(fields, name)
  }

  ghost predicate AllInOrder(fields: seq<Field>) {
    forall name :: HasInOrder(fields, name)
  }

  ghost predicate InOrder(last: Option<string>, lines: seq<string>) {
    AllInOrder(FieldsOf(last, lines))
  }

  /** The line continues the last field. */
  predicate Continues(fields: seq<Field>, line: string) {
    fields != [] && !IsHeaderLine(line) && WhiteSpacedLineStart(line)
  }

  /** The value that the line extends has no equal earlier under its name, apart from ones that only such
      equals follow. */
  predicate ExtendsInPlace(fields: seq<Field>, line: string) {
    Continues(fields, line) ==>
      var values := ValuesOf(fields, fields[|fields| - 1].name);
      values != [] && OnlyTrailing(values, values[|values| - 1])
  }

  predicate AllExtendInPlace(last: Option<string>, lines: seq<string>) {
    lines == []
    || (&& AllExtendInPlace(last, lines[..|lines| - 1])
        && ExtendsInPlace(FieldsOf(last, lines[..|lines| - 1]), lines[|lines| - 1]))
  }

  lemma NewFieldInOrder(last: Option<string>, lines: seq<string>, line: string, f: Field)
    requires InOrder(last, lines) && AddLine(last, FieldsOf(last, lines), line) == FieldsOf(last, lines) + [f]
    requires f.continuations == []
    ensures InOrder(last, lines + [line])
  {
    var fields := FieldsOf(last, lines);
    FieldsOfSnoc(last, lines, line);
    AfterFieldsSnoc(fields, f);
    PlainValueAdded(fields, ValuesOf(fields, f.name), f);
    forall name
      ensures HasInOrder(fields + [f], name)
    {
      assert HasInOrder(fields, name);
    }
  }

  lemma ContinuedValues(fields: seq<Field>, line: string, name: string)
    requires fields != []
    ensures var (init, f) := (fields[..|fields| - 1], fields[|fields| - 1]);
            ValuesOf(init + [Continued(f, line)], name)
            == ValuesOf(init, name) + if f.name == name then [Unfolded(f) + StripTab(line)] else []
    ensures ValuesOf(fields, name)
         == ValuesOf(fields[..|fields| - 1], name)
            + if fields[|fields| - 1].name == name then [Unfolded(fields[|fields| - 1])] else []
  {
    var f := fields[|fields| - 1];
    assert (f.continuations + [line])[..|f.continuations|] == f.continuations;
    assert Unfolded(Continued(f, line)) == Unfolded(f) + StripTab(line);
  }

  lemma {:induction false} ThisNameInOrder(fields: seq<Field>, line: string)
    requires fields != [] && HasInOrder(fields, fields[|fields| - 1].name)
    ensures var values := ValuesOf(fields, fields[|fields| - 1].name);
            HasInOrder(fields[..|fields| - 1] + [Continued(fields[|fields| - 1], line)], fields[|fields| - 1].name)
            <==> values != [] && OnlyTrailing(values, values[|values| - 1])
  {
    var name := fields[|fields| - 1].name;
    var values := ValuesOf(fields, name);
    ContinuedValues(fields, line, name);
    ExtendLastInPlace(values, StripTab(line));
    assert values[..|values| - 1] == ValuesOf(fields[..|fields| - 1], name);
  }

  lemma {:induction false} OthersStayInOrder(fields: seq<Field>, line: string)
    requires fields != [] && AllInOrder(fields)
    ensures var next := fields[..|fields| - 1] + [Continued(fields[|fields| - 1], line)];
            forall name :: name != fields[|fields| - 1].name ==> HasInOrder(next, name)
  {
    var next := fields[..|fields| - 1] + [Continued(fields[|fields| - 1], line)];
    forall name
      ensures name != fields[|fields| - 1].name ==> HasInOrder(next, name)
    {
      assert HasInOrder(fields, name);
      if name != fields[|fields| - 1].name {
        OtherNameInOrder(fields, line, name);
      }
    }
  }

  lemma {:induction false} ContinuedInOrder(fields: seq<Field>, line: string)
    requires fields != [] && AllInOrder(fields)
    ensures var values := ValuesOf(fields, fields[|fields| - 1].name);
            AllInOrder(fields[..|fields| - 1] + [Continued(fields[|fields| - 1], line)])
            <==> values != [] && OnlyTrailing(values, values[|values| - 1])
  {
    assert HasInOrder(fields, fields[|fields| - 1].name);
    ThisNameInOrder(fields, line);
    OthersStayInOrder(fields, line);
  }

  lemma ContinuationInOrder(last: Option<string>, lines: seq<string>, line: string)
    requires InOrder(last, lines) && Continues(FieldsOf(last, lines), line)
    ensures InOrder(last, lines + [line]) <==> ExtendsInPlace(FieldsOf(last, lines), line)
  {
    FieldsOfSnoc(last, lines, line);
    ContinuedInOrder(FieldsOf(last, lines), line);
  }

  lemma OtherNameInOrder(fields: seq<Field>, line: string, name: string)
    requires fields != [] && HasInOrder(fields, name) && name != fields[|fields| - 1].name
    ensures HasInOrder(fields[..|fields| - 1] + [Continued(fields[|fields| - 1], line)], name)
  {
    ContinuedHeaders(fields, line);
    ContinuedValues(fields, line, name);
  }

  lemma OneMoreInOrder(last: Option<string>, lines: seq<string>, line: string)
    requires InOrder(last, lines)
    ensures InOrder(last, lines + [line]) <==> ExtendsInPlace(FieldsOf(last, lines), line)
  {
    if IsHeaderLine(line) {
      NewFieldInOrder(last, lines, line, FieldAt(line));
    } else if Continues(FieldsOf(last, lines), line) {
      ContinuationInOrder(last, lines, line);
    } else if WhiteSpacedLineStart(line) && last.Some? {
      NewFieldInOrder(last, lines, line, Field(last.value, StripTab(line), []));
    } else {
      FieldsOfSnoc(last, lines, line);
    }
  }

  ghost predicate AlwaysInOrder(last: Option<string>, lines: seq<string>) {
    forall k :: 0 <= k <= |lines| ==> InOrderUpTo(last, lines, k)
  }

  ghost predicate InOrderUpTo(last: Option<string>, lines: seq<string>, k: nat)
    requires k <= |lines|
  {
    InOrder(last, lines[..k])
  }

  lemma {:induction false} AlwaysInOrderSnoc(last: Option<string>, init: seq<string>, line: string)
    ensures AlwaysInOrder(last, init + [line]) <==> AlwaysInOrder(last, init) && InOrder(last, init + [line])
  {
    var lines := init + [line];
    assert lines[..|lines|] == lines;
    forall k | 0 <= k <= |init|
      ensures InOrderUpTo(last, lines, k) <==> InOrderUpTo(last, init, k)
    {
      assert lines[..k] == init[..k];
    }
    assert InOrderUpTo(last, lines, |lines|) <==> InOrder(last, lines);
  }

  lemma {:induction false} AlwaysThenInOrder(last: Option<string>, lines: seq<string>)
    requires AlwaysInOrder(last, lines)
    ensures InOrder(last, lines)
  {
    assert lines[..|lines|] == lines && InOrderUpTo(last, lines, |lines|);
  }

  /** The values are in order after every line exactly when every continuation extends its value in place. */
  lemma {:induction false} InOrderThroughoutIff(last: Option<string>, lines: seq<string>)
    ensures AlwaysInOrder(last, lines) <==> AllExtendInPlace(last, lines)
  {
    if lines != [] {
      var init, line := lines[..|lines| - 1], lines[|lines| - 1];
      assert lines == init + [line];
      InOrderThroughoutIff(last, init);
      AlwaysInOrderSnoc(last, init, line);
      if AlwaysInOrder(last, init) {
        AlwaysThenInOrder(last, init);
        OneMoreInOrder(last, init, line);
      }
    }
  }

  lemma StoredHeadersKeepOrder(last: Option<string>, mail: Mail, name: string)
    requires AllExtendInPlace(last, Received(mail))
    ensures Values(Stored(last, mail).headers, name) == ValuesOf(FieldsOf(last, Received(mail)), name)
  {
    InOrderThroughoutIff(last, Received(mail));
    AlwaysThenInOrder(last, Received(mail));
    assert HasInOrder(FieldsOf(last, Received(mail)), name);
  }

  /** Two fields of one name with different values, then one like the first that is folded: the order is lost. */
  lemma {:induction false} FoldingCanReorder(last: Option<string>, a: string, b: string, text: string)
    requires IsHeaderLine(a) && IsHeaderLine(b) && NameOf(a) == NameOf(b) && ValueOf(a) != ValueOf(b)
    requires WhiteSpacedLineStart(text)
    ensures InOrder(last, [a, b, a]) && !InOrder(last, [a, b, a] + [text])
  {
    var none: seq<string> := [];
    var f, g := FieldAt(a), FieldAt(b);
    HeaderAdded(last, none, [], a);
    HeaderAdded(last, none + [a], [f], b);
    HeaderAdded(last, none + [a] + [b], [f, g], a);
    assert none + [a] + [b] + [a] == [a, b, a] && [f, g] + [f] == [f] + [g] + [f];
    ThreeValues(f, g);
    NotInPlace(last, [a, b, a], [f] + [g] + [f], text);
  }

  lemma NotInPlace(last: Option<string>, lines: seq<string>, fields: seq<Field>, text: string)
    requires InOrder(last, lines) && FieldsOf(last, lines) == fields != [] && WhiteSpacedLineStart(text)
    requires var values := ValuesOf(fields, fields[|fields| - 1].name);
             values != [] && !OnlyTrailing(values, values[|values| - 1])
    ensures !InOrder(last, lines + [text])
  {
    WhiteSpaceIsNoHeader(text);
    OneMoreInOrder(last, lines, text);
  }

  function FieldAt(line: string): Field
    requires IsHeaderLine(line)
  {
    Field(NameOf(line), ValueOf(line), [])
  }

  lemma HeaderAdded(last: Option<string>, lines: seq<string>, fields: seq<Field>, line: string)
    requires FieldsOf(last, lines) == fields && InOrder(last, lines) && IsHeaderLine(line)
    ensures FieldsOf(last, lines + [line]) == fields + [FieldAt(line)] && InOrder(last, lines + [line])
  {
    NewFieldInOrder(last, lines, line, FieldAt(line));
    FieldsOfSnoc(last, lines, line);
  }

  lemma PlainValueAdded(fields: seq<Field>, values: seq<string>, f: Field)
    requires ValuesOf(fields, f.name) == values && f.continuations == []
    ensures ValuesOf(fields + [f], f.name) == values + [f.value]
  {
    assert f.value + "" == f.value;
  }

  lemma BetweenEquals(values: seq<string>)
    requires |values| == 3 && values[0] == values[2] != values[1]
    ensures !OnlyTrailing(values, values[2])
  {
  }

  /** The values of two more fields of the name of the last one. */
  lemma TwoMoreValues(fields: seq<Field>, f: Field, g: Field)
    requires f.name == g.name && f.continuations == g.continuations == []
    ensures ValuesOf(fields + [g] + [f], f.name) == ValuesOf(fields, f.name) + [g.value] + [f.value]
  {
    PlainValueAdded(fields, ValuesOf(fields, f.name), g);
    PlainValueAdded(fields + [g], ValuesOf(fields, f.name) + [g.value], f);
  }

  lemma ThreeValues(f: Field, g: Field)
    requires f.name == g.name && f.value != g.value && f.continuations == g.continuations == []
    ensures var values := ValuesOf([f] + [g] + [f], f.name); |values| == 3 && !OnlyTrailing(values, values[2])
  {
    TwoMoreValues([f], f, g);
    assert [f][..0] == [] && Unfolded(f) == f.value;
    BetweenEquals(ValuesOf([f] + [g] + [f], f.name));
  }

  /** One client sends its mails to an empty store over one connection. */
  method Send(greeting: string, mails: seq<Mail>, farewell: string) returns (mailStore: RollingMailStore)
    requires CommandOf(greeting) == Ehlo && CommandOf(farewell) == QuitSession
    requires forall i :: 0 <= i < |mails| ==> GoodMail(mails[i])
    ensures fresh(mailStore) && mailStore.Contents() == LastN(AllStored(None, mails), CAPACITY)
  {
    mailStore := new RollingMailStore();
    var session := new ClientSession(Conversation(greeting, mails, farewell), mailStore);
    EveryMailIsStored(greeting, mails, farewell);
    session.Serve();
    assert [] + session.delivered == AllStored(None, mails);
  }
}
