/** MailMessageImpl: the headers and the body of one message, changed in place line by line. */
module MailMessages {
  import opened Text

  type Headers = map<string, seq<string>>

  /** The abstract value of a MailMessageImpl. */
  datatype Message = Message(headers: Headers, body: string)

  const EMPTY_MESSAGE := Message(map[], "")

  /** Every name that is present has at least one value. */
  ghost predicate WellFormed(m: Message) {
    forall name :: name in m.headers ==> m.headers[name] != []
  }

  function Values(headers: Headers, name: string): seq<string> {
    if name in headers then headers[name] else []
  }

  /** The last value of a list, extended: the old value is removed by value, so its FIRST
      occurrence goes, and the extended one is put at the end. */
  function ExtendLast(values: seq<string>, text: string): seq<string>
    requires values != []
  {
    var oldValue := values[|values| - 1];
    RemoveFirst(values, oldValue) + [oldValue + text]
  }

  function WithHeader(m: Message, name: string, value: string): Message {
    m.(headers := m.headers[name := Values(m.headers, name) + [value]])
  }

  function WithExtendedHeader(m: Message, name: string, text: string): Message
    requires WellFormed(m)
  {
    if name !in m.headers then WithHeader(m, name, text)
    else m.(headers := m.headers[name := ExtendLast(m.headers[name], text)])
  }

  function WithBodyText(m: Message, text: string): Message {
    var newline := if |m.body| > 0 && |text| > 0 && text != "\n" then "\n" else "";
    m.(body := m.body + newline + text)
  }

  class MailMessageImpl {
    var headers: map<string, seq<string>>
    var body: string

    ghost function Contents(): Message
      reads this
    {
      Message(headers, body)
    }

    constructor ()
      ensures Contents() == EMPTY_MESSAGE
    {
      headers := map[];
      body := "";
    }

    method GetHeaderValues(name: string) returns (values: seq<string>)
      ensures values == Values(headers, name)
    {
      if name !in headers {
        values := [];
      } else {
        values := headers[name];
      }
    }

    method GetFirstHeaderValue(name: string) returns (value: Option<string>)
      requires WellFormed(Contents())
      ensures value.None? <==> Values(headers, name) == []
      ensures value.Some? ==> value.value == Values(headers, name)[0]
    {
      if name !in headers {
        value := None;
      } else {
        value := Some(headers[name][0]);
      }
    }

    method AddHeader(name: string, value: string)
      modifies this
      ensures Contents() == WithHeader(old(Contents()), name, value)
    {
      var valueList := [];
      if name in headers {
        valueList := headers[name];
      }
      valueList := valueList + [value];
      headers := headers[name := valueList];
    }

    method AppendHeader(name: string, value: string)
      requires WellFormed(Contents())
      modifies this
      ensures Contents() == WithExtendedHeader(old(Contents()), name, value)
    {
      if name !in headers {
        AddHeader(name, value);
      } else {
        var values := headers[name];
        var oldValue := values[|values| - 1];
        values := RemoveFirst(values, oldValue);
        values := values + [oldValue + value];
        headers := headers[name := values];
      }
    }

    method AppendBody(line: string)
      modifies this
      ensures Contents() == WithBodyText(old(Contents()), line)
    {
      if ShouldPrependNewline(line) {
        body := body + "\n";
      }
      body := body + line;
    }

    predicate ShouldPrependNewline(line: string)
      reads this
    {
      |body| > 0 && |line| > 0 && "\n" != line
    }
  }

  /** Extending never loses or invents a value: only the extended one is replaced. */
  lemma ExtendLastMultiset(values: seq<string>, text: string)
    requires values != []
    ensures |ExtendLast(values, text)| == |values|
    ensures var oldValue := values[|values| - 1];
            multiset(ExtendLast(values, text)) == multiset(values) - multiset{oldValue} + multiset{oldValue + text}
  {
    RemoveFirstMultiset(values, values[|values| - 1]);
  }

  /** All elements of s from its first x on are x. */
  predicate OnlyTrailing<T(==)>(s: seq<T>, x: T) {
    if s == [] then true
    else if s[0] == x then forall i :: 0 <= i < |s| ==> s[i] == x
    else OnlyTrailing(s[1..], x)
  }

  /** The MailMessage interface promises that the text is appended to the last value, the others
      staying as they are. That holds exactly when no other value stands between the first value
      equal to the last one and the end. */
  lemma {:induction false} ExtendLastInPlace(values: seq<string>, text: string)
    requires values != []
    ensures var n := |values| - 1;
            (ExtendLast(values, text) == values[..n] + [values[n] + text]) <==> OnlyTrailing(values, values[n])
  {
    var n := |values| - 1;
    RemoveLast(values, values[n]);
    RemoveFirstMultiset(values, values[n]);
    assert ExtendLast(values, text)[..n] == RemoveFirst(values, values[n]);
    assert (values[..n] + [values[n] + text])[..n] == values[..n];
  }

  lemma {:induction false} RemoveLast<T>(s: seq<T>, x: T)
    requires s != [] && s[|s| - 1] == x
    ensures (RemoveFirst(s, x) == s[..|s| - 1]) <==> OnlyTrailing(s, x)
  {
    var n := |s| - 1;
    if s[0] == x {
      if s[1..] == s[..n] {
        AllEqualToLast(s);
      } else {
        assert exists i :: 0 <= i < n && s[1..][i] != s[..n][i];
      }
    } else {
      RemoveLast(s[1..], x);
      assert s[..n] == [s[0]] + s[1..][..n - 1];
      assert RemoveFirst(s, x)[1..] == RemoveFirst(s[1..], x);
      assert s[..n][1..] == s[1..][..n - 1];
    }
  }

  lemma {:induction false} AllEqualToLast<T>(s: seq<T>)
    requires s != [] && s[1..] == s[..|s| - 1]
    ensures forall i :: 0 <= i < |s| ==> s[i] == s[|s| - 1]
  {
    if |s| > 1 {
      var t := s[1..];
      assert forall i :: 0 <= i < |t| - 1 ==> t[1..][i] == s[1..][i + 1] == s[..|s| - 1][i + 1];
      AllEqualToLast(t);
      assert s[0] == s[..|s| - 1][0] == s[1..][0];
    }
  }

  /** Errors of this kind can cancel: after "b" and "bc", adding "b" and extending it by "c" puts the
      values in the wrong order, and extending that value by "d" puts them right again. So a list that
      is right at the end does not show that every extension was right. */
  lemma MisplacedValueCanBeRepaired()
    ensures ExtendLast(["b", "bc", "b"], "c") == ["bc", "b", "bc"] != ["b", "bc", "b" + "c"]
    ensures ExtendLast(["bc", "b", "bc"], "d") == ["b", "bc", "bcd"]
  {
    assert RemoveFirst(["b", "bc", "b"], "b") == ["bc", "b"];
    assert RemoveFirst(["bc", "b", "bc"], "bc") == ["b", "bc"];
    assert "b" + "c" == "bc" && "bc" + "d" == "bcd";
    assert ["bc", "b", "bc"][0] != ["b", "bc", "b" + "c"][0];
  }
}
