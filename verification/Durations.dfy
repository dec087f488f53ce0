/** Showing a duration in seconds as hours, minutes and seconds, and reading it back. */
module Durations {
  import opened Decimals
  import Strings = Text

  /** What the input holds: a number, a text, or nothing. */
  datatype Input = Seconds(n: int) | Text(s: string) | Null

  datatype DurationField = DurationField(big: bool, seconds: bool)

  // ---------- printing ----------

  function NumberText(n: int): string {
    if n < 0 then "-" + Decimal(-n) else Decimal(n)
  }

  /** _.str.pad with '0': fills up on the left and cuts nothing off. */
  function Pad(s: string, width: nat): string
    decreases width - |s|
  {
    if |s| >= width then s else Pad("0" + s, width)
  }

  /** The operator % of JavaScript, whose result has the sign of n. */
  function Remainder(n: int, d: int): int
    requires d > 0
  {
    if n >= 0 then n % d else -((-n) % d)
  }

  function DurationText(field: DurationField, h: int, m: int, s: int): string {
    Pad(NumberText(h), if field.big then 3 else 2) + ":" + Pad(NumberText(m), 2)
    + if field.seconds then ":" + Pad(NumberText(s), 2) else ""
  }

  /** formatDuration; zero, texts and absent values are returned as they are. */
  function FormatDuration(field: DurationField, value: Input): Input {
    if !value.Seconds? || value.n == 0 then value
    else
      var rest := Remainder(value.n, 3600);
      Text(DurationText(field, value.n / 3600, rest / 60, Remainder(rest, 60)))
  }

  // ---------- reading ----------

  /** String.split. */
  function Split(s: string, c: char): (parts: seq<string>)
    ensures parts != []
  {
    if s == [] then [""]
    else
      var rest := Split(s[1..], c);
      if s[0] == c then [""] + rest else [[s[0]] + rest[0]] + rest[1..]
  }

  predicate IsNumber(part: string) {
    part != "" && AllDigits(part)
  }

  /** Two or three groups of digits with colons between them. */
  predicate MatchesPattern(parts: seq<string>) {
    2 <= |parts| <= 3 && forall i :: 0 <= i < |parts| ==> IsNumber(parts[i])
  }

  function ParseParts(parts: seq<string>): Input {
    if !MatchesPattern(parts) then Null
    else Seconds(3600 * Number(parts[0]) + 60 * Number(parts[1]) + if |parts| == 3 then Number(parts[2]) else 0)
  }

  function Parse(value: Input): Input {
    if !value.Text? || value.s == "" then value else ParseParts(Split(value.s, ':'))
  }

  // ---------- splitting what was printed ----------

  lemma {:induction false} SplitAtFirst(part: string, c: char, rest: string)
    requires c !in part
    ensures Split(part + [c] + rest, c) == [part] + Split(rest, c)
  {
    var s := part + [c] + rest;
    if part == "" {
      assert s[1..] == rest;
    } else {
      assert s[1..] == part[1..] + [c] + rest;
      SplitAtFirst(part[1..], c, rest);
      assert [part[0]] + part[1..] == part;
    }
  }

  lemma {:induction false} SplitNone(part: string, c: char)
    requires c !in part
    ensures Split(part, c) == [part]
  {
    if part != "" {
      SplitNone(part[1..], c);
      assert [part[0]] + part[1..] == part;
    }
  }

  lemma {:induction false} PaddedNumber(s: string, width: nat)
    requires IsNumber(s)
    ensures IsNumber(Pad(s, width)) && Number(Pad(s, width)) == Number(s)
    ensures ':' !in Pad(s, width)
    decreases width - |s|
  {
    if |s| < width {
      LeadingZero(s);
      PaddedNumber("0" + s, width);
    } else {
      assert ':' !in s by {
        assert forall i :: 0 <= i < |s| ==> IsDigit(s[i]);
      }
    }
  }

  lemma PaddedDecimal(n: nat, width: nat)
    ensures IsNumber(Pad(NumberText(n), width)) && Number(Pad(NumberText(n), width)) == n
    ensures ':' !in Pad(NumberText(n), width)
  {
    PaddedNumber(Decimal(n), width);
    NumberOfDecimal(n);
  }

  lemma SplitPair(h: string, m: string)
    requires ':' !in h && ':' !in m
    ensures Split(h + ":" + m, ':') == [h, m]
  {
    SplitNone(m, ':');
    SplitAtFirst(h, ':', m);
  }

  lemma SplitTriple(h: string, m: string, s: string)
    requires ':' !in h && ':' !in m && ':' !in s
    ensures Split(h + ":" + m + ":" + s, ':') == [h, m, s]
  {
    SplitPair(m, s);
    assert h + ":" + m + ":" + s == h + ":" + (m + ":" + s);
    SplitAtFirst(h, ':', m + ":" + s);
  }

  lemma ParseSplit(text: string, parts: seq<string>)
    requires text != "" && Split(text, ':') == parts
    ensures Parse(Text(text)) == ParseParts(parts)
  {
  }

  lemma PairOfNumbers(h: string, m: string)
    requires IsNumber(h) && IsNumber(m)
    ensures ParseParts([h, m]) == Seconds(3600 * Number(h) + 60 * Number(m))
  {
  }

  lemma TripleOfNumbers(h: string, m: string, s: string)
    requires IsNumber(h) && IsNumber(m) && IsNumber(s)
    ensures ParseParts([h, m, s]) == Seconds(3600 * Number(h) + 60 * Number(m) + Number(s))
  {
  }

  lemma ParsePair(h: string, m: string)
    requires IsNumber(h) && IsNumber(m) && ':' !in h && ':' !in m
    ensures Parse(Text(h + ":" + m)) == Seconds(3600 * Number(h) + 60 * Number(m))
  {
    SplitPair(h, m);
    ParseSplit(h + ":" + m, [h, m]);
    PairOfNumbers(h, m);
  }

  lemma ParseTriple(h: string, m: string, s: string)
    requires IsNumber(h) && IsNumber(m) && IsNumber(s) && ':' !in h && ':' !in m && ':' !in s
    ensures Parse(Text(h + ":" + m + ":" + s)) == Seconds(3600 * Number(h) + 60 * Number(m) + Number(s))
  {
    SplitTriple(h, m, s);
    ParseSplit(h + ":" + m + ":" + s, [h, m, s]);
    TripleOfNumbers(h, m, s);
  }

  lemma ParseWithSeconds(big: bool, h: nat, m: nat, s: nat)
    ensures Parse(Text(DurationText(DurationField(big, true), h, m, s))) == Seconds(3600 * h + 60 * m + s)
  {
    var width := if big then 3 else 2;
    PaddedDecimal(h, width);
    PaddedDecimal(m, 2);
    PaddedDecimal(s, 2);
    var ht, mt, st := Pad(NumberText(h), width), Pad(NumberText(m), 2), Pad(NumberText(s), 2);
    ParseTriple(ht, mt, st);
    assert ht + ":" + mt + (":" + st) == ht + ":" + mt + ":" + st;
  }

  lemma ParseWithoutSeconds(big: bool, h: nat, m: nat, s: nat)
    ensures Parse(Text(DurationText(DurationField(big, false), h, m, s))) == Seconds(3600 * h + 60 * m)
  {
    var width := if big then 3 else 2;
    PaddedDecimal(h, width);
    PaddedDecimal(m, 2);
    var ht, mt := Pad(NumberText(h), width), Pad(NumberText(m), 2);
    ParsePair(ht, mt);
    assert ht + ":" + mt + "" == ht + ":" + mt;
  }

  /** A text printed from hours, minutes and seconds is read back as their sum. */
  lemma ParseDurationText(field: DurationField, h: nat, m: nat, s: nat)
    ensures Parse(Text(DurationText(field, h, m, s))) == Seconds(3600 * h + 60 * m + if field.seconds then s else 0)
  {
    if field.seconds {
      ParseWithSeconds(field.big, h, m, s);
    } else {
      ParseWithoutSeconds(field.big, h, m, s);
    }
  }

  /** Two or three groups of digits with colons between them. */
  ghost predicate IsDuration(text: string) {
    || (exists h, m :: IsNumber(h) && IsNumber(m) && text == h + ":" + m)
    || (exists h, m, s :: IsNumber(h) && IsNumber(m) && IsNumber(s) && text == h + ":" + m + ":" + s)
  }

  lemma {:induction false} DigitsHaveNoColon(part: string)
    requires IsNumber(part)
    ensures ':' !in part
  {
    assert forall i :: 0 <= i < |part| ==> IsDigit(part[i]);
  }

  lemma {:induction false} DurationIsRead(text: string)
    requires IsDuration(text)
    ensures text != "" && Parse(Text(text)).Seconds?
  {
    if h, m :| IsNumber(h) && IsNumber(m) && text == h + ":" + m {
      DigitsHaveNoColon(h);
      DigitsHaveNoColon(m);
      ParsePair(h, m);
    } else {
      var h, m, s :| IsNumber(h) && IsNumber(m) && IsNumber(s) && text == h + ":" + m + ":" + s;
      DigitsHaveNoColon(h);
      DigitsHaveNoColon(m);
      DigitsHaveNoColon(s);
      ParseTriple(h, m, s);
    }
  }

  lemma {:induction false} ReadIsDuration(text: string)
    requires text != "" && Parse(Text(text)).Seconds?
    ensures IsDuration(text)
  {
    var parts := Split(text, ':');
    JoinOfSplit(text, ':');
    if |parts| == 2 {
      JoinPair(parts);
    } else {
      JoinTriple(parts);
    }
  }

  /** A text is read as a number exactly when it has this form; any other text but the empty one is refused. */
  lemma {:induction false} ReadExactlyDurations(text: string)
    requires text != ""
    ensures Parse(Text(text)).Seconds? <==> IsDuration(text)
    ensures Parse(Text(text)).Seconds? || Parse(Text(text)) == Null
  {
    if IsDuration(text) {
      DurationIsRead(text);
    } else if Parse(Text(text)).Seconds? {
      ReadIsDuration(text);
    }
  }

  // ---------- the round trips ----------

  lemma ByMinute(v: nat, q: nat, r: nat)
    requires r < 60 && v == 60 * q + r
    ensures v / 60 == q && v % 60 == r
  {
  }

  lemma ByHour(v: nat, q: nat, r: nat)
    requires r < 3600 && v == 3600 * q + r
    ensures v / 3600 == q && v % 3600 == r
  {
  }

  lemma PartsOfDuration(v: nat)
    ensures v == 3600 * (v / 3600) + 60 * ((v % 3600) / 60) + (v % 3600) % 60
    ensures (v % 3600) % 60 == v % 60
  {
    ByMinute(v, 60 * (v / 3600) + (v % 3600) / 60, (v % 3600) % 60);
  }

  lemma FirstPartMatters(first: string, rest: string)
    requires ':' !in first && !IsNumber(first)
    ensures Parse(Text(first + ":" + rest)) == Null
  {
    SplitAtFirst(first, ':', rest);
  }

  lemma SignIsNoDigit(h: int, width: nat)
    requires h < 0
    ensures !IsNumber(Pad(NumberText(h), width))
  {
    var text := Pad(NumberText(h), width);
    PadKeeps(NumberText(h), width, '-');
    var i :| 0 <= i < |text| && text[i] == '-';
    assert !IsDigit(text[i]);
  }

  /** Where the text of a number below zero has its sign, the pattern does not match. */
  lemma NegativeDoesNotParse(field: DurationField, h: int, m: int, s: int)
    requires h < 0
    ensures Parse(Text(DurationText(field, h, m, s))) == Null
  {
    var width := if field.big then 3 else 2;
    var ht, mt := Pad(NumberText(h), width), Pad(NumberText(m), 2);
    var tail := if field.seconds then ":" + Pad(NumberText(s), 2) else "";
    NoColon(h, width);
    SignIsNoDigit(h, width);
    FirstPartMatters(ht, mt + tail);
    assert ht + ":" + mt + tail == ht + ":" + (mt + tail);
  }

  lemma {:induction false} PadKeeps(s: string, width: nat, c: char)
    requires c in s
    ensures c in Pad(s, width)
    decreases width - |s|
  {
    if |s| < width {
      PadKeeps("0" + s, width, c);
    }
  }

  lemma {:induction false} PadAddsNone(s: string, width: nat, c: char)
    requires c !in s && c != '0'
    ensures c !in Pad(s, width)
    decreases width - |s|
  {
    if |s| < width {
      PadAddsNone("0" + s, width, c);
    }
  }

  lemma NoColon(n: int, width: nat)
    ensures ':' !in Pad(NumberText(n), width)
  {
    var digits := Decimal(if n < 0 then -n else n);
    assert forall i :: 0 <= i < |digits| ==> IsDigit(digits[i]);
    PadAddsNone(NumberText(n), width, ':');
  }

  /** Every number of seconds from zero on is read back, or its whole minutes where seconds are not shown;
      a number below zero is shown as a text that is refused. */
  lemma ParseFormatted(field: DurationField, v: int)
    ensures Parse(FormatDuration(field, Seconds(v))) ==
              if v < 0 then Null else if field.seconds then Seconds(v) else Seconds(v - v % 60)
  {
    if v > 0 {
      PositiveIsRead(field, v);
    } else if v < 0 {
      NegativeIsRefused(field, v);
    }
  }

  lemma {:induction false} FormattedAs(field: DurationField, v: nat) returns (h: nat, m: nat, s: nat)
    requires v > 0
    ensures m < 60 && s < 60 && v == 3600 * h + 60 * m + s && v % 60 == s
    ensures FormatDuration(field, Seconds(v)) == Text(DurationText(field, h, m, s))
  {
    h, m, s := SplitSeconds(v);
    FormatSum(field, h, m, s);
  }

  lemma SplitSeconds(v: nat) returns (h: nat, m: nat, s: nat)
    ensures m < 60 && s < 60 && v == 3600 * h + 60 * m + s && v % 60 == s
  {
    PartsOfDuration(v);
    h, m, s := v / 3600, (v % 3600) / 60, (v % 3600) % 60;
  }

  lemma PositiveIsRead(field: DurationField, v: nat)
    requires v > 0
    ensures Parse(FormatDuration(field, Seconds(v))) == if field.seconds then Seconds(v) else Seconds(v - v % 60)
  {
    var h, m, s := FormattedAs(field, v);
    ParseDurationText(field, h, m, s);
  }

  lemma NegativeIsRefused(field: DurationField, v: int)
    requires v < 0
    ensures Parse(FormatDuration(field, Seconds(v))) == Null
  {
    var rest := Remainder(v, 3600);
    NegativeDoesNotParse(field, v / 3600, rest / 60, Remainder(rest, 60));
  }

  lemma {:induction false} PadLength(s: string, width: nat)
    ensures |Pad(s, width)| == if |s| < width then width else |s|
    decreases width - |s|
  {
    if |s| < width {
      PadLength("0" + s, width);
    }
  }

  lemma TwoDigits(n: nat)
    requires n < 60
    ensures |Pad(NumberText(n), 2)| == 2
  {
    assert |Decimal(n)| <= 2;
    PadLength(Decimal(n), 2);
  }

  /** The parts of the text of v seconds: hours on at least two or three digits, whole minutes and seconds of
      the hour and the minute on two. */
  lemma {:induction false} ShownParts(field: DurationField, v: nat) returns (parts: seq<string>)
    requires v > 0
    ensures FormatDuration(field, Seconds(v)).Text? && parts == Split(FormatDuration(field, Seconds(v)).s, ':')
    ensures MatchesPattern(parts) && |parts| == if field.seconds then 3 else 2
    ensures Number(parts[0]) == v / 3600 && |parts[0]| >= if field.big then 3 else 2
    ensures Number(parts[1]) == v % 3600 / 60 && |parts[1]| == 2
    ensures field.seconds ==> Number(parts[2]) == v % 60 && |parts[2]| == 2
  {
    PartsOfDuration(v);
    parts := PartsOfText(field, v / 3600, v % 3600 / 60, v % 3600 % 60);
  }

  lemma {:induction false} PartsOfText(field: DurationField, h: nat, m: nat, s: nat) returns (parts: seq<string>)
    requires m < 60 && s < 60
    ensures parts == Split(DurationText(field, h, m, s), ':')
    ensures MatchesPattern(parts) && |parts| == if field.seconds then 3 else 2
    ensures Number(parts[0]) == h && |parts[0]| >= if field.big then 3 else 2
    ensures Number(parts[1]) == m && |parts[1]| == 2
    ensures field.seconds ==> Number(parts[2]) == s && |parts[2]| == 2
  {
    var width := if field.big then 3 else 2;
    var ht, mt, st := Pad(NumberText(h), width), Pad(NumberText(m), 2), Pad(NumberText(s), 2);
    PaddedDecimal(h, width);
    PadLength(NumberText(h), width);
    PaddedDecimal(m, 2);
    TwoDigits(m);
    PaddedDecimal(s, 2);
    TwoDigits(s);
    if field.seconds {
      SplitTriple(ht, mt, st);
      assert ht + ":" + mt + (":" + st) == ht + ":" + mt + ":" + st;
      parts := [ht, mt, st];
    } else {
      SplitPair(ht, mt);
      assert ht + ":" + mt + "" == ht + ":" + mt;
      parts := [ht, mt];
    }
  }

  lemma SecondsOfParts(h: nat, m: nat, s: nat)
    requires m < 60 && s < 60
    ensures var v := 3600 * h + 60 * m + s;
            v / 3600 == h && (v % 3600) / 60 == m && (v % 3600) % 60 == s
  {
    ByHour(3600 * h + 60 * m + s, h, 60 * m + s);
    ByMinute(60 * m + s, m, s);
  }

  lemma {:induction false} FormatSum(field: DurationField, h: nat, m: nat, s: nat)
    requires m < 60 && s < 60 && (h > 0 || m > 0 || s > 0)
    ensures FormatDuration(field, Seconds(3600 * h + 60 * m + s)) == Text(DurationText(field, h, m, s))
  {
    SecondsOfParts(h, m, s);
    var v := 3600 * h + 60 * m + s;
    assert v > 0 && Remainder(v, 3600) == v % 3600 && Remainder(v % 3600, 60) == (v % 3600) % 60;
  }

  lemma ParseSum(field: DurationField, h: nat, m: nat, s: nat)
    requires !field.seconds ==> s == 0
    ensures Parse(Text(DurationText(field, h, m, s))) == Seconds(3600 * h + 60 * m + s)
  {
    ParseDurationText(field, h, m, s);
  }

  /** A text of this form is shown again after it was read, unless it stands for no time at all. */
  lemma FormatParsed(field: DurationField, h: nat, m: nat, s: nat)
    requires m < 60 && s < 60 && (!field.seconds ==> s == 0)
    ensures var text := Text(DurationText(field, h, m, s));
            FormatDuration(field, Parse(text)) == text <==> h > 0 || m > 0 || s > 0
  {
    var sum := 3600 * h + 60 * m + s;
    ParseSum(field, h, m, s);
    if sum > 0 {
      FormatSum(field, h, m, s);
    } else {
      assert FormatDuration(field, Seconds(sum)).Seconds?;
    }
  }

  // ---------- which texts are shown again ----------

  lemma {:induction false} JoinOfSplit(s: string, c: char)
    ensures Strings.Join(Split(s, c), [c]) == s
  {
    if s != [] {
      JoinOfSplit(s[1..], c);
      var rest := Split(s[1..], c);
      if s[0] == c {
        assert ([""] + rest)[1..] == rest;
      } else if |rest| > 1 {
        var more := Strings.Join(rest[1..], [c]);
        assert [s[0]] + (rest[0] + [c] + more) == [s[0]] + rest[0] + [c] + more;
      }
    }
  }

  lemma {:induction false} PadOneMore(s: string, width: nat)
    requires |s| <= width
    ensures Pad(s, width + 1) == "0" + Pad(s, width)
    decreases width - |s|
  {
    if |s| < width {
      PadOneMore("0" + s, width);
    }
  }

  /** Digits are their number, padded to their length. */
  lemma {:induction false} PadOfNumber(s: string)
    requires IsNumber(s)
    ensures Pad(Decimal(Number(s)), |s|) == s
  {
    if |s| == 1 || s[0] != '0' {
      DecimalOfNumber(s);
    } else {
      var n := Number(s[1..]);
      assert s == "0" + s[1..];
      LeadingZero(s[1..]);
      PadOfNumber(s[1..]);
      PadLength(Decimal(n), |s| - 1);
      PadOneMore(Decimal(n), |s| - 1);
    }
  }

  function HourDigits(field: DurationField): nat {
    if field.big then 3 else 2
  }

  /** The first part is a number on at least so many digits, with a leading zero on exactly so many only. */
  predicate IsPadded(part: string, width: nat) {
    IsNumber(part) && |part| >= width && (|part| > width ==> part[0] != '0')
  }

  /** Hours, minutes below 60 on two digits and, where they are shown, such seconds; not all of them zero. */
  predicate IsCanonical(field: DurationField, text: string) {
    AreCanonical(field, Split(text, ':'))
  }

  predicate AreCanonical(field: DurationField, parts: seq<string>) {
    && |parts| == (if field.seconds then 3 else 2) && IsPadded(parts[0], HourDigits(field))
    && (forall i :: 1 <= i < |parts| ==> IsNumber(parts[i]) && |parts[i]| == 2 && Number(parts[i]) < 60)
    && exists i :: 0 <= i < |parts| && Number(parts[i]) != 0
  }

  lemma PaddedIsPad(part: string, width: nat)
    requires IsPadded(part, width)
    ensures Pad(Decimal(Number(part)), width) == part
  {
    if |part| == width {
      PadOfNumber(part);
    } else {
      DecimalOfNumber(part);
    }
  }

  lemma PadIsPadded(n: nat, width: nat)
    requires width > 0
    ensures IsPadded(Pad(NumberText(n), width), width)
  {
    PaddedDecimal(n, width);
    PadLength(Decimal(n), width);
    OnlyZeroBeginsWithZero(n);
  }

  lemma JoinPair(parts: seq<string>)
    requires |parts| == 2
    ensures Strings.Join(parts, ":") == parts[0] + ":" + parts[1]
  {
    assert parts[1..] == [parts[1]];
  }

  lemma JoinTriple(parts: seq<string>)
    requires |parts| == 3
    ensures Strings.Join(parts, ":") == parts[0] + ":" + parts[1] + ":" + parts[2]
  {
    JoinPair(parts[1..]);
    assert parts[0] + ":" + (parts[1] + ":" + parts[2]) == parts[0] + ":" + parts[1] + ":" + parts[2];
  }

  lemma CanonicalWithoutSeconds(field: DurationField, text: string)
    requires IsCanonical(field, text) && !field.seconds
    ensures var parts := Split(text, ':'); text == DurationText(field, Number(parts[0]), Number(parts[1]), 0)
  {
    var parts := Split(text, ':');
    JoinOfSplit(text, ':');
    JoinPair(parts);
    PaddedIsPad(parts[0], HourDigits(field));
    PaddedIsPad(parts[1], 2);
    assert parts[0] + ":" + parts[1] + "" == parts[0] + ":" + parts[1];
  }

  lemma {:induction false} CanonicalWithSeconds(field: DurationField, text: string)
    requires IsCanonical(field, text) && field.seconds
    ensures var parts := Split(text, ':');
            text == DurationText(field, Number(parts[0]), Number(parts[1]), Number(parts[2]))
  {
    var parts := Split(text, ':');
    JoinOfSplit(text, ':');
    JoinTriple(parts);
    PaddedIsPad(parts[0], HourDigits(field));
    PaddedIsPad(parts[1], 2);
    PaddedIsPad(parts[2], 2);
    assert parts[0] + ":" + parts[1] + (":" + parts[2]) == parts[0] + ":" + parts[1] + ":" + parts[2];
  }

  lemma {:induction false} CanonicalIsShown(field: DurationField, text: string)
    requires IsCanonical(field, text)
    ensures FormatDuration(field, Parse(Text(text))) == Text(text)
  {
    var parts := Split(text, ':');
    if field.seconds {
      CanonicalWithSeconds(field, text);
      FormatParsed(field, Number(parts[0]), Number(parts[1]), Number(parts[2]));
    } else {
      CanonicalWithoutSeconds(field, text);
      FormatParsed(field, Number(parts[0]), Number(parts[1]), 0);
    }
  }

  lemma FirstPart(field: DurationField, h: nat, m: nat, s: nat)
    ensures Split(DurationText(field, h, m, s), ':')[0] == Pad(NumberText(h), HourDigits(field))
  {
    var text, ht := DurationText(field, h, m, s), Pad(NumberText(h), HourDigits(field));
    NoColon(h, HourDigits(field));
    assert text == ht + ":" + text[|ht| + 1..];
    SplitAtFirst(ht, ':', text[|ht| + 1..]);
  }

  lemma TextIsCanonical(field: DurationField, h: nat, m: nat, s: nat)
    requires m < 60 && s < 60 && (h > 0 || m > 0 || s > 0) && (!field.seconds ==> s == 0)
    ensures IsCanonical(field, DurationText(field, h, m, s))
  {
    var parts := PartsOfText(field, h, m, s);
    PadIsPadded(h, HourDigits(field));
    FirstPart(field, h, m, s);
    PartsAreCanonical(field, parts, m, s);
  }

  lemma PartsAreCanonical(field: DurationField, parts: seq<string>, m: nat, s: nat)
    requires |parts| == (if field.seconds then 3 else 2) && MatchesPattern(parts)
    requires IsPadded(parts[0], HourDigits(field))
    requires m < 60 && s < 60 && (Number(parts[0]) > 0 || m > 0 || s > 0) && (!field.seconds ==> s == 0)
    requires Number(parts[1]) == m && |parts[1]| == 2
    requires field.seconds ==> Number(parts[2]) == s && |parts[2]| == 2
    ensures AreCanonical(field, parts)
  {
    assert Number(parts[0]) != 0 || Number(parts[1]) != 0 || (field.seconds && Number(parts[2]) != 0);
  }

  lemma FormattedIsCanonical(field: DurationField, v: nat)
    requires v > 0 && (!field.seconds ==> v % 60 == 0)
    ensures FormatDuration(field, Seconds(v)).Text? && IsCanonical(field, FormatDuration(field, Seconds(v)).s)
  {
    var h, m, s := FormattedAs(field, v);
    TextIsCanonical(field, h, m, s);
  }

  lemma ReadsAsNumber(field: DurationField, text: string)
    requires text != "" && FormatDuration(field, Parse(Text(text))) == Text(text)
    ensures Parse(Text(text)).Seconds? && Parse(Text(text)).n > 0
  {
  }

  /** A text is shown again as it was exactly when it is empty or in canonical form. */
  lemma ShownAgainIff(field: DurationField, text: string)
    ensures FormatDuration(field, Parse(Text(text))) == Text(text) <==> text == "" || IsCanonical(field, text)
  {
    if text != "" && IsCanonical(field, text) {
      CanonicalIsShown(field, text);
    } else if text != "" && FormatDuration(field, Parse(Text(text))) == Text(text) {
      ReadsAsNumber(field, text);
      var v := Parse(Text(text)).n;
      ParseFormatted(field, v);
      FormattedIsCanonical(field, v);
    }
  }
}
