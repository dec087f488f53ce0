/** encodeEntities of angular-sanitize: a chain of replacements over the whole text. */
module EntityEncoding {
  import opened Text
  import opened Decimals

  /** String.replace with a global pattern that matches single characters. */
  function Replace(s: string, f: char -> string): string {
    if s == [] then [] else f(s[0]) + Replace(s[1..], f)
  }

  /** The characters that the pattern for non-alphanumerics leaves alone. */
  predicate IsPlain(c: char) {
    '#' <= c <= '~' || c == ' ' || c == '!'
  }

  function Entity(name: string): string { "&" + name + ";" }

  function Ampersand(c: char): string { if c == '&' then Entity("amp") else [c] }

  function NumericEntity(n: nat): string { Entity("#" + Decimal(n)) }

  /** One numeric entity for each UTF-16 code unit of the character: two above U+FFFF. */
  function NonPlain(c: char): string {
    if IsPlain(c) then [c]
    else if (c as nat) < 0x1_0000 then NumericEntity(c as nat)
    else NumericEntity(HighUnit(c)) + NumericEntity(LowUnit(c))
  }

  function HighUnit(c: char): (u: nat)
    requires c as nat >= 0x1_0000
    ensures 0xd800 <= u < 0xdc00
  {
    0xd800 + (c as nat - 0x1_0000) / 0x400
  }

  function LowUnit(c: char): (u: nat)
    requires c as nat >= 0x1_0000
    ensures 0xdc00 <= u < 0xe000
  {
    0xdc00 + (c as nat - 0x1_0000) % 0x400
  }

  function LessThan(c: char): string { if c == '<' then Entity("lt") else [c] }

  function GreaterThan(c: char): string { if c == '>' then Entity("gt") else [c] }

  function EncodeEntities(s: string): string {
    Replace(Replace(Replace(Replace(s, Ampersand), NonPlain), LessThan), GreaterThan)
  }

  /** What the chain makes of one character. */
  function Encoded(c: char): string {
    if c == '&' then Entity("amp")
    else if c == '<' then Entity("lt")
    else if c == '>' then Entity("gt")
    else NonPlain(c)
  }

  lemma {:induction false} ReplaceAppend(a: string, b: string, f: char -> string)
    ensures Replace(a + b, f) == Replace(a, f) + Replace(b, f)
  {
    if a == [] {
      assert a + b == b;
    } else {
      assert (a + b)[1..] == a[1..] + b;
      ReplaceAppend(a[1..], b, f);
    }
  }

  lemma {:induction false} ReplaceKeeps(s: string, f: char -> string)
    requires forall i :: 0 <= i < |s| ==> f(s[i]) == [s[i]]
    ensures Replace(s, f) == s
  {
    if s != [] {
      ReplaceKeeps(s[1..], f);
    }
  }

  lemma ReplaceOne(c: char, f: char -> string)
    ensures Replace([c], f) == f(c)
  {
    assert [c][1..] == [];
    assert f(c) + [] == f(c);
  }

  predicate IsInert(c: char) {
    c != '<' && c != '>' && c != '"'
  }

  lemma NonPlainIsInert(c: char)
    requires c != '<' && c != '>'
    ensures forall i :: 0 <= i < |NonPlain(c)| ==> IsInert(NonPlain(c)[i])
  {
  }

  /** The later replacements leave the entities of the earlier ones alone. */
  lemma ChainOnOne(c: char)
    ensures EncodeEntities([c]) == Encoded(c)
  {
    ReplaceOne(c, Ampersand);
    var s1 := Ampersand(c);
    if c == '&' {
      ReplaceKeeps(s1, NonPlain);
    } else {
      ReplaceOne(c, NonPlain);
    }
    var s2 := if c == '&' then s1 else NonPlain(c);
    assert Replace(s1, NonPlain) == s2;
    if c == '<' {
      ReplaceOne(c, LessThan);
      ReplaceKeeps(Entity("lt"), GreaterThan);
    } else {
      if c != '>' && c != '&' {
        NonPlainIsInert(c);
      }
      ReplaceKeeps(s2, LessThan);
      if c == '>' {
        ReplaceOne(c, GreaterThan);
      } else {
        ReplaceKeeps(s2, GreaterThan);
      }
    }
  }

  lemma EncodeAppend(a: string, b: string)
    ensures EncodeEntities(a + b) == EncodeEntities(a) + EncodeEntities(b)
  {
    var (a1, b1) := (Replace(a, Ampersand), Replace(b, Ampersand));
    var (a2, b2) := (Replace(a1, NonPlain), Replace(b1, NonPlain));
    ReplaceAppend(a, b, Ampersand);
    ReplaceAppend(a1, b1, NonPlain);
    ReplaceAppend(a2, b2, LessThan);
    ReplaceAppend(Replace(a2, LessThan), Replace(b2, LessThan), GreaterThan);
  }

  lemma EncodeHead(s: string)
    requires s != []
    ensures EncodeEntities(s) == Encoded(s[0]) + EncodeEntities(s[1..])
  {
    assert s == [s[0]] + s[1..];
    EncodeAppend([s[0]], s[1..]);
    ChainOnOne(s[0]);
  }

  /** The chain of replacements is one pass over the characters. */
  lemma {:induction false} ChainIsOnePass(s: string)
    ensures EncodeEntities(s) == Replace(s, Encoded)
  {
    if s != [] {
      EncodeHead(s);
      ChainIsOnePass(s[1..]);
    }
  }

  /** Two numbers are the UTF-16 code units of a character above U+FFFF. */
  predicate AreUnits(c: char, high: nat, low: nat) {
    && 0xd800 <= high < 0xdc00 && 0xdc00 <= low < 0xe000
    && c as nat == 0x1_0000 + 0x400 * (high - 0xd800) + (low - 0xdc00)
  }

  lemma {:induction false} UnitsOf(c: char)
    requires c as nat >= 0x1_0000
    ensures AreUnits(c, HighUnit(c), LowUnit(c))
  {
  }

  /** What becomes of one character: the three with names get them, the rest of printable ASCII but the double quote
      stays, and any other is written as the decimal numbers of its code units. */
  lemma {:induction false} EncodedCharacter(c: char)
    ensures var code := EncodeEntities([c]);
            && (c == '&' ==> code == "&amp;") && (c == '<' ==> code == "&lt;") && (c == '>' ==> code == "&gt;")
            && (' ' <= c <= '~' && c !in {'&', '<', '>', '"'} ==> code == [c])
            && (!(' ' <= c <= '~') || c == '"' ==>
                  && (c as nat < 0x1_0000 ==> code == "&#" + Decimal(c as nat) + ";")
                  && (c as nat >= 0x1_0000 ==>
                        exists h, l :: AreUnits(c, h, l)
                                       && code == "&#" + Decimal(h) + ";" + ("&#" + Decimal(l) + ";")))
  {
    ChainIsOnePass([c]);
    ReplaceOne(c, Encoded);
    NumberedEntity(c as nat);
    if c as nat >= 0x1_0000 {
      UnitsOf(c);
      NumberedEntity(HighUnit(c));
      NumberedEntity(LowUnit(c));
      assert AreUnits(c, HighUnit(c), LowUnit(c));
    }
  }

  lemma {:induction false} NumberedEntity(n: nat)
    ensures NumericEntity(n) == "&#" + Decimal(n) + ";"
  {
    assert "&" + ("#" + Decimal(n)) + ";" == "&#" + Decimal(n) + ";";
  }

  lemma EncodedIsInert(c: char)
    ensures forall i :: 0 <= i < |Encoded(c)| ==> IsInert(Encoded(c)[i])
  {
    if c != '<' && c != '>' {
      NonPlainIsInert(c);
    }
  }

  /** Encoded text can neither open nor close a tag, nor end a quoted value. */
  lemma {:induction false} EncodedTextIsInert(s: string)
    ensures forall i :: 0 <= i < |EncodeEntities(s)| ==> IsInert(EncodeEntities(s)[i])
  {
    if s != [] {
      EncodeHead(s);
      EncodedIsInert(s[0]);
      EncodedTextIsInert(s[1..]);
    }
  }

  // ---------- what a browser shows ----------

  const REPLACEMENT := '\U{FFFD}'

  /** What the HTML standard takes for the numbers from 0x80 to 0x9F ("Numeric character reference end state"). */
  const CONTROLS: string := [
    '\U{20AC}', '\U{0081}', '\U{201A}', '\U{0192}', '\U{201E}', '\U{2026}', '\U{2020}', '\U{2021}',
    '\U{02C6}', '\U{2030}', '\U{0160}', '\U{2039}', '\U{0152}', '\U{008D}', '\U{017D}', '\U{008F}',
    '\U{0090}', '\U{2018}', '\U{2019}', '\U{201C}', '\U{201D}', '\U{2022}', '\U{2013}', '\U{2014}',
    '\U{02DC}', '\U{2122}', '\U{0161}', '\U{203A}', '\U{0153}', '\U{009D}', '\U{017E}', '\U{0178}']

  predicate IsRemapped(n: nat) {
    n == 0 || (0x80 <= n < 0xa0 && n !in {0x81, 0x8d, 0x8f, 0x90, 0x9d})
  }

  /** The character of a numeric reference: none for zero, a surrogate or a number that is too large. */
  function NumericChar(n: nat): char {
    if n == 0 || 0xd800 <= n < 0xe000 || n >= 0x11_0000 then REPLACEMENT
    else if 0x80 <= n < 0xa0 then CONTROLS[n - 0x80]
    else n as char
  }

  /** The character that the name between "&" and ";" stands for. */
  function NamedChar(name: string): Option<char> {
    if name == "amp" then Some('&')
    else if name == "lt" then Some('<')
    else if name == "gt" then Some('>')
    else if |name| > 1 && name[0] == '#' && AllDigits(name[1..]) then Some(NumericChar(Number(name[1..])))
    else None
  }

  /** The text that a browser shows for encoded text. */
  function Shown(s: string): string
    decreases |s|
  {
    if s == [] then []
    else if s[0] != '&' then [s[0]] + Shown(s[1..])
    else
      var end := IndexOf(s, ';');
      if end.None? || NamedChar(s[1..end.value]).None? then [s[0]] + Shown(s[1..])
      else [NamedChar(s[1..end.value]).value] + Shown(s[end.value + 1..])
  }

  lemma {:induction false} IndexOfAfter(s: string, c: char, rest: string)
    requires c !in s
    ensures IndexOf(s + [c] + rest, c) == Some(|s|)
  {
    var t := s + [c] + rest;
    if s != [] {
      assert t[1..] == s[1..] + [c] + rest;
      IndexOfAfter(s[1..], c, rest);
    }
  }

  lemma EntityParts(name: string, rest: string)
    requires ';' !in name
    ensures var s := Entity(name) + rest;
            && s[0] == '&' && IndexOf(s, ';') == Some(|name| + 1)
            && s[1..|name| + 1] == name && s[|name| + 2..] == rest
  {
    assert ';' !in "&" + name;
    IndexOfAfter("&" + name, ';', rest);
    assert Entity(name) + rest == ("&" + name) + [';'] + rest;
  }

  lemma ShownEntity(name: string, rest: string)
    requires ';' !in name && NamedChar(name).Some?
    ensures Shown(Entity(name) + rest) == [NamedChar(name).value] + Shown(rest)
  {
    EntityParts(name, rest);
  }

  lemma ShownNumber(n: nat, rest: string)
    ensures Shown(NumericEntity(n) + rest) == [NumericChar(n)] + Shown(rest)
  {
    var digits := Decimal(n);
    var name := "#" + digits;
    NumberOfDecimal(n);
    assert name[1..] == digits && name[0] == '#';
    assert forall i :: 0 <= i < |digits| ==> IsDigit(digits[i]);
    ShownEntity(name, rest);
  }

  /** What becomes of one character. */
  function ShownChar(c: char): string {
    if IsPlain(c) then [c]
    else if c as nat < 0x1_0000 then [NumericChar(c as nat)]
    else [REPLACEMENT, REPLACEMENT]
  }

  lemma ShownPair(high: nat, low: nat, rest: string)
    requires 0xd800 <= high < 0xe000 && 0xd800 <= low < 0xe000
    ensures Shown(NumericEntity(high) + NumericEntity(low) + rest) == [REPLACEMENT, REPLACEMENT] + Shown(rest)
  {
    var more := NumericEntity(low) + rest;
    ConcatIsAssociative(NumericEntity(high), NumericEntity(low), rest);
    ShownNumber(high, more);
    ShownNumber(low, rest);
    ConcatIsAssociative([REPLACEMENT], [REPLACEMENT], Shown(rest));
  }

  lemma ShownEncoded(c: char, rest: string)
    ensures Shown(Encoded(c) + rest) == ShownChar(c) + Shown(rest)
  {
    if c == '&' {
      ShownEntity("amp", rest);
    } else if c == '<' {
      ShownEntity("lt", rest);
    } else if c == '>' {
      ShownEntity("gt", rest);
    } else if IsPlain(c) {
      assert ([c] + rest)[1..] == rest;
    } else if c as nat < 0x1_0000 {
      ShownNumber(c as nat, rest);
    } else {
      ShownPair(HighUnit(c), LowUnit(c), rest);
    }
  }

  /** Encoded text is shown character by character. */
  lemma {:induction false} ShownCharByChar(s: string)
    ensures Shown(EncodeEntities(s)) == Replace(s, ShownChar)
  {
    if s != [] {
      EncodeHead(s);
      ShownEncoded(s[0], EncodeEntities(s[1..]));
      ShownCharByChar(s[1..]);
    }
  }

  /** The character has one UTF-16 code unit, and its number is not taken for another character. */
  predicate Survives(c: char) {
    c as nat < 0x1_0000 && !IsRemapped(c as nat)
  }

  lemma ShownCharIff(c: char)
    ensures |ShownChar(c)| >= 1
    ensures ShownChar(c) == [c] <==> Survives(c)
  {
  }

  lemma {:induction false} NothingGetsShorter(s: string)
    ensures |Replace(s, ShownChar)| >= |s|
  {
    if s != [] {
      ShownCharIff(s[0]);
      NothingGetsShorter(s[1..]);
    }
  }

  lemma {:induction false} ReplaceIsIdentityIff(s: string)
    ensures Replace(s, ShownChar) == s <==> forall c :: c in s ==> Survives(c)
  {
    if s != [] {
      var head, rest := ShownChar(s[0]), Replace(s[1..], ShownChar);
      ShownCharIff(s[0]);
      ReplaceIsIdentityIff(s[1..]);
      NothingGetsShorter(s[1..]);
      assert s == [s[0]] + s[1..];
      if |head| == 1 {
        assert head + rest == s <==> head == [s[0]] && rest == s[1..] by {
          assert (head + rest)[1..] == rest && (head + rest)[0] == head[0];
        }
      } else {
        assert |head + rest| > |s|;
      }
    }
  }

  /** The encoded text is shown as the text exactly when each of its characters survives. */
  lemma EncodeThenShow(s: string)
    ensures Shown(EncodeEntities(s)) == s <==> forall c :: c in s ==> Survives(c)
  {
    ShownCharByChar(s);
    ReplaceIsIdentityIff(s);
  }

  /** A character above U+FFFF is shown as two replacement characters, some control characters as others. */
  lemma LostCharacters(c: char)
    ensures c as nat >= 0x1_0000 ==> Shown(EncodeEntities([c])) == ['\U{FFFD}', '\U{FFFD}']
    ensures c == '\U{0080}' ==> Shown(EncodeEntities([c])) == ['\U{20AC}']
  {
    ShownCharByChar([c]);
    ReplaceOne(c, ShownChar);
  }
}
