/** What the parser takes off the front of the text, told of the text alone. */
module HtmlTokens {
  import opened Text
  import opened HtmlParser
  import opened HtmlNesting

  // ---------- the laws of each kind ----------

  lemma {:induction false} FirstIs(s: string, c: char, i: nat)
    requires i < |s| && s[i] == c && c !in s[..i]
    ensures IndexOf(s, c) == Some(i)
  {
  }

  /** Text up to the next "<", or to the end, is one token, decoded. */
  lemma {:induction false} TextIsTaken(b: Browser, text: string, rest: string)
    requires text != "" && '<' !in text && (rest == "" || rest[0] == '<')
    ensures NextToken(b, text + rest) == TextToken(|text|, b.decode(text))
  {
    var html := text + rest;
    assert html[0] == text[0] && html[..|text|] == text;
    if rest == "" {
      assert html == text;
    } else {
      FirstIs(html, '<', |text|);
    }
  }

  /** The first occurrence of the pattern is where it is found. */
  lemma {:induction false} FoundFirst(s: string, pattern: string, i: nat)
    requires i + |pattern| <= |s| && s[i..i + |pattern|] == pattern
    requires forall k :: 0 <= k < i ==> !(pattern <= s[k..])
    ensures Find(s, pattern) == Some(i)
  {
    assert s[i..][..|pattern|] == pattern;
    var k := Find(s, pattern);
    assert k.Some? ==> s[k.value..][..|pattern|] == pattern;
  }

  /** A comment up to its first "-->" is one token. */
  lemma {:induction false} CommentIsTaken(b: Browser, comment: string, rest: string)
    requires var html := "<!--" + comment + "-->" + rest;
             forall k :: 0 <= k < |comment| + 4 ==> !("-->" <= html[k..])
    ensures NextToken(b, "<!--" + comment + "-->" + rest) == CommentToken(|comment| + 7, comment)
  {
    var html := "<!--" + comment + "-->" + rest;
    assert html[..4] == "<!--";
    assert html[|comment| + 4..|comment| + 7] == "-->" && html[4..|comment| + 4] == comment;
    FoundFirst(html, "-->", |comment| + 4);
  }

  /** In the two shortest comments the dashes of the beginning are those of the end, and are reported. */
  lemma {:induction false} ShortestComments(b: Browser, rest: string)
    ensures NextToken(b, "<!-->" + rest) == CommentToken(5, "--")
    ensures NextToken(b, "<!--->" + rest) == CommentToken(6, "-")
  {
    CommentAt(b, "<!-->" + rest, 2);
    CommentAt(b, "<!--->" + rest, 3);
  }

  lemma {:induction false} CommentAt(b: Browser, html: string, i: nat)
    requires 2 <= i <= 3 && |html| >= i + 3 && html[..4] == "<!--" && html[i..i + 3] == "-->"
    ensures NextToken(b, html) == CommentToken(i + 3, html[i..4])
  {
    FindsEnd(html, i);
    assert "<!--" <= html;
  }

  lemma {:induction false} FindsEnd(html: string, i: nat)
    requires 2 <= i <= 3 && |html| >= i + 3 && html[..4] == "<!--" && html[i..i + 3] == "-->"
    ensures Find(html, "-->") == Some(i)
  {
    assert html[..4][0] == '<' && html[..4][1] == '!' && html[i..i + 3][1] == '-';
    NoEndBefore(html, i);
    FoundFirst(html, "-->", i);
  }

  lemma {:induction false} NoEndBefore(html: string, i: nat)
    requires 2 <= i <= 3 && |html| >= i + 3 && html[0] == '<' && html[1] == '!' && html[i + 1] == '-'
    ensures forall k :: 0 <= k < i ==> !("-->" <= html[k..])
  {
    assert "-->"[0] == '-' && "-->"[2] == '>';
    forall k | 0 <= k < i
      ensures !("-->" <= html[k..])
    {
      assert html[k..][0] == html[k];
      if k == 2 {
        assert html[k..][2] == html[4];
      }
    }
  }

  /** "<", any white space, "/". */
  ghost predicate HasSlash(html: string) {
    html != "" && html[0] == '<'
    && exists k :: 0 < k < |html| && html[k] == '/' && forall i :: 0 < i < k ==> IsSpace(html[i])
  }

  /** The white space of JavaScript's patterns: ASCII's, the byte order mark, and the separators of Unicode. */
  lemma {:induction false} SpacesAre(c: char)
    ensures IsSpace(c) <==>
              c in " \t\n\r\U{000b}\U{000c}\U{00a0}\U{1680}\U{2000}\U{2001}\U{2002}\U{2003}\U{2004}\U{2005}\U{2006}"
                   + "\U{2007}\U{2008}\U{2009}\U{200a}\U{2028}\U{2029}\U{202f}\U{205f}\U{3000}\U{feff}"
  {
  }

  lemma {:induction false} SlashAfterSpaces(s: string)
    ensures StartsWith(SkipSpaces(s), "/")
       <==> exists k :: 0 <= k < |s| && s[k] == '/' && forall i :: 0 <= i < k ==> IsSpace(s[i])
  {
    if s != "" && IsSpace(s[0]) {
      var rest := s[1..];
      SlashAfterSpaces(rest);
      if k :| 0 <= k < |rest| && rest[k] == '/' && forall i :: 0 <= i < k ==> IsSpace(rest[i]) {
        assert s[k + 1] == '/' && forall i :: 0 <= i < k + 1 ==> IsSpace(s[i]);
      }
      if k :| 0 <= k < |s| && s[k] == '/' && forall i :: 0 <= i < k ==> IsSpace(s[i]) {
        assert k > 0 && rest[k - 1] == '/' && forall i :: 0 <= i < k - 1 ==> IsSpace(rest[i]);
      }
    }
  }

  lemma {:induction false} EndTagIff(html: string)
    ensures BeginsEndTag(html) <==> HasSlash(html)
  {
    if html != "" && html[0] == '<' {
      var s := html[1..];
      SlashAfterSpaces(s);
      if k :| 0 <= k < |s| && s[k] == '/' && forall i :: 0 <= i < k ==> IsSpace(s[i]) {
        assert html[k + 1] == '/' && forall i :: 0 < i < k + 1 ==> IsSpace(html[i]);
      }
      if k :| 0 < k < |html| && html[k] == '/' && forall i :: 0 < i < k ==> IsSpace(html[i]) {
        assert s[k - 1] == '/' && forall i :: 0 <= i < k - 1 ==> IsSpace(s[i]);
      }
    }
  }

  // ---------- names in lower case ----------

  /** A capital becomes its small letter; other characters stay. */
  ghost predicate IsSmallOf(c: char, small: char) {
    || (exists k :: 0 <= k < 26 && c == CAPITALS[k] && small == SMALLS[k])
    || (c !in CAPITALS && small == c)
  }

  lemma {:induction false} LowerIsSmall(name: string)
    ensures |Lower(name)| == |name| && forall i :: 0 <= i < |name| ==> IsSmallOf(name[i], Lower(name)[i])
  {
    LettersInOrder();
    forall i | 0 <= i < |name|
      ensures IsSmallOf(name[i], Lower(name)[i])
    {
      var c := name[i];
      if 'A' <= c <= 'Z' {
        var k := (c - 'A') as nat;
        assert c == CAPITALS[k] && Lower(name)[i] == SMALLS[k];
      }
    }
  }

  // ---------- the token, told of the text alone ----------

  /** The first "-->" of the text ends at n. */
  ghost predicate CommentEndsAt(html: string, n: nat) {
    3 <= n <= |html| && html[n - 3..n] == "-->" && forall k :: 0 <= k < n - 3 ==> !("-->" <= html[k..])
  }

  ghost predicate IsTokenOf(b: Browser, html: string, t: Token)
    requires html != ""
  {
    match t
    case CommentToken(n, text) =>
      && "<!--" <= html && 5 <= n && CommentEndsAt(html, n)
      && text == if n >= 7 then html[4..n - 3] else html[n - 3..4]
    case EndToken(n, name) =>
      && !("<!--" <= html) && HasSlash(html)
      && b.matchEnd(html).Some? && n == b.matchEnd(html).value.length && name == Lower(b.matchEnd(html).value.name)
    case StartToken(n, name, attrs, slash) =>
      && html[0] == '<' && !("<!--" <= html) && !HasSlash(html) && b.matchStart(html).Some?
      && var m := b.matchStart(html).value;
         n == m.length && name == Lower(m.name) && attrs == Attributes(b, m.attrs) && slash == m.slash
    case TextToken(n, text) =>
      && n <= |html| && '<' !in html[..n] && (n < |html| ==> html[n] == '<') && text == b.decode(html[..n])
      && (n == 0 ==> LooseBracket(b, html))
  }

  lemma {:induction false} TextTokenIs(b: Browser, html: string)
    requires html != "" && NextToken(b, html).TextToken?
    ensures IsTokenOf(b, html, NextToken(b, html))
  {
    var n := NextToken(b, html).length;
    TokenIsEmptyIff(b, html);
    var i := IndexOf(html, '<');
    if i.None? {
      assert html[..|html|] == html;
    }
  }

  lemma {:induction false} CommentTokenIs(b: Browser, html: string)
    requires html != "" && NextToken(b, html).CommentToken?
    ensures IsTokenOf(b, html, NextToken(b, html))
  {
    var i := Find(html, "-->").value;
    EndIsNotAtFirst(html, i);
    assert CommentEndsAt(html, i + 3);
  }

  lemma {:induction false} EndIsNotAtFirst(html: string, i: nat)
    requires "<!--" <= html && i + 3 <= |html| && html[i..i + 3] == "-->"
    ensures i >= 2
  {
    assert html[..4] == "<!--" && html[0] == '<' && html[1] == '!';
    assert html[i] == "-->"[0] == '-';
  }

  lemma {:induction false} NextTokenIs(b: Browser, html: string)
    requires html != ""
    ensures IsTokenOf(b, html, NextToken(b, html))
  {
    EndTagIff(html);
    match NextToken(b, html)
    case TextToken(_, _) => TextTokenIs(b, html);
    case CommentToken(_, _) => CommentTokenIs(b, html);
    case EndToken(_, _) =>
    case StartToken(_, _, _, _) =>
  }

  lemma {:induction false} OneEnd(html: string, m: nat, n: nat)
    requires CommentEndsAt(html, m) && CommentEndsAt(html, n)
    ensures m == n
  {
    assert html[m - 3..][..3] == "-->" && html[n - 3..][..3] == "-->";
  }

  lemma {:induction false} KindOfToken(b: Browser, html: string, t: Token)
    requires html != "" && IsTokenOf(b, html, t)
    ensures t.TextToken? <==> html[0] != '<' || LooseBracket(b, html)
    ensures t.CommentToken? <==> "<!--" <= html && !LooseBracket(b, html)
    ensures t.EndToken? <==> !("<!--" <= html) && HasSlash(html) && !LooseBracket(b, html)
  {
    EndTagIff(html);
    match t
    case CommentToken(n, _) =>
      assert html[n - 3..][..3] == "-->";
      assert "<!--"[0] == '<' && html[0] == '<';
    case TextToken(n, _) =>
      if n > 0 {
        assert html[..n][0] == html[0];
      }
    case _ =>
  }

  /** The description fits one token only, so it is what the parser takes. */
  lemma {:induction false} OneToken(b: Browser, html: string, t: Token)
    requires html != ""
    ensures IsTokenOf(b, html, t) <==> t == NextToken(b, html)
  {
    var next := NextToken(b, html);
    NextTokenIs(b, html);
    if IsTokenOf(b, html, t) {
      KindOfToken(b, html, t);
      KindOfToken(b, html, next);
      match t {
        case CommentToken(n, _) => OneEnd(html, n, next.length);
        case _ =>
      }
    }
  }
}
