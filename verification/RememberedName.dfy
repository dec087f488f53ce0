/** The header name that a session remembers is not cleared between mails. This module says exactly
    when the mail of a DATA block depends on what was sent before the block. */
module RememberedName {
  import opened Text
  import opened MailMessages
  import opened SmtpProtocol
  import opened Sessions
  import opened SessionInvariants

  predicate IsHeaderLine(line: string) {
    var end := IndexOf(line, ':');
    end.Some? && end.value > 0 && !WhiteSpacedLineStart(line)
  }

  /** A continuation line comes before the first header line of the block. */
  predicate StartsWithContinuation(block: seq<string>) {
    block != [] && block[0] != "" && !IsHeaderLine(block[0])
    && (WhiteSpacedLineStart(block[0]) || StartsWithContinuation(block[1..]))
  }

  ghost predicate SameButName(s: Session, t: Session) {
    Sound(s) && Sound(t) && s.state == t.state && s.msg == t.msg
  }

  lemma {:induction false} BodyIgnoresName(s: Session, t: Session, block: seq<string>)
    requires SameButName(s, t) && s.state == DataBody && "." !in block
    ensures Run(s, block).msg == Run(t, block).msg
    decreases |block|
  {
    if block != [] {
      BodyLineStep(s, block[0]);
      BodyLineStep(t, block[0]);
      BodyIgnoresName(Step(s, block[0]), Step(t, block[0]), block[1..]);
    }
  }

  lemma {:induction false} HeaderIgnoresName(s: Session, t: Session, block: seq<string>)
    requires SameButName(s, t) && s.state == DataHdr && "." !in block
    requires !StartsWithContinuation(block) || s.lastHeaderName == t.lastHeaderName
    ensures Run(s, block).msg == Run(t, block).msg
    decreases |block|
  {
    if block != [] {
      var s', t' := Step(s, block[0]), Step(t, block[0]);
      if block[0] == "" {
        BodyIgnoresName(s', t', block[1..]);
      } else {
        HeaderLineStep(s, block[0]);
        HeaderLineStep(t, block[0]);
        HeaderIgnoresName(s', t', block[1..]);
      }
    }
  }

  /** t has more values under the name than s, and will keep them. */
  ghost predicate Ahead(s: Session, t: Session, name: string) {
    && Sound(s) && Sound(t) && s.state == t.state && InData(s.state)
    && |Values(s.msg.headers, name)| < |Values(t.msg.headers, name)|
    && (s.state == DataHdr && t.lastHeaderName.Some? ==> t.lastHeaderName.value in t.msg.headers)
    && (s.state == DataHdr ==>
          (s.lastHeaderName == t.lastHeaderName && s.lastHeaderName.Some? && s.lastHeaderName.value in s.msg.headers)
          || (s.lastHeaderName == None && t.lastHeaderName == Some(name)))
  }

  lemma StepKeepsAhead(s: Session, t: Session, name: string, line: string)
    requires Ahead(s, t, name) && line != "."
    ensures Ahead(Step(s, line), Step(t, line), name)
  {
    if s.state == DataBody {
      BodyLineStep(s, line);
      BodyLineStep(t, line);
    } else if line != "" {
      HeaderLineStep(s, line);
      HeaderLineStep(t, line);
      if WhiteSpacedLineStart(line) {
        ExtendingKeepsCounts(s.msg, s.lastHeaderName, StripStartingTab(line), name);
        ExtendingKeepsCounts(t.msg, t.lastHeaderName, StripStartingTab(line), name);
      }
    }
  }

  lemma ExtendingKeepsCounts(m: Message, last: Option<string>, text: string, name: string)
    requires WellFormed(m) && (last.Some? ==> last.value in m.headers)
    ensures last.Some? ==> |Values(WithExtendedHeader(m, last.value, text).headers, name)| == |Values(m.headers, name)|
  {
    if last.Some? {
      ExtendLastMultiset(m.headers[last.value], text);
    }
  }

  lemma {:induction false} RunKeepsAhead(s: Session, t: Session, name: string, block: seq<string>)
    requires Ahead(s, t, name) && "." !in block
    ensures |Values(Run(s, block).msg.headers, name)| < |Values(Run(t, block).msg.headers, name)|
    decreases |block|
  {
    if block != [] {
      StepKeepsAhead(s, t, name, block[0]);
      RunKeepsAhead(Step(s, block[0]), Step(t, block[0]), name, block[1..]);
    }
  }

  lemma {:induction false} ContinuationTellsNamesApart(s: Session, t: Session, name: string, block: seq<string>)
    requires SameButName(s, t) && s.state == DataHdr && "." !in block && StartsWithContinuation(block)
    requires s.msg == EMPTY_MESSAGE && s.lastHeaderName == None && t.lastHeaderName == Some(name)
    ensures Run(s, block).msg != Run(t, block).msg
    decreases |block|
  {
    var s', t' := Step(s, block[0]), Step(t, block[0]);
    if WhiteSpacedLineStart(block[0]) {
      RunKeepsAhead(s', t', name, block[1..]);
    } else {
      ContinuationTellsNamesApart(s', t', name, block[1..]);
    }
  }

  /** A mail is made of its own lines alone, whatever name is remembered, exactly when no continuation
      line comes before its first header line. */
  lemma MailIsItsOwnLines(block: seq<string>)
    requires "." !in block
    ensures (forall a, b :: Assembled(a, block) == Assembled(b, block)) <==> !StartsWithContinuation(block)
  {
    if StartsWithContinuation(block) {
      ContinuationTellsNamesApart(Session(DataHdr, EMPTY_MESSAGE, None, [], []),
                                  Session(DataHdr, EMPTY_MESSAGE, Some("Subject"), [], []), "Subject", block);
      assert Assembled(None, block) != Assembled(Some("Subject"), block);
    } else {
      forall a, b
        ensures Assembled(a, block) == Assembled(b, block)
      {
        HeaderIgnoresName(Session(DataHdr, EMPTY_MESSAGE, a, [], []), Session(DataHdr, EMPTY_MESSAGE, b, [], []),
                          block);
      }
    }
  }
}
