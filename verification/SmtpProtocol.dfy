/** The seven-state command protocol: what a line means in a state, and where each action leads. */
module SmtpProtocol {
  import opened Text

  datatype SmtpState = Connect | Greet | Mail | Rcpt | DataHdr | DataBody | Quit

  datatype Action =
    | Ehlo | MailFrom | RcptTo | Data | QuitSession
    | Rset | NoOp | Expn | Vrfy | Help | List
    | BlankLine | DataEnd | Unrecognized

  /** A reply code, not positive when nothing is sent, and the state that follows. */
  datatype Response = Response(code: int, nextState: SmtpState)

  datatype Request = Request(action: Action, state: SmtpState, params: Option<string>)

  const SERVICE_READY := Response(220, Greet)

  predicate InData(state: SmtpState) {
    state == DataHdr || state == DataBody
  }

  function Respond(action: Action, state: SmtpState): Response {
    match action
    case Ehlo => if state == Greet then Response(250, Mail) else Response(503, state)
    case MailFrom => if state == Mail || state == Quit then Response(250, Rcpt) else Response(503, state)
    case RcptTo => if state == Rcpt then Response(250, state) else Response(503, state)
    case Data => if state == Rcpt then Response(354, DataHdr) else Response(503, state)
    case QuitSession => Response(221, Connect)
    case Rset => Response(250, Greet)
    case NoOp => Response(250, state)
    case Expn => Response(252, state)
    case Vrfy => Response(252, state)
    case Help => Response(211, state)
    case List => Response(250, Greet)
    case BlankLine =>
      if state == DataHdr then Response(-1, DataBody)
      else if state == DataBody then Response(-1, state)
      else Response(503, state)
    case DataEnd => if InData(state) then Response(250, Quit) else Response(503, state)
    case Unrecognized => if InData(state) then Response(-1, state) else Response(500, state)
  }

  function Upper(c: char): char {
    if 'a' <= c <= 'z' then c - 'a' + 'A' else c
  }

  function ToUpperCase(s: string): (r: string)
    ensures |r| == |s|
  {
    seq(|s|, i requires 0 <= i < |s| => Upper(s[i]))
  }

  function CreateRequest(state: SmtpState, line: string): Request {
    if state == DataHdr then BuildDataHeaderRequest(line)
    else if state == DataBody then BuildDataBodyRequest(line)
    else BuildCommandRequest(state, line)
  }

  function BuildDataHeaderRequest(line: string): Request {
    if line == "." then Request(DataEnd, DataHdr, None)
    else if |line| < 1 then Request(BlankLine, DataHdr, None)
    else Request(Unrecognized, DataHdr, Some(line))
  }

  function BuildDataBodyRequest(line: string): Request {
    if line == "." then Request(DataEnd, DataBody, None)
    else if |line| < 1 then Request(Unrecognized, DataBody, Some("\n"))
    else Request(Unrecognized, DataBody, Some(if StartsWith(line, ".") then line[1..] else line))
  }

  function BuildCommandRequest(state: SmtpState, line: string): Request {
    var action := CommandIn(ToUpperCase(line));
    Request(action, state,
            if action == Ehlo || action == List then ExtractParams(line)
            else if action == MailFrom then Some(line[10..])
            else if action == RcptTo then Some(line[8..])
            else None)
  }

  /** The command that a line in upper case begins with. */
  function CommandIn(su: string): (action: Action)
    ensures action == MailFrom ==> |su| >= 10
    ensures action == RcptTo ==> |su| >= 8
    ensures action !in {DataEnd, BlankLine}
  {
    if StartsWith(su, "EHLO ") || StartsWith(su, "HELO") then Ehlo
    else if StartsWith(su, "MAIL FROM:") then MailFrom
    else if StartsWith(su, "RCPT TO:") then RcptTo
    else if StartsWith(su, "DATA") then Data
    else if StartsWith(su, "QUIT") then QuitSession
    else if StartsWith(su, "RSET") then Rset
    else if StartsWith(su, "NOOP") then NoOp
    else if StartsWith(su, "EXPN") then Expn
    else if StartsWith(su, "VRFY") then Vrfy
    else if StartsWith(su, "HELP") then Help
    else if StartsWith(su, "LIST") then List
    else Unrecognized
  }

  /** Everything from the sixth character on; no parameters when the line is shorter than five. */
  function ExtractParams(line: string): Option<string> {
    if |line| < 5 then None else Some(line[5..])
  }

  // ---------- what the tables amount to ----------

  /** A refused command leaves the state as it is; nothing is sent for the lines of a mail, and only for them. */
  lemma RefusalsAndSilence(action: Action, state: SmtpState)
    ensures Respond(action, state).code >= 500 ==> Respond(action, state).nextState == state
    ensures Respond(action, state).code <= 0 <==> InData(state) && action in {BlankLine, Unrecognized}
  {
  }

  /** Inside a DATA block no line is a command: the dot alone ends the block. Outside, no line does. */
  lemma DataIsTransparent(state: SmtpState, line: string)
    ensures var action := CreateRequest(state, line).action;
            if InData(state) then action in {DataEnd, BlankLine, Unrecognized} && (action == DataEnd <==> line == ".")
            else action !in {DataEnd, BlankLine}
  {
  }

  /** The command that a line is, outside a DATA block. */
  function CommandOf(line: string): Action {
    BuildCommandRequest(Greet, line).action
  }

  /** The order in which the prefixes are tried does not matter: each command has its own. */
  lemma CommandByPrefix(state: SmtpState, line: string)
    ensures var su, action := ToUpperCase(line), BuildCommandRequest(state, line).action;
            && (action == Ehlo <==> StartsWith(su, "EHLO ") || StartsWith(su, "HELO"))
            && (action == MailFrom <==> StartsWith(su, "MAIL FROM:"))
            && (action == RcptTo <==> StartsWith(su, "RCPT TO:"))
            && (action == Data <==> StartsWith(su, "DATA"))
            && (action == QuitSession <==> StartsWith(su, "QUIT"))
            && (action == Rset <==> StartsWith(su, "RSET"))
            && (action == NoOp <==> StartsWith(su, "NOOP"))
            && (action == Expn <==> StartsWith(su, "EXPN"))
            && (action == Vrfy <==> StartsWith(su, "VRFY"))
            && (action == Help <==> StartsWith(su, "HELP"))
            && (action == List <==> StartsWith(su, "LIST"))
  {
    var su := ToUpperCase(line);
    FirstFour(su, "EHLO ", 'E', 'H', 'L', 'O');
    FirstFour(su, "HELO", 'H', 'E', 'L', 'O');
    FirstFour(su, "MAIL FROM:", 'M', 'A', 'I', 'L');
    FirstFour(su, "RCPT TO:", 'R', 'C', 'P', 'T');
    FirstFour(su, "DATA", 'D', 'A', 'T', 'A');
    FirstFour(su, "QUIT", 'Q', 'U', 'I', 'T');
    FirstFour(su, "RSET", 'R', 'S', 'E', 'T');
    FirstFour(su, "NOOP", 'N', 'O', 'O', 'P');
    FirstFour(su, "EXPN", 'E', 'X', 'P', 'N');
    FirstFour(su, "VRFY", 'V', 'R', 'F', 'Y');
    FirstFour(su, "HELP", 'H', 'E', 'L', 'P');
    FirstFour(su, "LIST", 'L', 'I', 'S', 'T');
  }

  lemma FirstFour(su: string, prefix: string, a: char, b: char, c: char, d: char)
    requires |prefix| >= 4 && prefix[0] == a && prefix[1] == b && prefix[2] == c && prefix[3] == d
    ensures StartsWith(su, prefix) ==> |su| >= 4 && su[0] == a && su[1] == b && su[2] == c && su[3] == d
  {
  }

  /** The same letter, or the same other character. */
  ghost predicate SameLetter(a: char, b: char) {
    a == b || exists k :: 0 <= k < 26 && a in {CAPITALS[k], SMALLS[k]} && b in {CAPITALS[k], SMALLS[k]}
  }

  ghost predicate SameButCase(a: string, b: string) {
    |a| == |b| && forall i :: 0 <= i < |a| ==> SameLetter(a[i], b[i])
  }

  lemma {:induction false} UpperTellsLetters(a: char, b: char)
    ensures Upper(a) == Upper(b) <==> SameLetter(a, b)
  {
    LettersInOrder();
    if Upper(a) == Upper(b) && 'A' <= Upper(a) <= 'Z' {
      var k := (Upper(a) - 'A') as nat;
      assert a in {CAPITALS[k], SMALLS[k]} && b in {CAPITALS[k], SMALLS[k]};
    }
  }

  /** Upper case keeps the letters and capitals as they are, and takes away nothing but their case. */
  lemma {:induction false} SameUpperIff(a: string, b: string)
    ensures ToUpperCase(a) == ToUpperCase(b) <==> SameButCase(a, b)
    ensures (forall i :: 0 <= i < |a| ==> a[i] !in SMALLS) ==> ToUpperCase(a) == a
  {
    LettersInOrder();
    if ToUpperCase(a) == ToUpperCase(b) {
      forall i | 0 <= i < |a|
        ensures SameLetter(a[i], b[i])
      {
        assert ToUpperCase(a)[i] == ToUpperCase(b)[i];
        UpperTellsLetters(a[i], b[i]);
      }
    } else if |a| == |b| {
      var i :| 0 <= i < |a| && ToUpperCase(a)[i] != ToUpperCase(b)[i];
      UpperTellsLetters(a[i], b[i]);
    }
    forall i | 0 <= i < |a|
      ensures a[i] !in SMALLS ==> ToUpperCase(a)[i] == a[i]
    {
      if 'a' <= a[i] <= 'z' {
        assert SMALLS[(a[i] - 'a') as nat] == a[i];
      }
    }
  }

  /** Commands are recognized whatever their case. */
  lemma {:induction false} CommandsIgnoreCase(state: SmtpState, line: string, other: string)
    requires SameButCase(line, other)
    ensures CreateRequest(state, line).action == CreateRequest(state, other).action || InData(state)
  {
    SameUpperIff(line, other);
  }

  lemma {:induction false} UpperOfMore(command: string, rest: string)
    requires ToUpperCase(command) == command
    ensures command <= ToUpperCase(command + rest)
  {
    assert forall i :: 0 <= i < |command| ==> ToUpperCase(command + rest)[i] == ToUpperCase(command)[i];
  }

  /** What follows a command is its parameter: after the colon, or after the blank; the other commands have none. */
  lemma {:induction false} CommandParams(state: SmtpState, line: string, command: string, rest: string)
    requires !InData(state) && SameButCase(line, command + rest)
    requires command in {"EHLO ", "MAIL FROM:", "RCPT TO:", "DATA", "QUIT", "RSET", "NOOP", "EXPN", "VRFY", "HELP"}
    ensures CreateRequest(state, line).params ==
              if command in {"EHLO ", "MAIL FROM:", "RCPT TO:"} then Some(line[|command|..]) else None
  {
    SameUpperIff(line, command + rest);
    CapitalsStay();
    UpperOfMore(command, rest);
    CommandByPrefix(state, line);
  }

  lemma {:induction false} CapitalsStay()
    ensures forall c :: c in {"EHLO ", "MAIL FROM:", "RCPT TO:", "DATA", "QUIT", "RSET", "NOOP", "EXPN", "VRFY", "HELP"}
              ==> ToUpperCase(c) == c
  {
    assert ToUpperCase("EHLO ") == "EHLO " && ToUpperCase("MAIL FROM:") == "MAIL FROM:";
    assert ToUpperCase("RCPT TO:") == "RCPT TO:" && ToUpperCase("DATA") == "DATA" && ToUpperCase("QUIT") == "QUIT";
    assert ToUpperCase("RSET") == "RSET" && ToUpperCase("NOOP") == "NOOP" && ToUpperCase("EXPN") == "EXPN";
    assert ToUpperCase("VRFY") == "VRFY" && ToUpperCase("HELP") == "HELP";
  }

  /** What each reply code tells, whatever led to it: an unknown command, one out of sequence, the end of the
      connection, the beginning of a DATA block, a help text, something that cannot be verified, or success. */
  lemma {:induction false} CodeTells(action: Action, state: SmtpState)
    ensures var code := Respond(action, state).code;
            && (code == 500 <==> action == Unrecognized && !InData(state))
            && (code == 503 <==> OutOfSequence(action, state))
            && (code == 221 <==> action == QuitSession)
            && (code == 354 <==> action == Data && state == Rcpt)
            && (code == 211 <==> action == Help)
            && (code == 252 <==> action == Expn || action == Vrfy)
            && (code <= 0 || code in {500, 503, 221, 354, 211, 252, 250})
  {
  }

  /** The command belongs to another point of the conversation. */
  predicate OutOfSequence(action: Action, state: SmtpState) {
    || (action == Ehlo && state != Greet)
    || (action == MailFrom && state !in {SmtpState.Mail, Quit})
    || (action in {RcptTo, Data} && state != Rcpt)
    || (action in {BlankLine, DataEnd} && !InData(state))
  }

  /** Where a command that is accepted leads. */
  lemma {:induction false} AcceptedLeadsTo(action: Action, state: SmtpState)
    requires Respond(action, state).code < 500
    ensures var next := Respond(action, state).nextState;
            && (action == Ehlo ==> next == SmtpState.Mail) && (action in {MailFrom, RcptTo} ==> next == Rcpt)
            && (action == Data ==> next == DataHdr) && (action == BlankLine ==> next == DataBody)
            && (action == DataEnd ==> next == Quit) && (action == QuitSession ==> next == Connect)
            && (action in {Rset, List} ==> next == Greet)
            && (action in {NoOp, Expn, Vrfy, Help, Unrecognized} ==> next == state)
  {
  }
}
