/** One client connection: the session loop, and the function from lines to states that specifies it. */
module Sessions {
  import opened Text
  import opened MailMessages
  import opened SmtpProtocol
  import opened RollingStore

  /** What a session has done so far. `delivered` lists the messages handed to the store, in order,
      and `replies` the reply codes sent to the client. */
  datatype Session = Session(
    state: SmtpState,
    msg: Message,
    lastHeaderName: Option<string>,
    delivered: seq<Message>,
    replies: seq<int>)

  /** The session once the banner has been sent. */
  const OPENED := Session(Greet, EMPTY_MESSAGE, None, [], [220])

  predicate WhiteSpacedLineStart(s: string) {
    s != [] && s[0] in {' ', 0x0b as char, '\n', '\r', '\t', 0x0c as char}
  }

  function StripStartingTab(s: string): string
    requires s != []
  {
    if s[0] == '\t' then s[1..] else s
  }

  /** How a header line changes the message and the name that continuation lines refer to. */
  function AddDataHeader(msg: Message, last: Option<string>, params: string): (Message, Option<string>)
    requires WellFormed(msg)
  {
    var headerNameEnd := IndexOf(params, ':');
    if headerNameEnd.Some? && headerNameEnd.value > 0 && !WhiteSpacedLineStart(params) then
      var name := Trim(params[..headerNameEnd.value]);
      (WithHeader(msg, name, Trim(params[headerNameEnd.value + 1..])), Some(name))
    else if WhiteSpacedLineStart(params) && last.Some? then
      (WithExtendedHeader(msg, last.value, StripStartingTab(params)), last)
    else
      (msg, last)
  }

  /** A line that begins with a tab adds what follows the tab to the last value of the remembered name. */
  lemma {:induction false} TabIsDropped(m: Message, name: string, others: seq<string>, value: string, text: string)
    requires WellFormed(m) && name in m.headers && m.headers[name] == others + [value]
    ensures var (after, last) := AddDataHeader(m, Some(name), "\t" + text);
            && last == Some(name) && after.body == m.body && after.headers.Keys == m.headers.Keys
            && (forall n :: n in m.headers && n != name ==> after.headers[n] == m.headers[n])
            && Replaces(others, value, value + text, after.headers[name])
  {
    assert ("\t" + text)[1..] == text;
    LastIsExtended(others, value, text);
  }

  /** A line that begins with any other white space is added whole. */
  lemma {:induction false} BlankIsKept(m: Message, name: string, others: seq<string>, value: string,
                                       blank: char, text: string)
    requires WellFormed(m) && name in m.headers && m.headers[name] == others + [value]
    requires blank in {' ', '\n', '\r', '\U{000b}', '\U{000c}'}
    ensures var (after, last) := AddDataHeader(m, Some(name), [blank] + text);
            && last == Some(name) && after.body == m.body && after.headers.Keys == m.headers.Keys
            && (forall n :: n in m.headers && n != name ==> after.headers[n] == m.headers[n])
            && Replaces(others, value, value + ([blank] + text), after.headers[name])
  {
    LastIsExtended(others, value, [blank] + text);
  }

  /** No other character begins a continuation: without a colon such a line changes nothing. */
  lemma {:induction false} OthersAddNothing(m: Message, last: Option<string>, line: string)
    requires WellFormed(m) && ':' !in line
    requires line != "" ==> line[0] !in {'\t', ' ', '\n', '\r', '\U{000b}', '\U{000c}'}
    ensures AddDataHeader(m, last, line) == (m, last)
  {
  }

  /** The values are the old ones with one replaced, which now stands last. */
  ghost predicate Replaces(others: seq<string>, value: string, extended: string, values: seq<string>) {
    && values != [] && values[|values| - 1] == extended
    && multiset(values) == multiset(others) + multiset{extended}
    && (value !in others ==> values == others + [extended])
  }

  lemma {:induction false} LastIsExtended(others: seq<string>, value: string, text: string)
    ensures Replaces(others, value, value + text, ExtendLast(others + [value], text))
  {
    var values := others + [value];
    ExtendLastMultiset(values, text);
    RemoveFirstMultiset(values, value);
    if value !in others {
      RemoveLast(others, value);
    }
  }

  lemma {:induction false} RemoveLast(others: seq<string>, value: string)
    requires value !in others
    ensures RemoveFirst(others + [value], value) == others
  {
    if others != [] {
      assert (others + [value])[1..] == others[1..] + [value];
      RemoveLast(others[1..], value);
      assert others == [others[0]] + others[1..];
    }
  }

  function StoreInput(msg: Message, last: Option<string>, params: Option<string>, next: SmtpState)
    : (Message, Option<string>)
    requires WellFormed(msg)
  {
    if params.None? then (msg, last)
    else if next == DataHdr then AddDataHeader(msg, last, params.value)
    else if next == DataBody then (WithBodyText(msg, params.value), last)
    else (msg, last)
  }

  ghost predicate Sound(s: Session) {
    WellFormed(s.msg)
  }

  function WithReply(replies: seq<int>, code: int): seq<int> {
    if code > 0 then replies + [code] else replies
  }

  function Step(s: Session, line: string): (s': Session)
    requires Sound(s)
    ensures Sound(s')
  {
    var request := CreateRequest(s.state, line);
    var response := Respond(request.action, s.state);
    var (msg, last) := StoreInput(s.msg, s.lastHeaderName, request.params, response.nextState);
    var replies := WithReply(s.replies, response.code);
    if response.nextState == Quit then Session(Quit, EMPTY_MESSAGE, last, s.delivered + [msg], replies)
    else Session(response.nextState, msg, last, s.delivered, replies)
  }

  /** The whole loop: it stops at the end of the input or when the connection is closed. */
  function Run(s: Session, lines: seq<string>): (s': Session)
    requires Sound(s)
    ensures Sound(s')
    decreases |lines|
  {
    if lines == [] || s.state == Connect then s else Run(Step(s, lines[0]), lines[1..])
  }

  lemma {:induction false} RunAppend(s: Session, a: seq<string>, b: seq<string>)
    requires Sound(s)
    ensures Run(s, a + b) == Run(Run(s, a), b)
    decreases |a|
  {
    if a == [] {
      assert a + b == b;
    } else if s.state != Connect {
      assert (a + b)[1..] == a[1..] + b;
      RunAppend(Step(s, a[0]), a[1..], b);
    }
  }

  lemma RunOne(s: Session, line: string)
    requires Sound(s) && s.state != Connect
    ensures Run(s, [line]) == Step(s, line)
  {
    assert Run(Step(s, line), [line][1..]) == Step(s, line);
  }

  lemma RunThrough(s: Session, a: seq<string>, mid: Session, b: seq<string>, end: Session)
    requires Sound(s) && Run(s, a) == mid && Sound(mid) && Run(mid, b) == end
    ensures Run(s, a + b) == end
  {
    RunAppend(s, a, b);
  }

  /** A line of the header block that is neither empty nor the final dot. */
  lemma HeaderLineStep(s: Session, line: string)
    requires Sound(s) && s.state == DataHdr && line != "" && line != "."
    ensures var (msg, last) := AddDataHeader(s.msg, s.lastHeaderName, line);
            Step(s, line) == s.(msg := msg, lastHeaderName := last)
  {
  }

  /** A body line other than the final dot. */
  lemma {:induction false} BodyLineStep(s: Session, line: string)
    requires Sound(s) && s.state == DataBody && line != "."
    ensures Step(s, line) ==
              s.(msg := WithBodyText(s.msg, if line == "" then "\n"
                                            else if StartsWith(line, ".") then line[1..]
                                            else line))
  {
  }

  class ClientSession {
    const mailStore: RollingMailStore
    var msg: MailMessageImpl
    var smtpResponse: Response
    var smtpState: SmtpState
    var line: Option<string>
    var lastHeaderName: Option<string>
    var input: seq<string>  // the lines that the client has still to send
    var output: seq<int>    // the reply codes sent so far
    ghost var delivered: seq<Message>

    ghost predicate Valid()
      reads this, msg, mailStore
    {
      && msg !in mailStore.receivedMail
      && WellFormed(msg.Contents())
      && |mailStore.receivedMail| <= CAPACITY
    }

    ghost function Abstract(): Session
      reads this, msg
    {
      Session(smtpState, msg.Contents(), lastHeaderName, delivered, output)
    }

    constructor (lines: seq<string>, mailStore: RollingMailStore)
      requires |mailStore.receivedMail| <= CAPACITY
      ensures Valid() && fresh(msg) && this.mailStore == mailStore && input == lines
      ensures smtpResponse == SERVICE_READY && lastHeaderName == None && output == [] && delivered == []
      ensures msg.Contents() == EMPTY_MESSAGE
    {
      this.mailStore := mailStore;
      msg := new MailMessageImpl();
      smtpResponse := SERVICE_READY;
      smtpState := Connect;
      line := None;
      lastHeaderName := None;
      input := lines;
      output := [];
      delivered := [];
    }

    /** Serves the whole connection. The messages of other sessions that the store already holds are
        not touched: the frame lets the session change its own current message only. */
    method Serve()
      requires Valid() && smtpResponse == SERVICE_READY && lastHeaderName == None
      requires output == [] && delivered == [] && msg.Contents() == EMPTY_MESSAGE
      modifies this, msg, mailStore
      ensures Valid()
      ensures Abstract() == Run(OPENED, old(input))
      ensures mailStore.Contents() == LastN(old(mailStore.Contents()) + delivered, CAPACITY)
    {
      SendResponse();
      UpdateSmtpState();
      assert output == [220];
      assert Abstract() == OPENED;
      SessionLoop();
      assert delivered[0..] == delivered;
    }

    method SendResponse()
      modifies this`output
      ensures output == WithReply(old(output), smtpResponse.code)
    {
      if smtpResponse.code > 0 {
        output := output + [smtpResponse.code];
      }
    }

    method UpdateSmtpState()
      modifies this`smtpState
      ensures smtpState == smtpResponse.nextState
    {
      smtpState := smtpResponse.nextState;
    }

    method ReadNextLineReady() returns (ready: bool)
      modifies this`line, this`input
      ensures ready <==> old(input) != []
      ensures !ready ==> input == old(input)
      ensures ready ==> line == Some(old(input)[0]) && input == old(input)[1..]
    {
      if input == [] {
        line := None;
      } else {
        line := Some(input[0]);
        input := input[1..];
      }
      ready := line != None;
    }

    method AddHeaderLine(params: string)
      requires WellFormed(msg.Contents())
      modifies this`lastHeaderName, msg
      ensures (msg.Contents(), lastHeaderName) == AddDataHeader(old(msg.Contents()), old(lastHeaderName), params)
    {
      var headerNameEnd := IndexOf(params, ':');
      if headerNameEnd.Some? && headerNameEnd.value > 0 && !WhiteSpacedLineStart(params) {
        var name := Trim(params[..headerNameEnd.value]);
        lastHeaderName := Some(name);
        var value := Trim(params[headerNameEnd.value + 1..]);
        msg.AddHeader(name, value);
      } else if WhiteSpacedLineStart(params) && lastHeaderName.Some? {
        msg.AppendHeader(lastHeaderName.value, StripStartingTab(params));
      }
    }

    method StoreInputInMessage(request: Request)
      requires WellFormed(msg.Contents())
      modifies this`lastHeaderName, msg
      ensures (msg.Contents(), lastHeaderName)
           == StoreInput(old(msg.Contents()), old(lastHeaderName), request.params, smtpResponse.nextState)
    {
      if request.params.None? {
        return;
      }
      if smtpResponse.nextState == DataHdr {
        AddHeaderLine(request.params.value);
        return;
      }
      if smtpResponse.nextState == DataBody {
        msg.AppendBody(request.params.value);
        return;
      }
    }

    method SaveAndRefreshMessageIfComplete()
      requires Valid()
      modifies this`msg, this`delivered, mailStore
      ensures Valid()
      ensures msg == old(msg) || fresh(msg)
      ensures smtpState != Quit ==> msg == old(msg) && delivered == old(delivered)
                                    && mailStore.receivedMail == old(mailStore.receivedMail)
                                    && mailStore.Contents() == old(mailStore.Contents())
      ensures smtpState == Quit ==> msg.Contents() == EMPTY_MESSAGE && delivered == old(delivered + [msg.Contents()])
                                    && mailStore.Contents()
                                       == LastN(old(mailStore.Contents() + [msg.Contents()]), CAPACITY)
    {
      if smtpState == Quit {
        mailStore.AddMessage(msg);
        delivered := delivered + [msg.Contents()];
        msg := new MailMessageImpl();
      }
    }

    method HandleLine(text: string)
      requires Valid()
      modifies this`smtpResponse, this`smtpState, this`lastHeaderName, this`output, this`msg, this`delivered
      modifies msg, mailStore
      ensures Valid() && (msg == old(msg) || fresh(msg))
      ensures Abstract() == Step(old(Abstract()), text)
      ensures old(delivered) <= delivered
      ensures mailStore.Contents() == LastN(old(mailStore.Contents()) + delivered[|old(delivered)|..], CAPACITY)
    {
      var request := CreateRequest(smtpState, text);
      smtpResponse := Respond(request.action, smtpState);
      StoreInputInMessage(request);
      assert mailStore.Contents() == old(mailStore.Contents());
      UpdatesKeepSound(old(Abstract()), text);
      SendResponse();
      UpdateSmtpState();
      SaveAndRefreshMessageIfComplete();
    }

    method SessionLoop()
      requires Valid()
      modifies this, msg, mailStore
      ensures Valid()
      ensures Abstract() == Run(old(Abstract()), old(input))
      ensures old(delivered) <= delivered
      ensures mailStore.Contents() == LastN(old(mailStore.Contents()) + delivered[|old(delivered)|..], CAPACITY)
    {
      while smtpState != Connect
        invariant Valid() && (msg == old(msg) || fresh(msg))
        invariant Run(Abstract(), input) == Run(old(Abstract()), old(input))
        invariant old(delivered) <= delivered
        invariant mailStore.Contents() == LastN(old(mailStore.Contents()) + delivered[|old(delivered)|..], CAPACITY)
        decreases |input|
      {
        ghost var before := delivered;
        var ready := ReadNextLineReady();
        if !ready {
          break;
        }
        HandleLine(line.value);
        StoredInTwoParts(old(mailStore.Contents()), before, delivered, |old(delivered)|);
      }
    }
  }

  lemma StoredInTwoParts(stored: seq<Message>, before: seq<Message>, after: seq<Message>, from: nat)
    requires from <= |before| && before <= after
    ensures LastN(LastN(stored + before[from..], CAPACITY) + after[|before|..], CAPACITY)
         == LastN(stored + after[from..], CAPACITY)
  {
    assert stored + before[from..] + after[|before|..] == stored + after[from..];
  }

  lemma UpdatesKeepSound(s: Session, line: string)
    requires Sound(s)
    ensures var request := CreateRequest(s.state, line);
            var next := Respond(request.action, s.state).nextState;
            WellFormed(StoreInput(s.msg, s.lastHeaderName, request.params, next).0)
  {
  }
}
