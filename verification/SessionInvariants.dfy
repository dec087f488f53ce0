/** What holds of a session whatever the client sends. */
module SessionInvariants {
  import opened Text
  import opened MailMessages
  import opened SmtpProtocol
  import opened Sessions

  /** The session after the first k lines. */
  ghost function After(lines: seq<string>, k: nat): Session
    requires k <= |lines|
  {
    Run(OPENED, lines[..k])
  }

  /** The action that line k performs. */
  ghost function ActionAt(lines: seq<string>, k: nat): Action
    requires k < |lines|
  {
    CreateRequest(After(lines, k).state, lines[k]).action
  }

  lemma AfterStep(lines: seq<string>, k: nat)
    requires k < |lines|
    ensures var s := After(lines, k);
            After(lines, k + 1) == if s.state == Connect then s else Step(s, lines[k])
  {
    assert lines[..k + 1] == lines[..k] + [lines[k]];
    RunAppend(OPENED, lines[..k], [lines[k]]);
  }

  lemma StateStep(lines: seq<string>, k: nat)
    requires k < |lines|
    ensures var state := After(lines, k).state;
            After(lines, k + 1).state
            == if state == Connect then Connect else Respond(ActionAt(lines, k), state).nextState
  {
    AfterStep(lines, k);
  }

  // ---------- the current message ----------

  /** Outside a DATA block the current message is empty; among the headers its body is. */
  ghost predicate CleanBetweenMails(s: Session) {
    && (!InData(s.state) ==> s.msg == EMPTY_MESSAGE)
    && (s.state == DataHdr ==> s.msg.body == "")
  }

  lemma StepKeepsClean(s: Session, line: string)
    requires Sound(s) && CleanBetweenMails(s)
    ensures CleanBetweenMails(Step(s, line))
  {
  }

  lemma {:induction false} AlwaysClean(lines: seq<string>, k: nat)
    requires k <= |lines|
    ensures CleanBetweenMails(After(lines, k))
  {
    if k > 0 {
      AlwaysClean(lines, k - 1);
      AfterStep(lines, k - 1);
      StepKeepsClean(After(lines, k - 1), lines[k - 1]);
    }
  }

  // ---------- what is handed to the store ----------

  /** Why a step hands a message to the store. */
  datatype Origin = EndOfData | StayedInQuit

  /** The reasons of the steps that deliver something, in order. */
  ghost function Origins(s: Session, lines: seq<string>): seq<Origin>
    requires Sound(s)
    decreases |lines|
  {
    if lines == [] || s.state == Connect then []
    else OriginOf(s, lines[0]) + Origins(Step(s, lines[0]), lines[1..])
  }

  /** The reason of one step, if it delivers. */
  ghost function OriginOf(s: Session, line: string): seq<Origin>
    requires Sound(s)
  {
    if InData(s.state) && line == "." then [EndOfData]
    else if s.state == Quit && Step(s, line).state == Quit then [StayedInQuit]
    else []
  }

  ghost function CountOf(origins: seq<Origin>, o: Origin): nat {
    multiset(origins)[o]
  }

  /** A step delivers when it ends a DATA block, or when it finds the session in QUIT and leaves it
      there; in the second case what it delivers is an empty message. */
  lemma {:induction false} DeliveryOfOneStep(s: Session, line: string)
    requires Sound(s) && CleanBetweenMails(s) && s.state != Connect
    ensures var next := Step(s, line);
            && (|| next.delivered == s.delivered
                || next.delivered == s.delivered + [if s.state == Quit then EMPTY_MESSAGE else s.msg])
            && (next.delivered != s.delivered <==> next.state == Quit)
            && (next.state == Quit <==> (InData(s.state) && line == ".")
                                        || (s.state == Quit && CreateRequest(Quit, line).action
                                              !in {MailFrom, QuitSession, Rset, List}))
  {
  }

  lemma OriginOfOneStep(s: Session, line: string)
    requires Sound(s) && CleanBetweenMails(s) && s.state != Connect
    ensures var (before, after, origin) := (s.delivered, Step(s, line).delivered, OriginOf(s, line));
            && before <= after && |after| == |before| + |origin|
            && (origin == [StayedInQuit] ==> after[|before|] == EMPTY_MESSAGE)
  {
    DeliveryOfOneStep(s, line);
  }

  lemma {:induction false} DeliveriesFrom(s: Session, lines: seq<string>)
    requires Sound(s) && CleanBetweenMails(s)
    ensures var n, end, origins := |s.delivered|, Run(s, lines), Origins(s, lines);
            && s.delivered <= end.delivered
            && |end.delivered| == n + |origins|
            && forall i :: 0 <= i < |origins| && origins[i] == StayedInQuit ==> end.delivered[n + i] == EMPTY_MESSAGE
    decreases |lines|
  {
    if lines != [] && s.state != Connect {
      var next := Step(s, lines[0]);
      StepKeepsClean(s, lines[0]);
      OriginOfOneStep(s, lines[0]);
      DeliveriesFrom(next, lines[1..]);
      DeliveriesInTwo(s.delivered, OriginOf(s, lines[0]), next.delivered,
                      Origins(next, lines[1..]), Run(next, lines[1..]).delivered);
    }
  }

  lemma DeliveriesInTwo(before: seq<Message>, first: seq<Origin>, mid: seq<Message>, rest: seq<Origin>,
                        end: seq<Message>)
    requires before <= mid <= end && |mid| == |before| + |first| <= |before| + 1 && |end| == |mid| + |rest|
    requires first == [StayedInQuit] ==> mid[|before|] == EMPTY_MESSAGE
    requires forall i :: 0 <= i < |rest| && rest[i] == StayedInQuit ==> end[|mid| + i] == EMPTY_MESSAGE
    ensures before <= end && |end| == |before| + |first + rest|
    ensures var origins := first + rest;
            forall i :: 0 <= i < |origins| && origins[i] == StayedInQuit ==> end[|before| + i] == EMPTY_MESSAGE
  {
    var origins := first + rest;
    forall i | 0 <= i < |origins| && origins[i] == StayedInQuit
      ensures end[|before| + i] == EMPTY_MESSAGE
    {
      if i >= |first| {
        assert rest[i - |first|] == StayedInQuit;
        assert |mid| + (i - |first|) == |before| + i;
      }
    }
  }

  lemma {:induction false} DeliveriesFromNone(s: Session, lines: seq<string>)
    requires Sound(s) && CleanBetweenMails(s) && s.delivered == []
    ensures var end, origins := Run(s, lines), Origins(s, lines);
            && |end.delivered| == |origins|
            && |end.delivered| - CountOf(origins, EndOfData) == CountOf(origins, StayedInQuit)
            && forall i :: 0 <= i < |origins| && origins[i] == StayedInQuit ==> end.delivered[i] == EMPTY_MESSAGE
  {
    DeliveriesFrom(s, lines);
    var end, origins := Run(s, lines), Origins(s, lines);
    OriginsAreTwoKinds(origins);
    forall i | 0 <= i < |origins| && origins[i] == StayedInQuit
      ensures end.delivered[i] == EMPTY_MESSAGE
    {
      assert end.delivered[|s.delivered| + i] == EMPTY_MESSAGE;
    }
  }

  lemma {:induction false} OriginsAreTwoKinds(origins: seq<Origin>)
    ensures |origins| == CountOf(origins, EndOfData) + CountOf(origins, StayedInQuit)
  {
    if origins != [] {
      OriginsAreTwoKinds(origins[1..]);
      assert origins == [origins[0]] + origins[1..];
      assert origins[0] == EndOfData || origins[0] == StayedInQuit;
    }
  }

  /** On every input: the messages stored are as many as the end-of-data lines plus the steps that
      stay in QUIT, and each message of the second kind is empty. */
  lemma StoredMinusEndsOfData(lines: seq<string>)
    ensures var end, origins := Run(OPENED, lines), Origins(OPENED, lines);
            && |end.delivered| == |origins|
            && |end.delivered| - CountOf(origins, EndOfData) == CountOf(origins, StayedInQuit)
            && forall i :: 0 <= i < |origins| && origins[i] == StayedInQuit ==> end.delivered[i] == EMPTY_MESSAGE
  {
    DeliveriesFromNone(OPENED, lines);
  }

  // ---------- where a stored message comes from ----------

  /** The states before and after each of a sequence of actions. */
  datatype History = History(states: seq<SmtpState>, actions: seq<Action>) {
    predicate Follows() {
      && |states| == |actions| + 1
      && states[0] == Greet
      && forall k :: 0 <= k < |actions| ==> Follow(states[k], actions[k], states[k + 1])
    }

    predicate GreetedAt(k: nat, g: nat)
      requires k < |states| == |actions| + 1
    {
      && g < k && states[g] == Greet && actions[g] == Ehlo
      && forall j :: g < j <= k ==> states[j] !in {Greet, Connect}
    }

    predicate MailOpenedAt(k: nat, m: nat)
      requires k < |states| == |actions| + 1
    {
      && m < k && states[m] in {Mail, Quit} && actions[m] == MailFrom
      && forall j :: m < j <= k ==> states[j] in {Rcpt, DataHdr, DataBody}
    }

    predicate DataOpenedAt(k: nat, d: nat)
      requires k < |states| == |actions| + 1
    {
      && d < k && states[d] == Rcpt && actions[d] == Data
      && forall j :: d < j <= k ==> InData(states[j])
    }

    predicate OpenedAt(k: nat, g: nat, m: nat, d: nat)
      requires k < |states| == |actions| + 1
    {
      GreetedAt(k, g) && MailOpenedAt(k, m) && DataOpenedAt(k, d)
    }

    lemma {:induction false} GreetedBefore(k: nat) returns (g: nat)
      requires Follows() && k < |states| && states[k] !in {Greet, Connect}
      ensures GreetedAt(k, g)
    {
      if states[k - 1] == Greet {
        g := k - 1;
      } else {
        g := GreetedBefore(k - 1);
      }
    }

    lemma {:induction false} MailOpenedBefore(k: nat) returns (m: nat)
      requires Follows() && k < |states| && states[k] in {Rcpt, DataHdr, DataBody}
      ensures MailOpenedAt(k, m)
    {
      if states[k - 1] in {Mail, Quit} {
        m := k - 1;
      } else {
        m := MailOpenedBefore(k - 1);
      }
    }

    lemma {:induction false} DataOpenedBefore(k: nat) returns (d: nat)
      requires Follows() && k < |states| && InData(states[k])
      ensures DataOpenedAt(k, d)
    {
      if states[k - 1] == Rcpt {
        d := k - 1;
      } else {
        d := DataOpenedBefore(k - 1);
      }
    }

    /** A DATA block is preceded, in this order, by a greeting and by MAIL. */
    lemma OpenedInOrder(k: nat)
      requires Follows() && k < |states| && InData(states[k])
      ensures exists g: nat, m: nat, d: nat :: g < m < d < k && OpenedAt(k, g, m, d)
    {
      var g := GreetedBefore(k);
      var m := MailOpenedBefore(k);
      var d := DataOpenedBefore(k);
      assert g < m < d < k && OpenedAt(k, g, m, d);
    }
  }

  predicate Follow(state: SmtpState, action: Action, next: SmtpState) {
    next == if state == Connect then Connect else Respond(action, state).nextState
  }

  ghost function HistoryOf(lines: seq<string>): (h: History)
    ensures |h.states| == |lines| + 1 == |h.actions| + 1
  {
    History(seq(|lines| + 1, k requires 0 <= k <= |lines| => After(lines, k).state),
            seq(|lines|, k requires 0 <= k < |lines| => ActionAt(lines, k)))
  }

  lemma HistoryFollows(lines: seq<string>)
    ensures HistoryOf(lines).Follows()
  {
    var h := HistoryOf(lines);
    assert h.states[0] == After(lines, 0).state == Greet by {
      assert lines[..0] == [];
    }
    forall k | 0 <= k < |lines|
      ensures Follow(h.states[k], h.actions[k], h.states[k + 1])
    {
      StateStep(lines, k);
    }
  }

  /** The message that the lines of one DATA block make, given the header name remembered before it. */
  ghost function Assembled(remembered: Option<string>, block: seq<string>): Message {
    Run(Session(DataHdr, EMPTY_MESSAGE, remembered, [], []), block).msg
  }

  /** What a session does with the message and the state depends on nothing else. */
  lemma {:induction false} RunIgnoresHistory(s: Session, t: Session, lines: seq<string>)
    requires Sound(s) && Sound(t)
    requires (s.state, s.msg, s.lastHeaderName) == (t.state, t.msg, t.lastHeaderName)
    ensures var (s', t') := (Run(s, lines), Run(t, lines));
            (s'.state, s'.msg, s'.lastHeaderName) == (t'.state, t'.msg, t'.lastHeaderName)
    decreases |lines|
  {
    if lines != [] && s.state != Connect {
      RunIgnoresHistory(Step(s, lines[0]), Step(t, lines[0]), lines[1..]);
    }
  }

  lemma AssembledFromBlock(lines: seq<string>, k: nat, d: nat)
    requires k <= |lines| && d < k && HistoryOf(lines).DataOpenedAt(k, d)
    ensures After(lines, k).msg == Assembled(After(lines, d).lastHeaderName, lines[d + 1..k])
  {
    var start := After(lines, d + 1);
    DataStartsEmpty(lines, d);
    assert lines[..k] == lines[..d + 1] + lines[d + 1..k];
    RunAppend(OPENED, lines[..d + 1], lines[d + 1..k]);
    RunIgnoresHistory(start, Session(DataHdr, EMPTY_MESSAGE, start.lastHeaderName, [], []), lines[d + 1..k]);
  }

  lemma {:induction false} DataStartsEmpty(lines: seq<string>, d: nat)
    requires d < |lines| && After(lines, d).state == Rcpt && ActionAt(lines, d) == Data
    ensures var (s, t) := (After(lines, d), After(lines, d + 1));
            t.state == DataHdr && t.msg == EMPTY_MESSAGE && t.lastHeaderName == s.lastHeaderName
  {
    AfterStep(lines, d);
    AlwaysClean(lines, d);
  }

  /** On every input: when line k stores a message that is not empty, the session was greeted at some
      line g, then a mail was opened at m, then a DATA block at d, and the message is made of the lines
      between d and k alone, apart from the header name remembered at d. */
  lemma NonEmptyMessagesComeFromData(lines: seq<string>, k: nat, stored: Message)
    requires k < |lines| && stored != EMPTY_MESSAGE
    requires After(lines, k + 1).delivered == After(lines, k).delivered + [stored]
    ensures lines[k] == "."
    ensures exists g: nat, m: nat, d: nat :: g < m < d < k && HistoryOf(lines).OpenedAt(k, g, m, d)
              && stored == Assembled(After(lines, d).lastHeaderName, lines[d + 1..k])
  {
    DataEndedAt(lines, k, stored);
    var h := HistoryOf(lines);
    HistoryFollows(lines);
    h.OpenedInOrder(k);
    var g: nat, m: nat, d: nat :| g < m < d < k && h.OpenedAt(k, g, m, d);
    AssembledFromBlock(lines, k, d);
  }

  lemma DataEndedAt(lines: seq<string>, k: nat, stored: Message)
    requires k < |lines| && stored != EMPTY_MESSAGE
    requires After(lines, k + 1).delivered == After(lines, k).delivered + [stored]
    ensures lines[k] == "." && InData(After(lines, k).state) && stored == After(lines, k).msg
  {
    var s := After(lines, k);
    AfterStep(lines, k);
    AlwaysClean(lines, k);
    if s.state != Connect {
      DeliveryOfOneStep(s, lines[k]);
      assert (s.delivered + [stored])[|s.delivered|] == stored;
    }
  }

  // ---------- what the lines of a client must hold ----------

  lemma {:induction false} QuitHasStored(lines: seq<string>, k: nat)
    requires k <= |lines| && After(lines, k).state == Quit
    ensures After(lines, k).delivered != []
  {
    QuitHasJustStored(lines, k - 1);
  }

  lemma {:induction false} QuitHasJustStored(lines: seq<string>, k: nat)
    requires k < |lines| && After(lines, k + 1).state == Quit
    ensures After(lines, k + 1).delivered != []
  {
    var s := After(lines, k);
    AfterStep(lines, k);
    AlwaysClean(lines, k);
    if s.state != Connect {
      QuitDelivers(s, lines[k]);
    }
  }

  lemma {:induction false} QuitDelivers(s: Session, line: string)
    requires Sound(s) && CleanBetweenMails(s) && s.state != Connect && Step(s, line).state == Quit
    ensures Step(s, line).delivered != []
  {
  }

  /** The line that stores the first message ends a DATA block. */
  lemma StoredFirstByDot(lines: seq<string>, k: nat)
    requires k < |lines| && After(lines, k).delivered == [] && After(lines, k + 1).delivered != []
    ensures InData(After(lines, k).state) && lines[k] == "."
  {
    AfterStep(lines, k);
    AlwaysClean(lines, k);
    if After(lines, k).state == Quit {
      QuitHasStored(lines, k);
    }
    DeliveryOfOneStep(After(lines, k), lines[k]);
  }

  lemma {:induction false} FirstStored(lines: seq<string>, k: nat) returns (j: nat)
    requires k <= |lines| && After(lines, k).delivered != []
    ensures j < k && InData(After(lines, j).state) && lines[j] == "."
  {
    if After(lines, k - 1).delivered != [] {
      j := FirstStored(lines, k - 1);
    } else {
      j := k - 1;
      StoredFirstByDot(lines, j);
    }
  }

  /** A greeting, MAIL, DATA and a lone dot, in this order. */
  predicate IsTransaction(lines: seq<string>, g: nat, m: nat, d: nat, k: nat) {
    && g < m < d < k < |lines|
    && CommandOf(lines[g]) == Ehlo && CommandOf(lines[m]) == MailFrom && CommandOf(lines[d]) == Data && lines[k] == "."
  }

  lemma {:induction false} OpenedByCommands(lines: seq<string>, k: nat, g: nat, m: nat, d: nat)
    requires k < |lines| && lines[k] == "." && g < m < d < k && HistoryOf(lines).OpenedAt(k, g, m, d)
    ensures IsTransaction(lines, g, m, d, k)
  {
  }

  lemma TransactionBefore(lines: seq<string>, k: nat)
    requires k < |lines| && InData(After(lines, k).state) && lines[k] == "."
    ensures exists g: nat, m: nat, d: nat :: IsTransaction(lines, g, m, d, k)
  {
    HistoryFollows(lines);
    HistoryOf(lines).OpenedInOrder(k);
    var g: nat, m: nat, d: nat :| g < m < d < k && HistoryOf(lines).OpenedAt(k, g, m, d);
    OpenedByCommands(lines, k, g, m, d);
  }

  /** Nothing is stored for a client whose lines hold no such transaction. */
  lemma NothingStoredWithoutTransaction(lines: seq<string>)
    requires Run(OPENED, lines).delivered != []
    ensures exists g: nat, m: nat, d: nat, k: nat :: IsTransaction(lines, g, m, d, k)
  {
    assert lines[..|lines|] == lines;
    var k := FirstStored(lines, |lines|);
    TransactionBefore(lines, k);
    var g: nat, m: nat, d: nat :| IsTransaction(lines, g, m, d, k);
  }

  /** How many of the lines that the session reads are answered: all but those of a mail before its final dot. */
  function Answered(s: Session, lines: seq<string>): nat
    requires Sound(s)
    decreases |lines|
  {
    if lines == [] || s.state == Connect then 0
    else (if InData(s.state) && lines[0] != "." then 0 else 1) + Answered(Step(s, lines[0]), lines[1..])
  }

  lemma OneReply(s: Session, line: string)
    requires Sound(s) && s.state != Connect
    ensures |Step(s, line).replies| == |s.replies| + if InData(s.state) && line != "." then 0 else 1
  {
    RefusalsAndSilence(CreateRequest(s.state, line).action, s.state);
    DataIsTransparent(s.state, line);
  }

  /** Client and server stay in step: one reply for the banner and one for each of these lines, on every input. */
  lemma {:induction false} OneReplyEach(s: Session, lines: seq<string>)
    requires Sound(s)
    ensures |Run(s, lines).replies| == |s.replies| + Answered(s, lines)
    decreases |lines|
  {
    if lines != [] && s.state != Connect {
      OneReply(s, lines[0]);
      OneReplyEach(Step(s, lines[0]), lines[1..]);
    }
  }
}
