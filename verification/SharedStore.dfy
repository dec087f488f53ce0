/** RollingMailStore shared by concurrent sessions. The list is synchronized, so add, size and remove(0)
    are atomic; addMessage as a whole is not, and other sessions may act between its three steps. */
module SharedStore {
  import opened Text
  import opened MailMessages
  import RollingStore

  /** Where a session stands in addMessage: outside it, after add, or having read a size over 100. */
  datatype Phase = Outside | Added | Overfull

  /** `added` records every message in the order in which it was added. */
  datatype Store = Store(list: seq<Message>, added: seq<Message>, phases: map<nat, Phase>)

  datatype Op = Add(session: nat, message: Message) | ReadSize(session: nat) | RemoveOldest(session: nat)

  /** remove(0) of an empty list throws an IndexOutOfBoundsException. */
  datatype Outcome = Running(store: Store) | IndexOutOfBounds

  predicate Can(s: Store, op: Op) {
    && op.session in s.phases
    && match op
       case Add(_, _) => s.phases[op.session] == Outside
       case ReadSize(_) => s.phases[op.session] == Added
       case RemoveOldest(_) => s.phases[op.session] == Overfull
  }

  function Do(s: Store, op: Op): Outcome
    requires Can(s, op)
  {
    match op
    case Add(t, m) => Running(Store(s.list + [m], s.added + [m], s.phases[t := Added]))
    case ReadSize(t) =>
      Running(s.(phases := s.phases[t := if |s.list| > RollingStore.CAPACITY then Overfull else Outside]))
    case RemoveOldest(t) =>
      if s.list == [] then IndexOutOfBounds
      else Running(Store(s.list[1..], s.added, s.phases[t := Outside]))
  }

  /** Each operation is the next one of its session. */
  predicate Legal(s: Store, ops: seq<Op>)
    decreases |ops|
  {
    ops == []
    || (Can(s, ops[0]) && (Do(s, ops[0]).Running? ==> Legal(Do(s, ops[0]).store, ops[1..])))
  }

  function Execute(s: Store, ops: seq<Op>): Outcome
    requires Legal(s, ops)
    decreases |ops|
  {
    if ops == [] then Running(s)
    else
      var outcome := Do(s, ops[0]);
      if outcome.IndexOutOfBounds? then IndexOutOfBounds else Execute(outcome.store, ops[1..])
  }

  /** The session numbers below n. */
  function Range(n: nat): (r: set<nat>)
    ensures |r| == n && forall t: nat :: t in r <==> t < n
  {
    if n == 0 then {} else Range(n - 1) + {n - 1}
  }

  /** An empty store and so many sessions. */
  function Fresh(sessions: nat): Store {
    Store([], [], map t | t in Range(sessions) :: Outside)
  }

  ghost function InPhase(phases: map<nat, Phase>, p: Phase): set<nat> {
    set t | t in phases && phases[t] == p
  }

  /** How many sessions are inside addMessage. */
  ghost function Inside(phases: map<nat, Phase>): nat {
    |InPhase(phases, Added)| + |InPhase(phases, Overfull)|
  }

  ghost predicate IsSuffix(s: seq<Message>, t: seq<Message>) {
    |s| <= |t| && s == t[|t| - |s|..]
  }

  /** With no more than so many sessions inside addMessage at a time. */
  ghost predicate Invariant(s: Store, most: nat) {
    var overfull := |InPhase(s.phases, Overfull)|;
    && IsSuffix(s.list, s.added)
    && Inside(s.phases) <= most
    && Inside(s.phases) <= |s.list| <= RollingStore.CAPACITY + Inside(s.phases)
    && ((|s.list| == |s.added| && overfull == 0) || |s.list| >= RollingStore.CAPACITY + 1 - most + overfull)
  }

  lemma PhaseGains(phases: map<nat, Phase>, t: nat, p: Phase)
    requires t in phases && phases[t] != p
    ensures |InPhase(phases[t := p], p)| == |InPhase(phases, p)| + 1
  {
    assert InPhase(phases[t := p], p) == InPhase(phases, p) + {t};
  }

  lemma PhaseLoses(phases: map<nat, Phase>, t: nat, p: Phase)
    requires t in phases && phases[t] != p
    ensures |InPhase(phases[t := p], phases[t])| == |InPhase(phases, phases[t])| - 1
  {
    assert InPhase(phases, phases[t]) == InPhase(phases[t := p], phases[t]) + {t};
  }

  lemma PhaseKeeps(phases: map<nat, Phase>, t: nat, p: Phase, q: Phase)
    requires t in phases && q != p && q != phases[t]
    ensures InPhase(phases[t := p], q) == InPhase(phases, q)
  {
  }

  lemma SessionsKept(phases: map<nat, Phase>, t: nat, p: Phase)
    requires t in phases
    ensures |phases[t := p]| == |phases|
  {
    assert phases[t := p].Keys == phases.Keys;
    assert |phases[t := p]| == |phases[t := p].Keys| && |phases| == |phases.Keys|;
  }

  lemma {:induction false} SubsetSize(a: set<nat>, b: set<nat>)
    requires a <= b
    ensures |a| <= |b|
  {
    assert b == a + (b - a);
  }

  lemma AddKeepsInvariant(s: Store, t: nat, m: Message, most: nat)
    requires Invariant(s, most) && Can(s, Op.Add(t, m)) && Inside(s.phases) < most
    ensures Invariant(Do(s, Op.Add(t, m)).store, most)
  {
    PhaseGains(s.phases, t, Added);
    PhaseKeeps(s.phases, t, Added, Overfull);
  }

  lemma ReadKeepsInvariant(s: Store, t: nat, most: nat)
    requires Invariant(s, most) && Can(s, ReadSize(t))
    ensures Invariant(Do(s, ReadSize(t)).store, most)
  {
    if |s.list| > RollingStore.CAPACITY {
      PhaseLoses(s.phases, t, Overfull);
      PhaseGains(s.phases, t, Overfull);
    } else {
      PhaseLoses(s.phases, t, Outside);
      PhaseKeeps(s.phases, t, Outside, Overfull);
    }
  }

  lemma RemoveKeepsInvariant(s: Store, t: nat, most: nat)
    requires Invariant(s, most) && Can(s, RemoveOldest(t))
    ensures s.list != [] && Invariant(Do(s, RemoveOldest(t)).store, most)
  {
    assert t in InPhase(s.phases, Overfull);
    PhaseLoses(s.phases, t, Outside);
    PhaseKeeps(s.phases, t, Outside, Added);
  }

  lemma StepKeepsInvariant(s: Store, op: Op, most: nat)
    requires Invariant(s, most) && Can(s, op) && (op.Add? ==> Inside(s.phases) < most)
    ensures var outcome := Do(s, op);
            outcome.Running? && Invariant(outcome.store, most) && |outcome.store.phases| == |s.phases|
  {
    match op
    case Add(t, m) =>
      AddKeepsInvariant(s, t, m, most);
      SessionsKept(s.phases, t, Added);
    case ReadSize(t) =>
      ReadKeepsInvariant(s, t, most);
      SessionsKept(s.phases, t, if |s.list| > RollingStore.CAPACITY then Overfull else Outside);
    case RemoveOldest(t) =>
      RemoveKeepsInvariant(s, t, most);
      SessionsKept(s.phases, t, Outside);
  }

  /** A session outside addMessage is one less inside. */
  lemma RoomForOneMore(phases: map<nat, Phase>, t: nat)
    requires t in phases && phases[t] == Outside
    ensures Inside(phases) < |phases|
  {
    var inside := InPhase(phases, Added) + InPhase(phases, Overfull);
    assert InPhase(phases, Added) !! InPhase(phases, Overfull);
    SubsetSize(inside + {t}, phases.Keys);
    assert |phases| == |phases.Keys|;
  }

  lemma {:induction false} ExecuteKeepsInvariant(s: Store, ops: seq<Op>)
    requires Invariant(s, |s.phases|) && Legal(s, ops)
    ensures var outcome := Execute(s, ops);
            outcome.Running? && Invariant(outcome.store, |s.phases|) && |outcome.store.phases| == |s.phases|
    decreases |ops|
  {
    if ops != [] {
      if ops[0].Add? {
        RoomForOneMore(s.phases, ops[0].session);
      }
      StepKeepsInvariant(s, ops[0], |s.phases|);
      ExecuteKeepsInvariant(Do(s, ops[0]).store, ops[1..]);
    }
  }

  ghost predicate Quiet(s: Store) {
    forall t :: t in s.phases ==> s.phases[t] == Outside
  }

  lemma NobodyInside(s: Store)
    requires Quiet(s)
    ensures InPhase(s.phases, Added) == {} && InPhase(s.phases, Overfull) == {} && Inside(s.phases) == 0
  {
  }

  lemma FreshStore(sessions: nat)
    ensures var s := Fresh(sessions); |s.phases| == sessions && forall most: nat :: Invariant(s, most)
  {
    var s := Fresh(sessions);
    NobodyInside(s);
    var range := Range(sessions);
    assert s.phases.Keys == range;
    assert |s.phases| == |s.phases.Keys|;
  }

  /** In every interleaving: remove(0) never meets an empty list, the list is a suffix of the order in
      which messages were added, and its size is between the number of sessions inside addMessage and
      100 more than it. */
  lemma SharedStoreIsSound(sessions: nat, ops: seq<Op>)
    requires Legal(Fresh(sessions), ops)
    ensures var outcome := Execute(Fresh(sessions), ops);
            && outcome.Running?
            && IsSuffix(outcome.store.list, outcome.store.added)
            && Inside(outcome.store.phases) <= |outcome.store.list| <= 100 + Inside(outcome.store.phases)
  {
    FreshStore(sessions);
    ExecuteKeepsInvariant(Fresh(sessions), ops);
  }

  lemma QuietInvariant(s: Store, most: nat)
    requires Invariant(s, most) && Quiet(s)
    ensures s.list == LastN(s.added, |s.list|)
    ensures |s.list| <= 100 && (|s.list| == |s.added| || |s.list| >= 101 - most)
  {
    NobodyInside(s);
  }

  /** When no session is inside addMessage, the store holds at most the last 100 messages, and at least
      the last 101 - n of them, n being the number of sessions. */
  lemma QuietStore(sessions: nat, ops: seq<Op>)
    requires sessions > 0 && Legal(Fresh(sessions), ops)
    requires var outcome := Execute(Fresh(sessions), ops); outcome.Running? && Quiet(outcome.store)
    ensures var s := Execute(Fresh(sessions), ops).store;
            && s.list == LastN(s.added, |s.list|)
            && |s.list| <= 100
            && (|s.list| == |s.added| || |s.list| >= 101 - sessions)
  {
    FreshStore(sessions);
    ExecuteKeepsInvariant(Fresh(sessions), ops);
    QuietInvariant(Execute(Fresh(sessions), ops).store, sessions);
  }

  /** One session alone leaves exactly the last hundred messages. */
  lemma SoleSessionKeepsLastHundred(ops: seq<Op>)
    requires Legal(Fresh(1), ops)
    requires var outcome := Execute(Fresh(1), ops); outcome.Running? && Quiet(outcome.store)
    ensures var s := Execute(Fresh(1), ops).store; s.list == LastN(s.added, 100)
  {
    QuietStore(1, ops);
  }

  /** Undisturbed, the steps of one addMessage do what RollingMailStore.AddMessage ensures. */
  lemma {:induction false} UndisturbedAdd(s: Store, session: nat, m: Message)
    requires Quiet(s) && session in s.phases && |s.list| <= 100
    ensures var ops := [Op.Add(session, m), ReadSize(session)]
                       + if |s.list| == 100 then [RemoveOldest(session)] else [];
            Legal(s, ops) && Execute(s, ops) == Running(Store(LastN(s.list + [m], 100), s.added + [m], s.phases))
  {
    var idle := s.phases;
    var added: map<nat, Phase> := idle[session := Added];
    var s1 := Store(s.list + [m], s.added + [m], added);
    assert added[session := Outside] == idle;
    if |s.list| == 100 {
      var overfull: map<nat, Phase> := idle[session := Overfull];
      var s2 := s1.(phases := overfull);
      assert added[session := Overfull] == overfull && overfull[session := Outside] == idle;
      var s3 := Store((s.list + [m])[1..], s.added + [m], idle);
      DoesThree(s, Op.Add(session, m), s1, ReadSize(session), s2, RemoveOldest(session), s3);
      assert [Op.Add(session, m), ReadSize(session)] + [RemoveOldest(session)]
          == [Op.Add(session, m), ReadSize(session), RemoveOldest(session)];
    } else {
      var s2 := s1.(phases := idle);
      DoesTwo(s, Op.Add(session, m), s1, ReadSize(session), s2);
      assert [Op.Add(session, m), ReadSize(session)] + [] == [Op.Add(session, m), ReadSize(session)];
    }
  }

  lemma DoesTwo(s: Store, a: Op, s1: Store, b: Op, s2: Store)
    requires Can(s, a) && Do(s, a) == Running(s1) && Can(s1, b) && Do(s1, b) == Running(s2)
    ensures Legal(s, [a, b]) && Execute(s, [a, b]) == Running(s2)
  {
    assert [a, b][1..] == [b] && [b][1..] == [];
    assert Legal(s1, [b]) && Execute(s1, [b]) == Running(s2);
  }

  lemma DoesThree(s: Store, a: Op, s1: Store, b: Op, s2: Store, c: Op, s3: Store)
    requires Can(s, a) && Do(s, a) == Running(s1) && Can(s1, b) && Do(s1, b) == Running(s2)
    requires Can(s2, c) && Do(s2, c) == Running(s3)
    ensures Legal(s, [a, b, c]) && Execute(s, [a, b, c]) == Running(s3)
  {
    DoesTwo(s1, b, s2, c, s3);
    assert [a, b, c][1..] == [b, c];
  }

  // ---------- the lower bound is reached ----------

  ghost predicate Reaches(s: Store, t: Store) {
    exists ops :: Legal(s, ops) && Execute(s, ops) == Running(t)
  }

  lemma {:induction false} ExecuteAppend(s: Store, a: seq<Op>, b: seq<Op>)
    requires Legal(s, a) && Execute(s, a).Running? && Legal(Execute(s, a).store, b)
    ensures Legal(s, a + b) && Execute(s, a + b) == Execute(Execute(s, a).store, b)
    decreases |a|
  {
    if a == [] {
      assert a + b == b;
    } else {
      assert (a + b)[1..] == a[1..] + b;
      ExecuteAppend(Do(s, a[0]).store, a[1..], b);
    }
  }

  lemma ReachesThenDoes(s: Store, t: Store, op: Op, u: Store)
    requires Reaches(s, t) && Can(t, op) && Do(t, op) == Running(u)
    ensures Reaches(s, u)
  {
    var ops :| Legal(s, ops) && Execute(s, ops) == Running(t);
    assert [op][1..] == [];
    assert Legal(t, [op]);
    assert Execute(t, [op]) == Execute(u, []) == Running(u);
    ExecuteAppend(s, ops, [op]);
    assert Execute(s, ops + [op]) == Running(u);
  }

  /** Sessions below `front` are in one phase, the others in another. */
  function Split(sessions: nat, front: nat, ahead: Phase, behind: Phase): map<nat, Phase> {
    map t | t in Range(sessions) :: if t < front then ahead else behind
  }

  lemma SplitAdvances(sessions: nat, front: nat, ahead: Phase, behind: Phase)
    requires front < sessions
    ensures Split(sessions, front, ahead, behind)[front := ahead] == Split(sessions, front + 1, ahead, behind)
  {
  }

  lemma {:induction false} AddOneByOne(sessions: nat, messages: seq<Message>)
    requires sessions > 0 && |messages| <= 100
    ensures Reaches(Fresh(sessions), Store(messages, messages, Fresh(sessions).phases))
  {
    var idle := Fresh(sessions).phases;
    if messages == [] {
      assert Execute(Fresh(sessions), []) == Running(Fresh(sessions));
    } else {
      var before := messages[..|messages| - 1];
      var m := messages[|messages| - 1];
      AddOneByOne(sessions, before);
      assert before + [m] == messages;
      var adding: map<nat, Phase> := idle[0 := Added];
      var mid := Store(messages, messages, adding);
      ReachesThenDoes(Fresh(sessions), Store(before, before, idle), Add(0, m), mid);
      assert adding[0 := Outside] == idle;
      ReachesThenDoes(Fresh(sessions), mid, ReadSize(0), Store(messages, messages, idle));
    }
  }

  /** The first sessions have each added one message more. */
  ghost predicate SomeAdded(sessions: nat, messages: seq<Message>, front: nat)
    requires front <= sessions <= |messages| == 101
  {
    var sent := messages[..101 - sessions + front];
    Reaches(Fresh(sessions), Store(sent, sent, Split(sessions, front, Added, Outside)))
  }

  lemma {:induction false} AllAdd(sessions: nat, messages: seq<Message>, front: nat)
    requires front <= sessions <= |messages| == 101 && sessions > 0
    ensures SomeAdded(sessions, messages, front)
  {
    if front == 0 {
      AddOneByOne(sessions, messages[..101 - sessions]);
      assert Split(sessions, 0, Added, Outside) == Fresh(sessions).phases;
    } else {
      AllAdd(sessions, messages, front - 1);
      OneMoreAdds(sessions, messages, front - 1);
    }
  }

  lemma {:induction false} OneMoreAdds(sessions: nat, messages: seq<Message>, front: nat)
    requires front < sessions <= |messages| == 101 && SomeAdded(sessions, messages, front)
    ensures SomeAdded(sessions, messages, front + 1)
  {
    NextAdds(sessions, messages[..101 - sessions + front], messages[..101 - sessions + (front + 1)], front);
  }

  lemma {:induction false} NextAdds(sessions: nat, sent: seq<Message>, more: seq<Message>, front: nat)
    requires front < sessions && |more| == |sent| + 1 && more[..|sent|] == sent
    requires Reaches(Fresh(sessions), Store(sent, sent, Split(sessions, front, Added, Outside)))
    ensures Reaches(Fresh(sessions), Store(more, more, Split(sessions, front + 1, Added, Outside)))
  {
    var m := more[|sent|];
    assert more == sent + [m];
    SplitAdvances(sessions, front, Added, Outside);
    ReachesAdd(Fresh(sessions), sent, Split(sessions, front, Added, Outside), front, m);
  }

  lemma ReachesAdd(s: Store, sent: seq<Message>, phases: map<nat, Phase>, session: nat, m: Message)
    requires Reaches(s, Store(sent, sent, phases)) && session in phases && phases[session] == Outside
    ensures Reaches(s, Store(sent + [m], sent + [m], phases[session := Added]))
  {
    ReachesThenDoes(s, Store(sent, sent, phases), Op.Add(session, m),
                    Store(sent + [m], sent + [m], phases[session := Added]));
  }

  lemma {:induction false} AllRead(sessions: nat, messages: seq<Message>, front: nat)
    requires front <= sessions <= |messages| == 101 && sessions > 0
    ensures Reaches(Fresh(sessions), Store(messages, messages, Split(sessions, front, Overfull, Added)))
  {
    if front == 0 {
      AllAdd(sessions, messages, sessions);
      assert messages[..101] == messages;
      assert Split(sessions, sessions, Added, Outside) == Split(sessions, 0, Overfull, Added);
    } else {
      AllRead(sessions, messages, front - 1);
      SplitAdvances(sessions, front - 1, Overfull, Added);
      ReachesThenDoes(Fresh(sessions), Store(messages, messages, Split(sessions, front - 1, Overfull, Added)),
                      ReadSize(front - 1), Store(messages, messages, Split(sessions, front, Overfull, Added)));
    }
  }

  lemma {:induction false} AllRemove(sessions: nat, messages: seq<Message>, front: nat)
    requires front <= sessions <= |messages| == 101 && sessions > 0
    ensures Reaches(Fresh(sessions), Store(messages[front..], messages, Split(sessions, front, Outside, Overfull)))
  {
    if front == 0 {
      AllRead(sessions, messages, sessions);
      assert messages[0..] == messages;
      assert Split(sessions, sessions, Overfull, Added) == Split(sessions, 0, Outside, Overfull);
    } else {
      AllRemove(sessions, messages, front - 1);
      SplitAdvances(sessions, front - 1, Outside, Overfull);
      assert messages[front - 1..][1..] == messages[front..];
      ReachesThenDoes(Fresh(sessions),
                      Store(messages[front - 1..], messages, Split(sessions, front - 1, Outside, Overfull)),
                      RemoveOldest(front - 1),
                      Store(messages[front..], messages, Split(sessions, front, Outside, Overfull)));
    }
  }

  /** The lower bound is reached: n sessions can store 101 messages and leave only the last 101 - n,
      although a store of the last hundred should hold 100. With 101 sessions nothing is left. */
  lemma ConcurrentAddersLoseMessages(sessions: nat, messages: seq<Message>)
    requires 0 < sessions <= 101 == |messages|
    ensures exists s :: Reaches(Fresh(sessions), s) && Quiet(s) && s.added == messages
              && s.list == LastN(messages, 101 - sessions)
  {
    AllRemove(sessions, messages, sessions);
    var s := Store(messages[sessions..], messages, Split(sessions, sessions, Outside, Overfull));
    assert Quiet(s);
  }

  // ---------- how many sessions are safe ----------

  /** t has the same messages as s and at least its sessions; the others are outside addMessage. */
  ghost predicate MoreSessions(s: Store, t: Store) {
    && s.list == t.list && s.added == t.added
    && (forall i :: i in s.phases ==> i in t.phases && t.phases[i] == s.phases[i])
    && (forall i :: i in t.phases && i !in s.phases ==> t.phases[i] == Outside)
  }

  /** What some sessions can do, they can do among more sessions. */
  lemma {:induction false} RunsAmongMore(s: Store, t: Store, ops: seq<Op>)
    requires MoreSessions(s, t) && Legal(s, ops) && Execute(s, ops).Running?
    ensures Legal(t, ops) && Execute(t, ops).Running? && MoreSessions(Execute(s, ops).store, Execute(t, ops).store)
    decreases |ops|
  {
    if ops != [] {
      RunsAmongMore(Do(s, ops[0]).store, Do(t, ops[0]).store, ops[1..]);
    }
  }

  lemma TwoSessionsLose(sessions: nat, messages: seq<Message>) returns (ops: seq<Op>)
    requires sessions >= 2 && |messages| == 101
    ensures Legal(Fresh(sessions), ops) && Execute(Fresh(sessions), ops).Running?
    ensures var s := Execute(Fresh(sessions), ops).store;
            Quiet(s) && s.added == messages && |s.list| == 99
  {
    ConcurrentAddersLoseMessages(2, messages);
    var s :| Reaches(Fresh(2), s) && Quiet(s) && s.added == messages && s.list == LastN(messages, 99);
    ops :| Legal(Fresh(2), ops) && Execute(Fresh(2), ops) == Running(s);
    RunsAmongMore(Fresh(2), Fresh(sessions), ops);
  }

  /** Every run that ends with nobody inside addMessage leaves the last hundred messages. */
  ghost predicate AlwaysKeepsLastHundred(sessions: nat) {
    forall ops :: Legal(Fresh(sessions), ops) ==> KeepsLastHundred(Execute(Fresh(sessions), ops))
  }

  ghost predicate KeepsLastHundred(outcome: Outcome) {
    outcome.Running? && (Quiet(outcome.store) ==> outcome.store.list == LastN(outcome.store.added, 100))
  }

  /** That holds exactly for at most one session. */
  lemma LastHundredIff(sessions: nat)
    ensures AlwaysKeepsLastHundred(sessions) <==> sessions <= 1
  {
    if sessions >= 2 {
      var ops := TwoSessionsLose(sessions, seq(101, _ => EMPTY_MESSAGE));
      assert !KeepsLastHundred(Execute(Fresh(sessions), ops));
    } else {
      forall ops | Legal(Fresh(sessions), ops)
        ensures KeepsLastHundred(Execute(Fresh(sessions), ops))
      {
        SharedStoreIsSound(sessions, ops);
        if sessions == 1 && Quiet(Execute(Fresh(sessions), ops).store) {
          SoleSessionKeepsLastHundred(ops);
        } else if sessions == 0 {
          assert ops == [];
        }
      }
    }
  }
}
