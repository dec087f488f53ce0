/** Many clients at once: a pool of threads runs their sessions, which read lines and add to one store in any
    interleaving of atomic steps. */
module ConcurrentDelivery {
  import opened Text
  import opened MailMessages
  import opened SmtpProtocol
  import opened Sessions
  import opened MailDelivery
  import opened SharedStore

  const MAX_THREADS := 10

  function PoolSize(threaded: bool): nat {
    if threaded then MAX_THREADS else 1
  }

  /** The sessions in the order of their connections: so many have been started, on no more than so many threads;
      the lines that each has yet to read; the store, and who added each of its messages. */
  datatype System = System(threads: nat, started: nat, sessions: seq<Session>, unread: seq<seq<string>>,
                           store: Store, authors: seq<nat>)
  {
    predicate Has(t: nat) {
      t < |sessions| == |unread| && t in store.phases
    }

    predicate HasEnded(t: nat)
      requires Has(t)
    {
      store.phases[t] == Outside && (unread[t] == [] || sessions[t].state == Connect)
    }

    ghost function Active(): set<nat> {
      set t: nat | t < started && Has(t) && !HasEnded(t)
    }
  }

  function Opened(threads: nat, inputs: seq<seq<string>>): System {
    System(threads, 0, seq(|inputs|, _ => OPENED), inputs, Fresh(|inputs|), [])
  }

  datatype Event =
    | Start         // a free thread takes the next session
    | Go(t: nat)    // a session takes its next atomic step

  ghost predicate Can(sys: System, e: Event) {
    match e
    case Start => sys.started < |sys.sessions| && |sys.Active()| < sys.threads
    case Go(t) => t < sys.started && sys.Has(t) && Sound(sys.sessions[t]) && !sys.HasEnded(t)
  }

  datatype Served = Serving(system: System) | Crashed

  function Stepped(sys: System, op: Op): Served
    requires SharedStore.Can(sys.store, op)
  {
    var outcome := SharedStore.Do(sys.store, op);
    if outcome.IndexOutOfBounds? then Crashed else Serving(sys.(store := outcome.store))
  }

  /** The session handles a line, which may add a message, or goes on in addMessage. */
  function Move(sys: System, t: nat): Served
    requires Can(sys, Go(t))
  {
    match sys.store.phases[t]
    case Added => Stepped(sys, ReadSize(t))
    case Overfull => Stepped(sys, RemoveOldest(t))
    case Outside =>
      var s := sys.sessions[t];
      var s' := Step(s, sys.unread[t][0]);
      var read := sys.(sessions := sys.sessions[t := s'], unread := sys.unread[t := sys.unread[t][1..]]);
      if |s'.delivered| <= |s.delivered| then Serving(read)
      else Stepped(read.(authors := sys.authors + [t]), Op.Add(t, s'.delivered[|s'.delivered| - 1]))
  }

  function Do(sys: System, e: Event): Served
    requires Can(sys, e)
  {
    match e
    case Start => Serving(sys.(started := sys.started + 1))
    case Go(t) => Move(sys, t)
  }

  ghost predicate Possible(sys: System, events: seq<Event>)
    decreases |events|
  {
    events == []
    || (Can(sys, events[0]) && (Do(sys, events[0]).Serving? ==> Possible(Do(sys, events[0]).system, events[1..])))
  }

  ghost function Serve(sys: System, events: seq<Event>): Served
    requires Possible(sys, events)
    decreases |events|
  {
    if events == [] then Serving(sys)
    else
      var next := Do(sys, events[0]);
      if next.Crashed? then Crashed else Serve(next.system, events[1..])
  }

  // ---------- what every interleaving keeps ----------

  /** The messages of one author, in order. */
  function By(messages: seq<Message>, authors: seq<nat>, t: nat): seq<Message>
    requires |messages| == |authors|
  {
    if messages == [] then []
    else
      var n := |messages| - 1;
      By(messages[..n], authors[..n], t) + if authors[n] == t then [messages[n]] else []
  }

  lemma BySnoc(messages: seq<Message>, authors: seq<nat>, m: Message, author: nat, t: nat)
    requires |messages| == |authors|
    ensures By(messages + [m], authors + [author], t) == By(messages, authors, t) + if author == t then [m] else []
  {
    assert (messages + [m])[..|messages|] == messages && (authors + [author])[..|messages|] == authors;
  }

  /** The session is where the lines that it has read lead. */
  ghost predicate IsAt(s: Session, input: seq<string>, unread: seq<string>) {
    && |unread| <= |input| && unread == input[|input| - |unread|..]
    && s == Run(OPENED, input[..|input| - |unread|])
  }

  ghost predicate StoreInvariant(store: Store, sessions: nat, threads: nat) {
    && SharedStore.Invariant(store, threads)
    && (forall t: nat :: t in store.phases <==> t < sessions)
  }

  /** Only active sessions are inside addMessage, and there are no more of them than threads. */
  ghost predicate PoolInvariant(sys: System) {
    && sys.started <= |sys.sessions| == |sys.unread| && |sys.Active()| <= sys.threads
    && forall t: nat :: sys.started <= t && t in sys.store.phases ==> sys.store.phases[t] == Outside
  }

  ghost predicate SessionInvariant(sys: System, inputs: seq<seq<string>>, t: nat)
    requires t < |sys.sessions| == |sys.unread| == |inputs| && |sys.authors| == |sys.store.added|
  {
    && IsAt(sys.sessions[t], inputs[t], sys.unread[t])
    && By(sys.store.added, sys.authors, t) == sys.sessions[t].delivered
    && (sys.started <= t ==> sys.unread[t] == inputs[t])
  }

  ghost predicate Coherent(sys: System, inputs: seq<seq<string>>) {
    && StoreInvariant(sys.store, |inputs|, sys.threads) && PoolInvariant(sys)
    && |sys.sessions| == |inputs| && |sys.authors| == |sys.store.added|
    && (forall i :: 0 <= i < |sys.authors| ==> sys.authors[i] < |inputs|)
    && forall t: nat :: t < |inputs| ==> SessionInvariant(sys, inputs, t)
  }

  lemma {:induction false} ReadsOneMore(s: Session, input: seq<string>, unread: seq<string>)
    requires IsAt(s, input, unread) && unread != [] && s.state != Connect
    ensures Sound(s) && IsAt(Step(s, unread[0]), input, unread[1..])
  {
    var k := |input| - |unread|;
    assert input[..k + 1] == input[..k] + [unread[0]];
    RunAppend(OPENED, input[..k], [unread[0]]);
    RunOne(s, unread[0]);
  }

  lemma DeliversAtMostOne(s: Session, line: string)
    requires Sound(s)
    ensures var before, after := s.delivered, Step(s, line).delivered;
            if |after| <= |before| then after == before else after == before + [after[|after| - 1]]
  {
  }

  lemma ActiveIsFinite(sys: System)
    ensures sys.Active() <= Range(sys.started)
  {
  }

  /** An active session outside addMessage leaves room in it for itself. */
  lemma RoomInPool(sys: System, t: nat)
    requires PoolInvariant(sys) && t in sys.Active() && sys.store.phases[t] == Outside
    requires forall u: nat :: u in sys.store.phases <==> u < |sys.sessions|
    ensures Inside(sys.store.phases) < sys.threads
  {
    var phases := sys.store.phases;
    assert InPhase(phases, Added) !! InPhase(phases, Overfull);
    SubsetSize(InPhase(phases, Added) + InPhase(phases, Overfull) + {t}, sys.Active());
  }

  lemma OpKeepsPhases(store: Store, op: Op)
    requires SharedStore.Can(store, op) && SharedStore.Do(store, op).Running?
    ensures var next := SharedStore.Do(store, op).store;
            && next.phases.Keys == store.phases.Keys
            && forall u :: u in store.phases && u != op.session ==> next.phases[u] == store.phases[u]
  {
  }

  lemma OpKeepsStore(store: Store, op: Op, sessions: nat, threads: nat)
    requires StoreInvariant(store, sessions, threads) && SharedStore.Can(store, op)
    requires op.Add? ==> Inside(store.phases) < threads
    ensures var outcome := SharedStore.Do(store, op);
            && outcome.Running? && StoreInvariant(outcome.store, sessions, threads)
            && outcome.store.added == (if op.Add? then store.added + [op.message] else store.added)
            && forall u :: u in store.phases && u != op.session ==> outcome.store.phases[u] == store.phases[u]
  {
    StepKeepsInvariant(store, op, threads);
    OpKeepsPhases(store, op);
  }

  /** What a step of one session leaves as it is. */
  ghost predicate OthersKept(sys: System, next: System, t: nat)
    requires |sys.sessions| == |sys.unread|
  {
    && |next.sessions| == |next.unread| == |sys.sessions|
    && next.threads == sys.threads && next.started == sys.started && next.store.phases.Keys == sys.store.phases.Keys
    && (forall u: nat :: u < |sys.sessions| && u != t
          ==> next.sessions[u] == sys.sessions[u] && next.unread[u] == sys.unread[u])
    && (forall u: nat :: u in sys.store.phases && u != t ==> next.store.phases[u] == sys.store.phases[u])
  }

  lemma PoolAfterMove(sys: System, next: System, t: nat)
    requires PoolInvariant(sys) && t in sys.Active() && OthersKept(sys, next, t)
    ensures PoolInvariant(next)
  {
    SubsetSize(next.Active(), sys.Active());
  }

  /** A step inside addMessage changes neither the sessions nor what has been added. */
  lemma OpKeepsCoherent(sys: System, inputs: seq<seq<string>>, op: Op)
    requires Coherent(sys, inputs) && SharedStore.Can(sys.store, op) && !op.Add? && op.session in sys.Active()
    ensures Stepped(sys, op).Serving? && Coherent(Stepped(sys, op).system, inputs)
  {
    OpKeepsStore(sys.store, op, |inputs|, sys.threads);
    var next := Stepped(sys, op).system;
    PoolAfterMove(sys, next, op.session);
    forall u: nat | u < |inputs|
      ensures SessionInvariant(next, inputs, u)
    {
      assert SessionInvariant(sys, inputs, u);
    }
  }

  /** One session has read a line, and added a message unless m is None. */
  ghost predicate HasRead(sys: System, next: System, inputs: seq<seq<string>>, t: nat, m: Option<Message>)
    requires t < |inputs| == |sys.sessions| == |sys.unread| && |sys.authors| == |sys.store.added|
  {
    && OthersKept(sys, next, t)
    && IsAt(next.sessions[t], inputs[t], next.unread[t])
    && (if m.None? then
          && next.sessions[t].delivered == sys.sessions[t].delivered
          && next.store.added == sys.store.added && next.authors == sys.authors
        else
          && next.sessions[t].delivered == sys.sessions[t].delivered + [m.value]
          && next.store.added == sys.store.added + [m.value] && next.authors == sys.authors + [t])
  }

  lemma SessionAfterRead(sys: System, next: System, inputs: seq<seq<string>>, t: nat, m: Option<Message>, u: nat)
    requires Coherent(sys, inputs) && t < sys.started && HasRead(sys, next, inputs, t, m) && u < |inputs|
    ensures SessionInvariant(next, inputs, u)
  {
    assert SessionInvariant(sys, inputs, u);
    if m.Some? {
      BySnoc(sys.store.added, sys.authors, m.value, t, u);
    }
  }

  lemma CoherentAfterRead(sys: System, next: System, inputs: seq<seq<string>>, t: nat, m: Option<Message>)
    requires Coherent(sys, inputs) && t in sys.Active() && HasRead(sys, next, inputs, t, m)
    requires StoreInvariant(next.store, |inputs|, sys.threads)
    ensures Coherent(next, inputs)
  {
    PoolAfterMove(sys, next, t);
    forall u: nat | u < |inputs|
      ensures SessionInvariant(next, inputs, u)
    {
      SessionAfterRead(sys, next, inputs, t, m, u);
    }
  }

  /** How many steps a session can still take, at most. */
  function StepsLeft(sys: System, t: nat): nat
    requires sys.Has(t)
  {
    3 * |sys.unread[t]| + match sys.store.phases[t] case Outside => 0 case Added => 2 case Overfull => 1
  }

  /** What a session does on its next line. */
  lemma {:induction false} ReadEffect(sys: System, inputs: seq<seq<string>>, t: nat) returns (m: Option<Message>)
    requires Coherent(sys, inputs) && Can(sys, Go(t)) && sys.store.phases[t] == Outside
    ensures Move(sys, t).Serving? && HasRead(sys, Move(sys, t).system, inputs, t, m)
    ensures StoreInvariant(Move(sys, t).system.store, |inputs|, sys.threads)
  {
    var s, line := sys.sessions[t], sys.unread[t][0];
    var before, after := s.delivered, Step(s, line).delivered;
    assert SessionInvariant(sys, inputs, t);
    ReadsOneMore(s, inputs[t], sys.unread[t]);
    DeliversAtMostOne(s, line);
    if |after| <= |before| {
      m := None;
    } else {
      m := Some(after[|after| - 1]);
      RoomInPool(sys, t);
      OpKeepsStore(sys.store, Op.Add(t, m.value), |inputs|, sys.threads);
    }
  }

  lemma MoveKeepsCoherent(sys: System, inputs: seq<seq<string>>, t: nat)
    requires Coherent(sys, inputs) && Can(sys, Go(t))
    ensures Move(sys, t).Serving? && Coherent(Move(sys, t).system, inputs)
  {
    match sys.store.phases[t]
    case Added => OpKeepsCoherent(sys, inputs, ReadSize(t));
    case Overfull => OpKeepsCoherent(sys, inputs, RemoveOldest(t));
    case Outside =>
      var m := ReadEffect(sys, inputs, t);
      CoherentAfterRead(sys, Move(sys, t).system, inputs, t, m);
  }

  lemma StartKeepsCoherent(sys: System, inputs: seq<seq<string>>)
    requires Coherent(sys, inputs) && Can(sys, Start)
    ensures Coherent(Do(sys, Start).system, inputs)
  {
    var next := Do(sys, Start).system;
    SubsetSize(next.Active(), sys.Active() + {sys.started});
    forall u: nat | u < |inputs|
      ensures SessionInvariant(next, inputs, u)
    {
      assert SessionInvariant(sys, inputs, u);
    }
  }

  lemma EventKeepsCoherent(sys: System, inputs: seq<seq<string>>, e: Event)
    requires Coherent(sys, inputs) && Can(sys, e)
    ensures Do(sys, e).Serving? && Coherent(Do(sys, e).system, inputs)
  {
    match e
    case Start => StartKeepsCoherent(sys, inputs);
    case Go(t) => MoveKeepsCoherent(sys, inputs, t);
  }

  lemma OpenedIsCoherent(threads: nat, inputs: seq<seq<string>>)
    ensures Coherent(Opened(threads, inputs), inputs)
  {
    var sys := Opened(threads, inputs);
    FreshStore(|inputs|);
    assert sys.Active() == {};
    forall t: nat | t < |inputs|
      ensures SessionInvariant(sys, inputs, t)
    {
      assert inputs[t][..0] == [] && inputs[t][0..] == inputs[t];
    }
  }

  lemma {:induction false} ServeKeepsCoherent(sys: System, inputs: seq<seq<string>>, events: seq<Event>)
    requires Coherent(sys, inputs) && Possible(sys, events)
    ensures Serve(sys, events).Serving? && Coherent(Serve(sys, events).system, inputs)
    ensures Serve(sys, events).system.threads == sys.threads
    decreases |events|
  {
    if events != [] {
      EventKeepsCoherent(sys, inputs, events[0]);
      ServeKeepsCoherent(Do(sys, events[0]).system, inputs, events[1..]);
    }
  }

  /** Whatever the clients send and however their sessions interleave: no session throws, what each has added is what
      its own lines deliver, in its order, and the store is a suffix of all that was added. */
  lemma {:induction false} SessionsDoNotDisturb(threads: nat, inputs: seq<seq<string>>, events: seq<Event>, t: nat)
    requires Possible(Opened(threads, inputs), events) && t < |inputs|
    ensures var outcome := Serve(Opened(threads, inputs), events);
            && outcome.Serving?
            && |outcome.system.sessions| == |outcome.system.unread| == |inputs|
            && |outcome.system.authors| == |outcome.system.store.added|
            && IsAt(outcome.system.sessions[t], inputs[t], outcome.system.unread[t])
            && By(outcome.system.store.added, outcome.system.authors, t) == outcome.system.sessions[t].delivered
            && IsSuffix(outcome.system.store.list, outcome.system.store.added)
  {
    OpenedIsCoherent(threads, inputs);
    ServeKeepsCoherent(Opened(threads, inputs), inputs, events);
    assert SessionInvariant(Serve(Opened(threads, inputs), events).system, inputs, t);
  }

  // ---------- every run ends ----------

  function TotalLeft(sys: System, n: nat): nat
    requires forall t: nat :: t < n ==> sys.Has(t)
  {
    if n == 0 then 0 else TotalLeft(sys, n - 1) + StepsLeft(sys, n - 1)
  }

  lemma {:induction false} TotalAfterMove(sys: System, next: System, t: nat, n: nat)
    requires |sys.sessions| == |sys.unread| && OthersKept(sys, next, t)
    requires forall u: nat :: u < n ==> sys.Has(u) && next.Has(u)
    requires sys.Has(t) && StepsLeft(next, t) < StepsLeft(sys, t)
    ensures TotalLeft(next, n) <= TotalLeft(sys, n) - if t < n then 1 else 0
  {
    if n > 0 {
      assert sys.Has(n - 1) && next.Has(n - 1);
      assert n - 1 != t ==> StepsLeft(next, n - 1) == StepsLeft(sys, n - 1);
      TotalAfterMove(sys, next, t, n - 1);
    }
  }

  lemma {:induction false} SameTotal(sys: System, next: System, n: nat)
    requires next.sessions == sys.sessions && next.unread == sys.unread && next.store == sys.store
    requires forall u: nat :: u < n ==> sys.Has(u) && next.Has(u)
    ensures TotalLeft(next, n) == TotalLeft(sys, n)
  {
    if n > 0 {
      SameTotal(sys, next, n - 1);
    }
  }

  lemma OpTakesStep(sys: System, op: Op)
    requires sys.Has(op.session) && SharedStore.Can(sys.store, op) && !op.Add? && Stepped(sys, op).Serving?
    ensures var next := Stepped(sys, op).system;
            OthersKept(sys, next, op.session) && StepsLeft(next, op.session) < StepsLeft(sys, op.session)
  {
  }

  lemma ReadTakesStep(sys: System, t: nat)
    requires Can(sys, Go(t)) && sys.store.phases[t] == Outside && Move(sys, t).Serving?
    ensures Move(sys, t).system.Has(t) && StepsLeft(Move(sys, t).system, t) < StepsLeft(sys, t)
  {
  }

  lemma MoveTakesStep(sys: System, inputs: seq<seq<string>>, t: nat)
    requires Coherent(sys, inputs) && Can(sys, Go(t)) && Move(sys, t).Serving?
    ensures OthersKept(sys, Move(sys, t).system, t) && StepsLeft(Move(sys, t).system, t) < StepsLeft(sys, t)
  {
    match sys.store.phases[t]
    case Added => OpTakesStep(sys, ReadSize(t));
    case Overfull => OpTakesStep(sys, RemoveOldest(t));
    case Outside =>
      var _ := ReadEffect(sys, inputs, t);
      ReadTakesStep(sys, t);
  }

  lemma {:induction false} RunsEnd(sys: System, inputs: seq<seq<string>>, events: seq<Event>)
    requires Coherent(sys, inputs) && Possible(sys, events)
    ensures |events| <= TotalLeft(sys, |inputs|) + |inputs| - sys.started
    decreases |events|
  {
    if events != [] {
      EventKeepsCoherent(sys, inputs, events[0]);
      var next := Do(sys, events[0]).system;
      if events[0].Start? {
        SameTotal(sys, next, |inputs|);
      } else {
        MoveTakesStep(sys, inputs, events[0].t);
        TotalAfterMove(sys, next, events[0].t, |inputs|);
      }
      RunsEnd(next, inputs, events[1..]);
    }
  }

  function LinesOf(inputs: seq<seq<string>>): nat {
    if inputs == [] then 0 else LinesOf(inputs[..|inputs| - 1]) + |inputs[|inputs| - 1]|
  }

  lemma {:induction false} LeftAtFirst(threads: nat, inputs: seq<seq<string>>, n: nat)
    requires n <= |inputs|
    ensures TotalLeft(Opened(threads, inputs), n) == 3 * LinesOf(inputs[..n])
  {
    if n > 0 {
      assert inputs[..n][..n - 1] == inputs[..n - 1];
      LeftAtFirst(threads, inputs, n - 1);
    }
  }

  /** A run takes no more than three steps for each line, and one to start each session. */
  lemma {:induction false} EveryRunEnds(threads: nat, inputs: seq<seq<string>>, events: seq<Event>)
    requires Possible(Opened(threads, inputs), events)
    ensures |events| <= 3 * LinesOf(inputs) + |inputs|
  {
    var sys := Opened(threads, inputs);
    assert TotalLeft(sys, |inputs|) == 3 * LinesOf(inputs) by {
      LeftAtFirst(threads, inputs, |inputs|);
      assert inputs[..|inputs|] == inputs;
    }
    assert Coherent(sys, inputs) by {
      OpenedIsCoherent(threads, inputs);
    }
    RunsEnd(sys, inputs, events);
  }

  // ---------- one thread takes the sessions one after the other ----------

  /** What the first so many sessions have delivered, one session after the other. */
  function Deliveries(sessions: seq<Session>, n: nat): seq<Message>
    requires n <= |sessions|
  {
    if n == 0 then [] else Deliveries(sessions, n - 1) + sessions[n - 1].delivered
  }

  /** All but the last session started have ended, and they have added their messages in this order. */
  ghost predicate OneAfterTheOther(sys: System) {
    && sys.started <= |sys.sessions|
    && (forall t: nat :: t + 1 < sys.started ==> sys.Has(t) && sys.HasEnded(t))
    && sys.store.added == Deliveries(sys.sessions, sys.started)
  }

  lemma {:induction false} SameDeliveries(a: seq<Session>, b: seq<Session>, n: nat)
    requires n <= |a| && n <= |b| && forall t :: 0 <= t < n ==> a[t].delivered == b[t].delivered
    ensures Deliveries(a, n) == Deliveries(b, n)
  {
    if n > 0 {
      SameDeliveries(a, b, n - 1);
    }
  }

  lemma StartOneAfterTheOther(sys: System, inputs: seq<seq<string>>)
    requires Coherent(sys, inputs) && sys.threads == 1 && OneAfterTheOther(sys) && Can(sys, Start)
    ensures OneAfterTheOther(Do(sys, Start).system)
  {
    var k, next := sys.started, Do(sys, Start).system;
    assert SessionInvariant(sys, inputs, k);
    assert inputs[k][..0] == [] && sys.sessions[k].delivered == [];
    SameDeliveries(sys.sessions, next.sessions, k);
    forall t: nat | t < k
      ensures next.Has(t) && next.HasEnded(t)
    {
      assert sys.Active() == {};
      assert t !in sys.Active();
    }
  }

  /** The one session that can go on is the last one started. */
  lemma OnlyTheLastGoesOn(sys: System, next: System, t: nat)
    requires OneAfterTheOther(sys) && Can(sys, Go(t)) && OthersKept(sys, next, t)
    ensures t + 1 == sys.started
    ensures forall u: nat :: u + 1 < next.started ==> next.Has(u) && next.HasEnded(u)
  {
    forall u: nat | u + 1 < next.started
      ensures next.Has(u) && next.HasEnded(u)
    {
      assert sys.Has(u) && sys.HasEnded(u);
    }
  }

  lemma DeliveriesAfterRead(sys: System, next: System, inputs: seq<seq<string>>, t: nat, m: Option<Message>)
    requires t + 1 <= |inputs| == |sys.sessions| == |sys.unread| && |sys.authors| == |sys.store.added|
    requires HasRead(sys, next, inputs, t, m) && sys.store.added == Deliveries(sys.sessions, t + 1)
    ensures next.store.added == Deliveries(next.sessions, t + 1)
  {
    SameDeliveries(sys.sessions, next.sessions, t);
    if m.Some? {
      ConcatIsAssociative(Deliveries(sys.sessions, t), sys.sessions[t].delivered, [m.value]);
    }
  }

  lemma {:induction false} ReadKeepsOrder(sys: System, next: System, inputs: seq<seq<string>>, t: nat,
                                          m: Option<Message>)
    requires |inputs| == |sys.sessions| == |sys.unread| && |sys.authors| == |sys.store.added|
    requires OneAfterTheOther(sys) && Can(sys, Go(t)) && HasRead(sys, next, inputs, t, m)
    ensures OneAfterTheOther(next)
  {
    OnlyTheLastGoesOn(sys, next, t);
    DeliveriesAfterRead(sys, next, inputs, t, m);
  }

  lemma {:induction false} ReadOneAfterTheOther(sys: System, inputs: seq<seq<string>>, t: nat)
    requires Coherent(sys, inputs) && OneAfterTheOther(sys) && Can(sys, Go(t)) && sys.store.phases[t] == Outside
    ensures Move(sys, t).Serving? && OneAfterTheOther(Move(sys, t).system)
  {
    var m := ReadEffect(sys, inputs, t);
    ReadKeepsOrder(sys, Move(sys, t).system, inputs, t, m);
  }

  lemma OpOneAfterTheOther(sys: System, op: Op)
    requires OneAfterTheOther(sys) && Can(sys, Go(op.session)) && SharedStore.Can(sys.store, op) && !op.Add?
    requires Stepped(sys, op).Serving?
    ensures OneAfterTheOther(Stepped(sys, op).system)
  {
    OpTakesStep(sys, op);
    OnlyTheLastGoesOn(sys, Stepped(sys, op).system, op.session);
  }

  lemma MoveOneAfterTheOther(sys: System, inputs: seq<seq<string>>, t: nat)
    requires Coherent(sys, inputs) && OneAfterTheOther(sys) && Can(sys, Go(t))
    ensures Move(sys, t).Serving? && OneAfterTheOther(Move(sys, t).system)
  {
    MoveKeepsCoherent(sys, inputs, t);
    match sys.store.phases[t]
    case Added => OpOneAfterTheOther(sys, ReadSize(t));
    case Overfull => OpOneAfterTheOther(sys, RemoveOldest(t));
    case Outside => ReadOneAfterTheOther(sys, inputs, t);
  }

  lemma {:induction false} ServeOneAfterTheOther(sys: System, inputs: seq<seq<string>>, events: seq<Event>)
    requires Coherent(sys, inputs) && sys.threads == 1 && OneAfterTheOther(sys) && Possible(sys, events)
    ensures Serve(sys, events).Serving? && OneAfterTheOther(Serve(sys, events).system)
    decreases |events|
  {
    if events != [] {
      EventKeepsCoherent(sys, inputs, events[0]);
      match events[0] {
        case Start => StartOneAfterTheOther(sys, inputs);
        case Go(t) => MoveOneAfterTheOther(sys, inputs, t);
      }
      ServeOneAfterTheOther(Do(sys, events[0]).system, inputs, events[1..]);
    }
  }

  // ---------- when all is done ----------

  /** No session can be started, and none can go on. */
  ghost predicate AtRest(sys: System) {
    forall e :: !Can(sys, e)
  }

  lemma EndedAtRest(sys: System, inputs: seq<seq<string>>, t: nat)
    requires Coherent(sys, inputs) && AtRest(sys) && t < sys.started
    ensures sys.HasEnded(t)
  {
    assert SessionInvariant(sys, inputs, t);
    assert !Can(sys, Go(t));
  }

  lemma AllStartedAtRest(sys: System, inputs: seq<seq<string>>)
    requires Coherent(sys, inputs) && AtRest(sys) && sys.threads > 0
    ensures sys.started == |inputs|
  {
    if sys.started < |inputs| {
      assert !Can(sys, Start);
      var t :| t in sys.Active();
      EndedAtRest(sys, inputs, t);
    }
  }

  lemma {:induction false} EndedSessionIsDone(sys: System, inputs: seq<seq<string>>, t: nat)
    requires Coherent(sys, inputs) && t < |inputs| && sys.HasEnded(t)
    ensures sys.sessions[t] == Run(OPENED, inputs[t])
  {
    assert SessionInvariant(sys, inputs, t);
    NothingMoreToDo(sys.sessions[t], inputs[t], sys.unread[t]);
  }

  lemma {:induction false} NothingMoreToDo(s: Session, input: seq<string>, unread: seq<string>)
    requires IsAt(s, input, unread) && (unread == [] || s.state == Connect)
    ensures s == Run(OPENED, input)
  {
    var k := |input| - |unread|;
    assert input == input[..k] + unread;
    RunAppend(OPENED, input[..k], unread);
  }

  lemma DoneAtRest(sys: System, inputs: seq<seq<string>>)
    requires Coherent(sys, inputs) && AtRest(sys) && sys.threads > 0
    ensures Quiet(sys.store) && sys.started == |inputs|
    ensures forall t: nat :: t < |inputs| ==> sys.sessions[t] == Run(OPENED, inputs[t])
  {
    AllStartedAtRest(sys, inputs);
    forall t: nat | t < |inputs|
      ensures sys.store.phases[t] == Outside && sys.sessions[t] == Run(OPENED, inputs[t])
    {
      EndedAtRest(sys, inputs, t);
      EndedSessionIsDone(sys, inputs, t);
    }
  }

  // ---------- clients that send mails ----------

  datatype Client = Client(greeting: string, mails: seq<Mail>, farewell: string)

  predicate IsGood(c: Client) {
    && CommandOf(c.greeting) == Ehlo && CommandOf(c.farewell) == QuitSession
    && forall i :: 0 <= i < |c.mails| ==> GoodMail(c.mails[i])
  }

  function Inputs(clients: seq<Client>): (inputs: seq<seq<string>>)
    ensures |inputs| == |clients|
    ensures forall t :: 0 <= t < |clients|
              ==> inputs[t] == Conversation(clients[t].greeting, clients[t].mails, clients[t].farewell)
  {
    seq(|clients|, t requires 0 <= t < |clients| =>
          Conversation(clients[t].greeting, clients[t].mails, clients[t].farewell))
  }

  /** The mails of all clients, one client after the other. */
  function MailsInTurn(clients: seq<Client>): seq<Message> {
    if clients == [] then []
    else MailsInTurn(clients[..|clients| - 1]) + AllStored(None, clients[|clients| - 1].mails)
  }

  /** A run of the server, threaded or not, with some clients, that has come to its end. */
  ghost predicate IsFullRun(threaded: bool, clients: seq<Client>, events: seq<Event>) {
    && (forall t :: 0 <= t < |clients| ==> IsGood(clients[t]))
    && Possible(Opened(PoolSize(threaded), Inputs(clients)), events)
    && var outcome := Serve(Opened(PoolSize(threaded), Inputs(clients)), events);
       outcome.Serving? ==> AtRest(outcome.system)
  }

  lemma {:induction false} EndOfFullRun(threaded: bool, clients: seq<Client>, events: seq<Event>)
    requires IsFullRun(threaded, clients, events)
    ensures var (inputs, outcome) := (Inputs(clients), Serve(Opened(PoolSize(threaded), Inputs(clients)), events));
            && outcome.Serving? && Coherent(outcome.system, inputs) && outcome.system.threads == PoolSize(threaded)
            && Quiet(outcome.system.store) && outcome.system.started == |clients|
            && forall t: nat :: t < |clients|
                 ==> outcome.system.sessions[t].delivered == AllStored(None, clients[t].mails)
  {
    var inputs, start := Inputs(clients), Opened(PoolSize(threaded), Inputs(clients));
    OpenedIsCoherent(PoolSize(threaded), inputs);
    ServeKeepsCoherent(start, inputs, events);
    var sys := Serve(start, events).system;
    DoneAtRest(sys, inputs);
    forall t: nat | t < |clients|
      ensures sys.sessions[t].delivered == AllStored(None, clients[t].mails)
    {
      EveryMailIsStored(clients[t].greeting, clients[t].mails, clients[t].farewell);
    }
  }

  /** The sessions of ten threads at a time may interleave in any way: all that was added is an interleaving of the
      mails of the clients, each in order, and the store has the end of it, all of it or at least the last 91. */
  lemma {:induction false} EveryClientsMailsAreAdded(threaded: bool, clients: seq<Client>, events: seq<Event>)
    requires IsFullRun(threaded, clients, events)
    ensures var outcome := Serve(Opened(PoolSize(threaded), Inputs(clients)), events);
            && outcome.Serving?
            && var (store, authors) := (outcome.system.store, outcome.system.authors);
               && |authors| == |store.added| && (forall i :: 0 <= i < |authors| ==> authors[i] < |clients|)
               && (forall t: nat :: t < |clients| ==> By(store.added, authors, t) == AllStored(None, clients[t].mails))
               && store.list == LastN(store.added, |store.list|) && |store.list| <= 100
               && (|store.list| == |store.added| || |store.list| >= if threaded then 91 else 100)
  {
    EndOfFullRun(threaded, clients, events);
    var sys := Serve(Opened(PoolSize(threaded), Inputs(clients)), events).system;
    QuietInvariant(sys.store, sys.threads);
    forall t: nat | t < |clients|
      ensures By(sys.store.added, sys.authors, t) == AllStored(None, clients[t].mails)
    {
      assert SessionInvariant(sys, Inputs(clients), t);
    }
  }

  lemma {:induction false} DeliveriesAreMails(sessions: seq<Session>, clients: seq<Client>)
    requires |sessions| >= |clients|
    requires forall t: nat :: t < |clients| ==> sessions[t].delivered == AllStored(None, clients[t].mails)
    ensures Deliveries(sessions, |clients|) == MailsInTurn(clients)
  {
    if clients != [] {
      DeliveriesAreMails(sessions, clients[..|clients| - 1]);
    }
  }

  /** Without threads the clients are served one after the other, and the store has exactly the last hundred of their
      mails in that order. */
  lemma {:induction false} SingleThreadKeepsLastHundred(clients: seq<Client>, events: seq<Event>)
    requires IsFullRun(false, clients, events)
    ensures var outcome := Serve(Opened(PoolSize(false), Inputs(clients)), events);
            && outcome.Serving?
            && outcome.system.store.added == MailsInTurn(clients)
            && outcome.system.store.list == LastN(MailsInTurn(clients), 100)
  {
    var start := Opened(PoolSize(false), Inputs(clients));
    OpenedIsCoherent(PoolSize(false), Inputs(clients));
    ServeOneAfterTheOther(start, Inputs(clients), events);
    EndOfFullRun(false, clients, events);
    LastHundredInTurn(Serve(start, events).system, clients);
  }

  lemma {:induction false} LastHundredInTurn(sys: System, clients: seq<Client>)
    requires Coherent(sys, Inputs(clients)) && sys.threads == 1 && OneAfterTheOther(sys) && Quiet(sys.store)
    requires sys.started == |clients|
    requires forall t: nat :: t < |clients| ==> sys.sessions[t].delivered == AllStored(None, clients[t].mails)
    ensures sys.store.added == MailsInTurn(clients) && sys.store.list == LastN(MailsInTurn(clients), 100)
  {
    DeliveriesAreMails(sys.sessions, clients);
    QuietInvariant(sys.store, 1);
  }
}
