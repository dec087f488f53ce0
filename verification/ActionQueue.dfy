/** ActionHandler.handle and waitForActions: one action at a time, through a shared array of promises. */
module ActionQueue {
  import opened Text

  /** A call of handle: its delay runs, then it waits for the pending promises, then its body runs,
      then its own promise is settled. */
  datatype Status = Delayed | WaitingForAll | Running | Settled(ok: bool)

  /** pending is the copy of the shared array that the call took. awaits is the promise of handle that
      the running body waits for, or waited for last. */
  datatype Handler = Handler(pending: seq<nat>, status: Status, awaits: Option<nat>)

  /** Handlers are numbered in call order. all is the shared array $actionPromises; started lists the
      handlers whose bodies have started, in that order. */
  datatype Queue = Queue(handlers: seq<Handler>, all: seq<nat>, started: seq<nat>) {
    predicate Has(h: nat) { h < |handlers| }

    predicate IsSettled(h: nat) { Has(h) && handlers[h].status.Settled? }

    predicate IsRejected(h: nat) { Has(h) && handlers[h].status == Settled(false) }

    predicate IsRunning(h: nat) { Has(h) && handlers[h].status == Running }

    predicate HasStarted(h: nat) { Has(h) && (handlers[h].status == Running || handlers[h].status.Settled?) }

    /** The body waits for a call that is not settled. */
    predicate IsAwaiting(h: nat) {
      IsRunning(h) && handlers[h].awaits.Some? && !IsSettled(handlers[h].awaits.value)
    }

    function With(h: nat, status: Status): Queue
      requires Has(h)
    {
      this.(handlers := handlers[h := handlers[h].(status := status)])
    }

    /** $q.all settles when every promise is resolved, or as soon as one is rejected. */
    predicate AllSettles(pending: seq<nat>) {
      || (forall i :: 0 <= i < |pending| ==> IsSettled(pending[i]))
      || (exists i :: 0 <= i < |pending| && IsRejected(pending[i]))
    }
  }

  const EMPTY_QUEUE := Queue([], [], [])

  datatype Event =
    | Call                            // handle is called
    | DelayEnds(h: nat)               // the timer fires and no request is pending
    | Start(h: nat)                   // $q.all settles: the body starts
    | Await(h: nat, target: nat)      // the body waits for another call of handle
    | Finish(h: nat, ok: bool)        // the promise of the body is resolved or rejected
    | Splice(h: nat)                  // the promise is taken out of the shared array

  predicate Can(q: Queue, e: Event) {
    match e
    case Call => true
    case DelayEnds(h) => q.Has(h) && q.handlers[h].status == Delayed
    case Start(h) => q.Has(h) && q.handlers[h].status == WaitingForAll && q.AllSettles(q.handlers[h].pending)
    case Await(h, target) => q.IsRunning(h) && !q.IsAwaiting(h) && q.Has(target)
    case Finish(h, _) => q.IsRunning(h) && !q.IsAwaiting(h)
    case Splice(h) => q.IsSettled(h) && h in q.all
  }

  function Do(q: Queue, e: Event): Queue
    requires Can(q, e)
  {
    match e
    case Call => q.(handlers := q.handlers + [Handler(q.all, Delayed, None)], all := q.all + [|q.handlers|])
    case DelayEnds(h) => q.With(h, WaitingForAll)
    case Start(h) => q.With(h, Running).(started := q.started + [h])
    case Await(h, target) => q.(handlers := q.handlers[h := q.handlers[h].(awaits := Some(target))])
    case Finish(h, ok) => q.With(h, Settled(ok))
    case Splice(h) => q.(all := RemoveFirst(q.all, h))
  }

  predicate Legal(q: Queue, events: seq<Event>)
    decreases |events|
  {
    events == [] || (Can(q, events[0]) && Legal(Do(q, events[0]), events[1..]))
  }

  function Run(q: Queue, events: seq<Event>): Queue
    requires Legal(q, events)
    decreases |events|
  {
    if events == [] then q else Run(Do(q, events[0]), events[1..])
  }

  // ---------- what every interleaving keeps ----------

  ghost predicate Increasing(s: seq<nat>) {
    forall i, j :: 0 <= i < j < |s| ==> s[i] < s[j]
  }

  /** A call waits for calls made before it, and for every one of them that was not settled then. */
  ghost predicate WaitsForEarlier(q: Queue, h: nat)
    requires q.Has(h)
  {
    && (forall i :: 0 <= i < |q.handlers[h].pending| ==> q.handlers[h].pending[i] < h)
    && (forall e: nat :: e < h ==> e in q.handlers[h].pending || q.IsSettled(e))
  }

  ghost predicate Invariant(q: Queue) {
    && Increasing(q.all)
    && (forall i :: 0 <= i < |q.all| ==> q.Has(q.all[i]))
    && (forall h: nat :: q.Has(h) && !q.IsSettled(h) ==> h in q.all)
    && (forall h: nat :: q.Has(h) ==> WaitsForEarlier(q, h))
    && (forall h: nat :: q.HasStarted(h) ==> q.AllSettles(q.handlers[h].pending))
  }

  lemma IncreasingCons(x: nat, s: seq<nat>)
    requires Increasing(s) && forall y :: y in s ==> x < y
    ensures Increasing([x] + s)
  {
    forall i, j | 0 <= i < j < |[x] + s|
      ensures ([x] + s)[i] < ([x] + s)[j]
    {
      assert s[j - 1] in s;
    }
  }

  lemma {:induction false} RemoveFirstIncreasing(s: seq<nat>, x: nat)
    requires Increasing(s)
    ensures Increasing(RemoveFirst(s, x))
    ensures forall y :: y in RemoveFirst(s, x) <==> y in s && y != x
  {
    if s != [] {
      var head, rest := s[0], s[1..];
      assert s == [head] + rest;
      assert forall y :: y in rest ==> head < y;
      RemoveFirstIncreasing(rest, x);
      if head != x {
        IncreasingCons(head, RemoveFirst(rest, x));
      }
    }
  }

  /** Settled calls stay settled, so a $q.all that has settled stays so. */
  lemma SettledForGood(q: Queue, e: Event, pending: seq<nat>)
    requires Can(q, e)
    ensures forall h: nat :: q.IsSettled(h) ==> Do(q, e).IsSettled(h)
    ensures forall h: nat :: q.IsRejected(h) ==> Do(q, e).IsRejected(h)
    ensures q.AllSettles(pending) ==> Do(q, e).AllSettles(pending)
  {
    var q' := Do(q, e);
    assert forall h: nat :: q.IsSettled(h) ==> q'.Has(h) && q'.handlers[h].status == q.handlers[h].status;
    if i :| 0 <= i < |pending| && q.IsRejected(pending[i]) {
      assert q'.IsRejected(pending[i]);
    } else if q.AllSettles(pending) {
      forall i | 0 <= i < |pending|
        ensures q'.IsSettled(pending[i])
      {
        assert q.IsSettled(pending[i]);
      }
    }
  }

  /** What holds of a call that was there before stays so. */
  lemma HandlerKept(q: Queue, e: Event, h: nat)
    requires Invariant(q) && Can(q, e) && q.Has(h)
    ensures Do(q, e).Has(h) && WaitsForEarlier(Do(q, e), h)
    ensures Do(q, e).HasStarted(h) ==> Do(q, e).AllSettles(Do(q, e).handlers[h].pending)
  {
    var pending := q.handlers[h].pending;
    assert WaitsForEarlier(q, h);
    assert Do(q, e).handlers[h].pending == pending;
    SettledForGood(q, e, pending);
    assert Do(q, e).HasStarted(h) ==> q.HasStarted(h) || e == Start(h);
  }

  lemma {:induction false} CallKeepsInvariant(q: Queue)
    requires Invariant(q)
    ensures Invariant(Do(q, Call))
  {
    var q' := Do(q, Call);
    var n := |q.handlers|;
    forall h: nat | q'.Has(h)
      ensures WaitsForEarlier(q', h)
      ensures q'.HasStarted(h) ==> q'.AllSettles(q'.handlers[h].pending)
    {
      if h < n {
        HandlerKept(q, Call, h);
      } else {
        assert forall e: nat :: e < n ==> e in q.all || q.IsSettled(e);
        assert q'.handlers[h].pending == q.all;
      }
    }
    assert forall h: nat :: q'.Has(h) && !q'.IsSettled(h) ==> h in q'.all;
  }

  lemma StatusKeepsInvariant(q: Queue, e: Event)
    requires Invariant(q) && Can(q, e) && !e.Call? && !e.Splice?
    ensures Invariant(Do(q, e))
  {
    var q' := Do(q, e);
    assert q'.all == q.all;
    forall h: nat | q'.Has(h)
      ensures WaitsForEarlier(q', h)
      ensures q'.HasStarted(h) ==> q'.AllSettles(q'.handlers[h].pending)
    {
      HandlerKept(q, e, h);
    }
    forall h: nat | q'.Has(h) && !q'.IsSettled(h)
      ensures h in q'.all
    {
      assert !q.IsSettled(h);
    }
  }

  lemma SpliceKeepsInvariant(q: Queue, h: nat)
    requires Invariant(q) && Can(q, Splice(h))
    ensures Invariant(Do(q, Splice(h)))
  {
    var q' := Do(q, Splice(h));
    RemoveFirstIncreasing(q.all, h);
    assert forall i :: 0 <= i < |q'.all| ==> q'.all[i] in q'.all;
    forall k: nat | q'.Has(k)
      ensures WaitsForEarlier(q', k)
      ensures q'.HasStarted(k) ==> q'.AllSettles(q'.handlers[k].pending)
    {
      HandlerKept(q, Splice(h), k);
    }
  }

  lemma StepKeepsInvariant(q: Queue, e: Event)
    requires Invariant(q) && Can(q, e)
    ensures Invariant(Do(q, e))
  {
    match e
    case Call => CallKeepsInvariant(q);
    case Splice(h) => SpliceKeepsInvariant(q, h);
    case _ => StatusKeepsInvariant(q, e);
  }

  lemma {:induction false} RunKeepsInvariant(q: Queue, events: seq<Event>)
    requires Invariant(q) && Legal(q, events)
    ensures Invariant(Run(q, events))
    decreases |events|
  {
    if events != [] {
      StepKeepsInvariant(q, events[0]);
      RunKeepsInvariant(Do(q, events[0]), events[1..]);
    }
  }

  // ---------- what the events tell ----------

  lemma {:induction false} RunSnoc(q: Queue, events: seq<Event>, e: Event)
    requires Legal(q, events) && Can(Run(q, events), e)
    ensures Legal(q, events + [e]) && Run(q, events + [e]) == Do(Run(q, events), e)
    decreases |events|
  {
    if events == [] {
      assert [] + [e] == [e] && [e][1..] == [];
    } else {
      assert (events + [e])[1..] == events[1..] + [e];
      RunSnoc(Do(q, events[0]), events[1..], e);
    }
  }

  lemma {:induction false} RunInit(q: Queue, events: seq<Event>, e: Event)
    requires Legal(q, events + [e])
    ensures Legal(q, events) && Can(Run(q, events), e) && Run(q, events + [e]) == Do(Run(q, events), e)
    decreases |events|
  {
    if events == [] {
      assert [] + [e] == [e] && [e][1..] == [];
    } else {
      assert (events + [e])[1..] == events[1..] + [e];
      RunInit(Do(q, events[0]), events[1..], e);
    }
  }

  /** The bodies that have been started, in order. */
  function StartsOf(events: seq<Event>): seq<nat> {
    if events == [] then []
    else
      var e := events[|events| - 1];
      StartsOf(events[..|events| - 1]) + if e.Start? then [e.h] else []
  }

  /** What the body of h has awaited last. */
  function LastAwait(events: seq<Event>, h: nat): Option<nat> {
    if events == [] then None
    else
      var e := events[|events| - 1];
      if e.Await? && e.h == h then Some(e.target) else LastAwait(events[..|events| - 1], h)
  }

  function CallsIn(events: seq<Event>): nat {
    if events == [] then 0
    else CallsIn(events[..|events| - 1]) + if events[|events| - 1].Call? then 1 else 0
  }

  /** The state of each call, told by the events that have happened. */
  ghost predicate ToldOf(q: Queue, events: seq<Event>, h: nat) {
    && (q.IsRejected(h) <==> Finish(h, false) in events)
    && (q.IsSettled(h) && !q.IsRejected(h) <==> Finish(h, true) in events)
    && (q.HasStarted(h) <==> Event.Start(h) in events)
    && (q.Has(h) && q.handlers[h].status != Delayed <==> DelayEnds(h) in events)
    && (h in q.all <==> q.Has(h) && Splice(h) !in events)
    && (Splice(h) in events ==> q.IsSettled(h))
    && (q.Has(h) ==> q.handlers[h].awaits == LastAwait(events, h))
    && (!q.Has(h) ==> LastAwait(events, h) == None)
  }

  ghost predicate Told(q: Queue, events: seq<Event>) {
    && |q.handlers| == CallsIn(events) && q.started == StartsOf(events)
    && forall h: nat :: ToldOf(q, events, h)
  }

  lemma {:induction false} ToldAfter(q: Queue, events: seq<Event>, e: Event, h: nat)
    requires Invariant(q) && ToldOf(q, events, h) && Can(q, e)
    ensures ToldOf(Do(q, e), events + [e], h)
  {
    assert (events + [e])[..|events|] == events;
    if e.Splice? {
      RemoveFirstIncreasing(q.all, e.h);
    }
  }

  /** Whatever the run: a call is rejected exactly when its action was, resolved exactly when its action was, runs from
      its start on, and stays in the shared array until it is taken out. */
  lemma {:induction false} EventsTell(events: seq<Event>)
    requires Legal(EMPTY_QUEUE, events)
    ensures Told(Run(EMPTY_QUEUE, events), events)
  {
    if events != [] {
      var init, e := events[..|events| - 1], events[|events| - 1];
      assert events == init + [e];
      RunInit(EMPTY_QUEUE, init, e);
      EventsTell(init);
      RunKeepsInvariant(EMPTY_QUEUE, init);
      forall h: nat
        ensures ToldOf(Run(EMPTY_QUEUE, events), events, h)
      {
        ToldAfter(Run(EMPTY_QUEUE, init), init, e, h);
      }
    }
  }

  ghost predicate Finished(events: seq<Event>, h: nat) {
    Finish(h, true) in events || Finish(h, false) in events
  }

  /** The body of h has started, has not finished, and awaits no call that has not. */
  ghost predicate IsBusy(events: seq<Event>, h: nat) {
    && Event.Start(h) in events && !Finished(events, h)
    && (LastAwait(events, h).Some? ==> Finished(events, LastAwait(events, h).value))
  }

  /** What can happen next, told by what has happened: a call at any time, the end of a delay, the start of a body when
      all that it waits for has finished or one was rejected, an await or the end of a body that is not waiting, and the
      removal of a promise that is settled. */
  ghost predicate ComesNext(events: seq<Event>, pending: seq<nat>, e: Event) {
    match e
    case Call => true
    case DelayEnds(h) => h < CallsIn(events) && DelayEnds(h) !in events
    case Start(h) =>
      && DelayEnds(h) in events && Event.Start(h) !in events
      && (|| (forall k :: k in pending ==> Finished(events, k))
          || (exists k :: k in pending && Finish(k, false) in events))
    case Await(h, target) => IsBusy(events, h) && target < CallsIn(events)
    case Finish(h, _) => IsBusy(events, h)
    case Splice(h) => Finished(events, h) && Splice(h) !in events
  }

  lemma {:induction false} SettledTold(q: Queue, events: seq<Event>, h: nat)
    requires Told(q, events)
    ensures q.IsSettled(h) <==> Finished(events, h)
    ensures q.IsRejected(h) <==> Finish(h, false) in events
    ensures q.Has(h) && q.handlers[h].status == Delayed <==> h < CallsIn(events) && DelayEnds(h) !in events
    ensures q.Has(h) && q.handlers[h].status == WaitingForAll <==> DelayEnds(h) in events && Event.Start(h) !in events
    ensures q.IsRunning(h) <==> Event.Start(h) in events && !Finished(events, h)
  {
    assert ToldOf(q, events, h);
  }

  lemma {:induction false} AllSettlesTold(q: Queue, events: seq<Event>, pending: seq<nat>)
    requires Told(q, events)
    ensures q.AllSettles(pending) <==> (forall k :: k in pending ==> Finished(events, k))
                                       || (exists k :: k in pending && Finish(k, false) in events)
  {
    forall k: nat
      ensures (q.IsSettled(k) <==> Finished(events, k)) && (q.IsRejected(k) <==> Finish(k, false) in events)
    {
      SettledTold(q, events, k);
    }
    if k :| k in pending && Finish(k, false) in events {
      var i :| 0 <= i < |pending| && pending[i] == k;
      assert q.IsRejected(pending[i]);
    }
    if i :| 0 <= i < |pending| && q.IsRejected(pending[i]) {
      assert pending[i] in pending;
    }
    if forall i :: 0 <= i < |pending| ==> q.IsSettled(pending[i]) {
      forall k | k in pending
        ensures Finished(events, k)
      {
        var i :| 0 <= i < |pending| && pending[i] == k;
        assert q.IsSettled(pending[i]);
      }
    }
  }

  /** After every run exactly these events can follow. */
  lemma {:induction false} NextByEvents(events: seq<Event>, e: Event)
    requires Legal(EMPTY_QUEUE, events)
    ensures var q := Run(EMPTY_QUEUE, events);
            Can(q, e) <==> ComesNext(events, if e.Start? && q.Has(e.h) then q.handlers[e.h].pending else [], e)
  {
    EventsTell(events);
    var q := Run(EMPTY_QUEUE, events);
    if !e.Call? {
      SettledTold(q, events, e.h);
      assert ToldOf(q, events, e.h);
      if LastAwait(events, e.h).Some? {
        SettledTold(q, events, LastAwait(events, e.h).value);
      }
      if e.Start? && q.Has(e.h) {
        AllSettlesTold(q, events, q.handlers[e.h].pending);
      }
    }
  }

  /** No action was rejected. */
  ghost predicate NoneRejected(events: seq<Event>) {
    forall h: nat :: Finish(h, false) !in events
  }

  lemma {:induction false} NoneRejectedIff(events: seq<Event>)
    requires Legal(EMPTY_QUEUE, events)
    ensures NoRejection(Run(EMPTY_QUEUE, events)) <==> NoneRejected(events)
  {
    EventsTell(events);
    var q := Run(EMPTY_QUEUE, events);
    if NoneRejected(events) {
      forall h: nat | q.Has(h)
        ensures !q.IsRejected(h)
      {
        assert ToldOf(q, events, h);
      }
    } else {
      var h: nat :| Finish(h, false) in events;
      assert ToldOf(q, events, h);
    }
  }

  // ---------- one body at a time ----------

  /** In every interleaving, also with rejections and awaits: when two bodies run at once, the later
      call waits for a promise that was rejected. */
  lemma TwoBodiesOnlyAfterRejection(events: seq<Event>, first: nat, second: nat)
    requires Legal(EMPTY_QUEUE, events) && first < second
    requires Run(EMPTY_QUEUE, events).IsRunning(first) && Run(EMPTY_QUEUE, events).IsRunning(second)
    ensures exists r :: r in Run(EMPTY_QUEUE, events).handlers[second].pending && Finish(r, false) in events
  {
    RunKeepsInvariant(EMPTY_QUEUE, events);
    EventsTell(events);
    var q := Run(EMPTY_QUEUE, events);
    assert WaitsForEarlier(q, second);
    assert first in q.handlers[second].pending;
    var k :| 0 <= k < |q.handlers[second].pending| && q.handlers[second].pending[k] == first;
    assert q.HasStarted(second) && q.AllSettles(q.handlers[second].pending);
    var r :| r in q.handlers[second].pending && q.IsRejected(r);
    assert ToldOf(q, events, r);
  }

  /** A call that waits while an earlier one is not settled can start its body exactly when a promise that it
      waits for was rejected. */
  lemma OvertakesIff(events: seq<Event>, first: nat, second: nat)
    requires Legal(EMPTY_QUEUE, events) && first < second && !Run(EMPTY_QUEUE, events).IsSettled(first)
    requires var q := Run(EMPTY_QUEUE, events); q.Has(second) && q.handlers[second].status == WaitingForAll
    ensures var q := Run(EMPTY_QUEUE, events);
            Can(q, Start(second)) <==> exists r :: r in q.handlers[second].pending && Finish(r, false) in events
  {
    RunKeepsInvariant(EMPTY_QUEUE, events);
    EventsTell(events);
    var q := Run(EMPTY_QUEUE, events);
    assert WaitsForEarlier(q, second);
    var pending := q.handlers[second].pending;
    var k :| 0 <= k < |pending| && pending[k] == first;
    forall r: nat
      ensures q.IsRejected(r) <==> Finish(r, false) in events
    {
      assert ToldOf(q, events, r);
    }
    if r :| r in pending && q.IsRejected(r) {
      var i :| 0 <= i < |pending| && pending[i] == r;
      assert q.IsRejected(pending[i]);
    }
  }

  ghost predicate NoRejection(q: Queue) {
    forall h: nat :: q.Has(h) ==> !q.IsRejected(h)
  }

  /** As long as no action has been rejected, one body runs at a time. */
  lemma AtMostOneBody(events: seq<Event>, first: nat, second: nat)
    requires Legal(EMPTY_QUEUE, events) && NoneRejected(events)
    requires Run(EMPTY_QUEUE, events).IsRunning(first) && Run(EMPTY_QUEUE, events).IsRunning(second)
    ensures first == second
  {
    if first < second {
      TwoBodiesOnlyAfterRejection(events, first, second);
    } else if second < first {
      TwoBodiesOnlyAfterRejection(events, second, first);
    }
  }

  /** Bodies have started in call order, none skipped. */
  ghost predicate InCallOrder(q: Queue) {
    && (forall i :: 0 <= i < |q.started| ==> q.started[i] == i)
    && (forall h: nat :: q.HasStarted(h) <==> h < |q.started|)
  }

  lemma RejectionStays(q: Queue, e: Event)
    requires Can(q, e) && NoRejection(Do(q, e))
    ensures NoRejection(q)
  {
    forall h: nat | q.Has(h)
      ensures !q.IsRejected(h)
    {
      assert Do(q, e).Has(h);
    }
  }

  lemma StepKeepsOrder(q: Queue, e: Event)
    requires Invariant(q) && NoRejection(q) && InCallOrder(q) && Can(q, e)
    ensures InCallOrder(Do(q, e))
  {
    if e.Start? {
      var h, pending := e.h, q.handlers[e.h].pending;
      assert WaitsForEarlier(q, h);
      forall k: nat | k < h
        ensures q.HasStarted(k)
      {
        if k in pending {
          var i :| 0 <= i < |pending| && pending[i] == k;
          assert q.Has(pending[i]);
        }
      }
      assert !q.HasStarted(h) && (h > 0 ==> q.HasStarted(h - 1));
      assert h == |q.started|;
    }
    assert forall h: nat :: Do(q, e).HasStarted(h) <==> q.HasStarted(h) || (e.Start? && h == e.h);
  }

  lemma {:induction false} RunKeepsOrder(q: Queue, events: seq<Event>)
    requires Invariant(q) && InCallOrder(q) && Legal(q, events) && NoRejection(Run(q, events))
    ensures NoRejection(q) && InCallOrder(Run(q, events))
    decreases |events|
  {
    if events != [] {
      var q' := Do(q, events[0]);
      StepKeepsInvariant(q, events[0]);
      NoRejectionBefore(q', events[1..]);
      RejectionStays(q, events[0]);
      StepKeepsOrder(q, events[0]);
      RunKeepsOrder(q', events[1..]);
    }
  }

  lemma {:induction false} NoRejectionBefore(q: Queue, events: seq<Event>)
    requires Legal(q, events) && NoRejection(Run(q, events))
    ensures NoRejection(q)
    decreases |events|
  {
    if events != [] {
      NoRejectionBefore(Do(q, events[0]), events[1..]);
      RejectionStays(q, events[0]);
    }
  }

  /** Without rejections, bodies start in the order in which handle was called. */
  lemma BodiesStartInCallOrder(events: seq<Event>)
    requires Legal(EMPTY_QUEUE, events) && NoneRejected(events)
    ensures InCallOrder(Run(EMPTY_QUEUE, events))
    ensures forall i :: 0 <= i < |StartsOf(events)| ==> StartsOf(events)[i] == i
  {
    NoneRejectedIff(events);
    EventsTell(events);
    RunKeepsOrder(EMPTY_QUEUE, events);
  }

  // ---------- somebody can always proceed ----------

  /** h cannot go on before r is settled. */
  ghost predicate WaitsFor(q: Queue, h: nat, r: nat) {
    && q.Has(h) && !q.IsSettled(r)
    && ((!q.HasStarted(h) && r in q.handlers[h].pending) || (q.IsRunning(h) && q.handlers[h].awaits == Some(r)))
  }

  /** The next event of a call that is not settled. */
  function NextEvent(q: Queue, h: nat): Event
    requires q.Has(h) && !q.IsSettled(h)
  {
    match q.handlers[h].status
    case Delayed => DelayEnds(h)
    case WaitingForAll => Start(h)
    case Running => Finish(h, true)
  }

  ghost predicate IsOldest(q: Queue, h: nat) {
    q.Has(h) && !q.IsSettled(h) && forall k: nat :: k < h ==> q.IsSettled(k)
  }

  /** In every interleaving the oldest call that is not settled can take its next step, unless its body
      awaits a call that is not settled, which is then no older. */
  lemma OldestProceeds(events: seq<Event>, h: nat)
    requires Legal(EMPTY_QUEUE, events) && IsOldest(Run(EMPTY_QUEUE, events), h)
    ensures var q := Run(EMPTY_QUEUE, events);
            Can(q, NextEvent(q, h))
            <==> !exists r: nat :: r >= h && q.IsRunning(h) && q.handlers[h].awaits == Some(r) && !q.IsSettled(r)
  {
    RunKeepsInvariant(EMPTY_QUEUE, events);
    var q := Run(EMPTY_QUEUE, events);
    assert WaitsForEarlier(q, h);
    if q.handlers[h].status == WaitingForAll {
      forall i | 0 <= i < |q.handlers[h].pending|
        ensures q.IsSettled(q.handlers[h].pending[i])
      {
      }
    }
    if q.IsRunning(h) && q.handlers[h].awaits.Some? {
      var r := q.handlers[h].awaits.value;
      assert !q.IsSettled(r) ==> r >= h;
    }
  }

  /** Waiting goes from later calls to earlier ones, except where a body awaits. */
  lemma WaitsGoBack(events: seq<Event>, h: nat, r: nat)
    requires Legal(EMPTY_QUEUE, events) && WaitsFor(Run(EMPTY_QUEUE, events), h, r)
    ensures var q := Run(EMPTY_QUEUE, events); r < h || (q.IsRunning(h) && q.handlers[h].awaits == Some(r))
  {
    RunKeepsInvariant(EMPTY_QUEUE, events);
    assert WaitsForEarlier(Run(EMPTY_QUEUE, events), h);
  }

  // ---------- a body that awaits itself or a call it has made ----------

  /** h runs and awaits itself or a later call, everything before h has been resolved, nothing after h has begun. */
  ghost predicate Frozen(q: Queue, h: nat) {
    && q.IsRunning(h)
    && q.handlers[h].awaits.Some? && h <= q.handlers[h].awaits.value < |q.handlers|
    && (forall k: nat :: k < h ==> q.Has(k) && q.handlers[k].status == Settled(true))
    && (forall k: nat :: h < k < |q.handlers| ==> !q.HasStarted(k))
  }

  /** No later call can start. */
  lemma FrozenBlocks(q: Queue, h: nat, k: nat)
    requires Invariant(q) && Frozen(q, h) && h < k < |q.handlers|
    ensures !q.AllSettles(q.handlers[k].pending)
  {
    assert WaitsForEarlier(q, k);
    var pending := q.handlers[k].pending;
    assert h in pending;
    var i :| 0 <= i < |pending| && pending[i] == h;
    assert !q.IsSettled(pending[i]);
    forall j | 0 <= j < |pending|
      ensures !q.IsRejected(pending[j])
    {
      assert pending[j] < k;
      assert h < pending[j] ==> !q.HasStarted(pending[j]);
    }
  }

  lemma FrozenAwaits(q: Queue, h: nat)
    requires Frozen(q, h)
    ensures q.IsAwaiting(h)
  {
    var r := q.handlers[h].awaits.value;
    assert h < r ==> !q.HasStarted(r);
  }

  lemma {:induction false} StepKeepsFrozen(q: Queue, e: Event, h: nat)
    requires Invariant(q) && Frozen(q, h) && Can(q, e)
    ensures Frozen(Do(q, e), h)
  {
    FrozenAwaits(q, h);
    SettledForGood(q, e, []);
    if e.Start? {
      assert h < e.h;
      FrozenBlocks(q, h, e.h);
    }
    var q' := Do(q, e);
    assert q'.handlers[h] == q.handlers[h];
    forall k: nat | h < k < |q'.handlers|
      ensures !q'.HasStarted(k)
    {
      assert k < |q.handlers| ==> !q.HasStarted(k);
    }
  }

  /** Such a wait never ends: whatever happens next, the body goes on waiting and no later call starts. */
  lemma {:induction false} AwaitingItselfOrLaterNeverEnds(q: Queue, h: nat, events: seq<Event>)
    requires Invariant(q) && Frozen(q, h) && Legal(q, events)
    ensures Frozen(Run(q, events), h)
    decreases |events|
  {
    if events != [] {
      StepKeepsInvariant(q, events[0]);
      StepKeepsFrozen(q, events[0], h);
      AwaitingItselfOrLaterNeverEnds(Do(q, events[0]), h, events[1..]);
    }
  }

  /** The two calls wait for each other, or the one for itself. */
  lemma AwaitingItselfOrLaterIsACycle(q: Queue, h: nat)
    requires Invariant(q) && Frozen(q, h)
    ensures var r := q.handlers[h].awaits.value; WaitsFor(q, h, r) && WaitsFor(q, r, h)
  {
    FrozenAwaits(q, h);
    var r := q.handlers[h].awaits.value;
    assert WaitsForEarlier(q, r);
    assert h < r ==> !q.HasStarted(r);
  }

  // ---------- the queue drains ----------

  /** How many steps a call still has to take, its splice included. */
  function StepsLeft(q: Queue, h: nat): nat
    requires q.Has(h)
  {
    match q.handlers[h].status
    case Delayed => 4
    case WaitingForAll => 3
    case Running => 2
    case Settled(_) => if h in q.all then 1 else 0
  }

  function TotalLeft(q: Queue, n: nat): nat
    requires n <= |q.handlers|
  {
    if n == 0 then 0 else TotalLeft(q, n - 1) + StepsLeft(q, n - 1)
  }

  lemma {:induction false} OneStepLess(q: Queue, q': Queue, h: nat, n: nat)
    requires q.Has(h) && |q'.handlers| == |q.handlers| && n <= |q.handlers|
    requires forall k: nat :: k < |q.handlers|
               ==> StepsLeft(q', k) == if k == h then StepsLeft(q, k) - 1 else StepsLeft(q, k)
    ensures TotalLeft(q', n) == if h < n then TotalLeft(q, n) - 1 else TotalLeft(q, n)
  {
    if n > 0 {
      OneStepLess(q, q', h, n - 1);
    }
  }

  /** Every step other than a new call or an await uses up one of the steps left, so a queue that gets no
      new call comes to rest. */
  lemma {:induction false} EachStepCounts(q: Queue, e: Event)
    requires Invariant(q) && Can(q, e) && !e.Call? && !e.Await?
    ensures |Do(q, e).handlers| == |q.handlers|
    ensures TotalLeft(Do(q, e), |q.handlers|) == TotalLeft(q, |q.handlers|) - 1
  {
    RemoveFirstIncreasing(q.all, e.h);
    OneStepLess(q, Do(q, e), e.h, |q.handlers|);
  }

  /** Nothing can happen any more but new calls and awaits. */
  ghost predicate AtRest(q: Queue) {
    forall e :: Can(q, e) ==> e.Call? || e.Await?
  }

  /** At rest every call is settled and the shared array is empty, exactly when no body is left awaiting. */
  lemma AtRestAllIsDone(events: seq<Event>)
    requires Legal(EMPTY_QUEUE, events) && AtRest(Run(EMPTY_QUEUE, events))
    ensures var q := Run(EMPTY_QUEUE, events);
            (q.all == [] && forall h: nat :: q.Has(h) ==> q.IsSettled(h))
            <==> forall h: nat :: q.Has(h) ==> !q.IsAwaiting(h)
  {
    RunKeepsInvariant(EMPTY_QUEUE, events);
    var q := Run(EMPTY_QUEUE, events);
    if forall h: nat :: q.Has(h) ==> !q.IsAwaiting(h) {
      if h: nat :| q.Has(h) && !q.IsSettled(h) {
        SomebodyProceeds(events, h);
      } else if q.all != [] {
        SpliceProceeds(q, q.all[0]);
      }
    }
  }

  lemma SomebodyProceeds(events: seq<Event>, h: nat)
    requires Legal(EMPTY_QUEUE, events) && Run(EMPTY_QUEUE, events).Has(h) && !Run(EMPTY_QUEUE, events).IsSettled(h)
    requires forall k: nat :: Run(EMPTY_QUEUE, events).Has(k) ==> !Run(EMPTY_QUEUE, events).IsAwaiting(k)
    ensures exists e :: Can(Run(EMPTY_QUEUE, events), e) && !e.Call? && !e.Await?
  {
    var q := Run(EMPTY_QUEUE, events);
    var oldest := Oldest(q, h);
    OldestProceeds(events, oldest);
    assert !q.IsAwaiting(oldest);
    assert Can(q, NextEvent(q, oldest));
  }

  lemma SpliceProceeds(q: Queue, h: nat)
    requires h in q.all && q.IsSettled(h)
    ensures exists e :: Can(q, e) && !e.Call? && !e.Await?
  {
    assert Can(q, Splice(h));
  }

  lemma {:induction false} Oldest(q: Queue, h: nat) returns (oldest: nat)
    requires q.Has(h) && !q.IsSettled(h)
    ensures IsOldest(q, oldest)
  {
    if k: nat :| k < h && !q.IsSettled(k) {
      oldest := Oldest(q, k);
    } else {
      oldest := h;
    }
  }

  // ---------- runs that show the hypotheses are needed ----------

  ghost predicate Reaches(q: Queue) {
    exists events :: Legal(EMPTY_QUEUE, events) && Run(EMPTY_QUEUE, events) == q
  }

  lemma Then(q: Queue, e: Event) returns (q': Queue)
    requires Reaches(q) && Can(q, e)
    ensures q' == Do(q, e) && Reaches(q')
  {
    var events :| Legal(EMPTY_QUEUE, events) && Run(EMPTY_QUEUE, events) == q;
    RunSnoc(EMPTY_QUEUE, events, e);
    q' := Do(q, e);
    assert Run(EMPTY_QUEUE, events + [e]) == q';
  }

  lemma EmptyIsReached()
    ensures Reaches(EMPTY_QUEUE)
  {
    assert Legal(EMPTY_QUEUE, []) && Run(EMPTY_QUEUE, []) == EMPTY_QUEUE;
  }

  lemma {:induction false} FirstRejected() returns (q: Queue)
    ensures Reaches(q) && |q.handlers| == 3 && q.IsRejected(0)
    ensures q.handlers[1] == Handler([0], Delayed, None) && q.handlers[2] == Handler([0, 1], Delayed, None)
  {
    EmptyIsReached();
    var q1 := Then(EMPTY_QUEUE, Call);
    var q2 := Then(q1, Call);
    var q3 := Then(q2, Call);
    var q4 := Then(q3, DelayEnds(0));
    var q5 := Then(q4, Start(0));
    q := Then(q5, Finish(0, false));
  }

  /** Three calls: when the first action is rejected, the other two run at once. */
  lemma RejectionStartsTwo()
    ensures exists q :: Reaches(q) && q.IsRunning(1) && q.IsRunning(2)
  {
    var q1 := FirstRejected();
    var q2 := Then(q1, DelayEnds(1));
    var q3 := Then(q2, DelayEnds(2));
    assert q3.handlers[1].pending[0] == 0 && q3.IsRejected(q3.handlers[1].pending[0]);
    var q4 := Then(q3, Start(1));
    assert q4.handlers[2].pending[0] == 0 && q4.IsRejected(q4.handlers[2].pending[0]);
    var q5 := Then(q4, Start(2));
  }

  /** A body that calls handle and awaits the result blocks the queue for good. */
  lemma NestedAwaitFreezes()
    ensures exists q :: Reaches(q) && Frozen(q, 0)
  {
    EmptyIsReached();
    var q1 := Then(EMPTY_QUEUE, Call);
    var q2 := Then(q1, DelayEnds(0));
    var q3 := Then(q2, Start(0));
    var q4 := Then(q3, Call);
    var q5 := Then(q4, Await(0, 1));
    assert Frozen(q5, 0);
  }

  // ---------- the shared array in place ----------

  /** The scope that handlers share: $actionPromises is pushed to and spliced by callbacks. */
  class ActionScope {
    var handlers: seq<Handler>
    var actionPromises: seq<nat>
    ghost var started: seq<nat>

    ghost function Snapshot(): Queue
      reads this
    {
      Queue(handlers, actionPromises, started)
    }

    constructor ()
      ensures Snapshot() == EMPTY_QUEUE
    {
      handlers := [];
      actionPromises := [];
      started := [];
    }

    /** handle, up to the return of its promise. */
    method Handle() returns (promise: nat)
      modifies this
      ensures promise == |old(handlers)| && Snapshot() == Do(old(Snapshot()), Call)
    {
      var pending := actionPromises;
      promise := |handlers|;
      actionPromises := actionPromises + [promise];
      handlers := handlers + [Handler(pending, Delayed, None)];
    }

    /** The timeout of waitForActions, once no request is pending. */
    method OnTimeout(h: nat)
      requires Can(Snapshot(), DelayEnds(h))
      modifies this
      ensures Snapshot() == Do(old(Snapshot()), DelayEnds(h))
    {
      handlers := handlers[h := handlers[h].(status := WaitingForAll)];
    }

    /** The callback of waitForActions: _handleAction is called. */
    method OnAllSettled(h: nat)
      requires Can(Snapshot(), Start(h))
      modifies this
      ensures Snapshot() == Do(old(Snapshot()), Start(h))
    {
      handlers := handlers[h := handlers[h].(status := Running)];
      started := started + [h];
    }

    /** The promise of the action is settled, and the one of handle with it. */
    method OnActionDone(h: nat, ok: bool)
      requires Can(Snapshot(), Finish(h, ok))
      modifies this
      ensures Snapshot() == Do(old(Snapshot()), Finish(h, ok))
    {
      handlers := handlers[h := handlers[h].(status := Settled(ok))];
    }

    /** The timeout set by done. */
    method OnDone(h: nat)
      requires Snapshot().IsSettled(h)
      modifies this
      ensures Snapshot() == if h in old(actionPromises) then Do(old(Snapshot()), Splice(h)) else old(Snapshot())
    {
      var i := 0;
      while i < |actionPromises| && actionPromises[i] != h
        invariant 0 <= i <= |actionPromises| && h !in actionPromises[..i]
      {
        i := i + 1;
      }
      if i < |actionPromises| {
        RemoveFirstAt(actionPromises, i);
        actionPromises := actionPromises[..i] + actionPromises[i + 1..];
      }
    }
  }

  lemma {:induction false} RemoveFirstAt(s: seq<nat>, i: nat)
    requires i < |s| && s[i] !in s[..i]
    ensures RemoveFirst(s, s[i]) == s[..i] + s[i + 1..]
  {
    if i > 0 {
      assert s[..i] == [s[0]] + s[1..][..i - 1];
      RemoveFirstAt(s[1..], i - 1);
    }
  }
}
