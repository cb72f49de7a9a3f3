/**
 * What every run of the asynchronous client keeps, for every plan of its callbacks.
 */
module AsyncRuns {
  import opened Basics
  import opened AsyncProtocol

  /** The callbacks of a log, in order. */
  ghost function Callbacks(log: seq<Delivery>): seq<Callback> {
    seq(|log|, i requires 0 <= i < |log| => log[i].cb)
  }

  /** How many of the logged callbacks had a function to invoke. */
  ghost function Invocations(log: seq<Delivery>): nat {
    if log == [] then 0
    else Invocations(log[..|log| - 1]) + (if log[|log| - 1].cb.fn then 1 else 0)
  }

  /** One more than the position of the last delivery that carried a reply. */
  ghost function Answered(log: seq<Delivery>): (k: nat)
    ensures k <= |log|
  {
    if log == [] then 0
    else if log[|log| - 1].reply.Some? then |log|
    else Answered(log[..|log| - 1])
  }

  /** Delivery n carries reply n of the wire as long as there are replies, NULL afterwards. */
  ghost predicate InOrder(log: seq<Delivery>, wire: seq<Reply>) {
    && Answered(log) <= |wire|
    && forall i :: 0 <= i < |log| ==> log[i].reply == if i < Answered(log) then Some(wire[i]) else None
  }

  ghost predicate Conserved(c: Ctx) {
    c.accepted == Callbacks(c.log) + c.queue
  }

  ghost predicate Books(c: Ctx) {
    Conserved(c) && c.runs == Invocations(c.log) && !c.inCallback && (c.cerr == 0 ==> c.err == 0)
  }

  /** The invariant, against all replies that have arrived so far. */
  ghost predicate Good(c: Ctx, wire: seq<Reply>) {
    && Books(c)
    && InOrder(c.log, wire)
    && (c.phase.Open? && c.cerr == 0 ==> Answered(c.log) == |c.log| == |wire|)
    && (c.phase.Freed? ==> c.queue == [])
    && !c.phase.Dirty?
    && (c.phase.Freed? && c.err == 0 && !c.freeing ==> Answered(c.log) == |c.log|)
  }

  // ---------------------------------------------------------------- logs

  lemma CallbacksGrow(log: seq<Delivery>, d: Delivery)
    ensures Callbacks(log + [d]) == Callbacks(log) + [d.cb]
  {
  }

  lemma LogGrows(log: seq<Delivery>, d: Delivery)
    ensures Invocations(log + [d]) == Invocations(log) + (if d.cb.fn then 1 else 0)
    ensures Answered(log + [d]) == if d.reply.Some? then |log| + 1 else Answered(log)
  {
    assert (log + [d])[..|log|] == log;
  }

  lemma LaterReplies(log: seq<Delivery>, wire: seq<Reply>, more: seq<Reply>)
    requires InOrder(log, wire)
    ensures InOrder(log, wire + more)
  {
  }

  // ---------------------------------------------------------------- callbacks

  /** What user code cannot touch from inside a callback, and what it can only raise. */
  ghost predicate Reentrant(c: Ctx, d: Ctx) {
    && d.log == c.log && d.runs == c.runs && d.phase == c.phase && d.cerr == c.cerr && d.err == c.err
    && d.inCallback == c.inCallback
    && (c.disconnecting ==> d.disconnecting) && (c.freeing ==> d.freeing)
    && (d.noAutoFree ==> c.noAutoFree)
    && (Closing(c) ==> d.queue == c.queue && d.accepted == c.accepted && d.unsent == c.unsent)
    && (Conserved(c) ==> Conserved(d))
  }

  lemma PerformReentrant(c: Ctx, act: Act)
    ensures Reentrant(c, Perform(c, act))
  {
    match act
    case Command(cb) => assert Callbacks(c.log) + (c.queue + [cb]) == Callbacks(c.log) + c.queue + [cb];
    case _ =>
  }

  lemma {:induction false} PerformAllReentrant(c: Ctx, acts: seq<Act>)
    ensures Reentrant(c, PerformAll(c, acts))
    decreases |acts|
  {
    if acts != [] {
      PerformReentrant(c, acts[0]);
      PerformAllReentrant(Perform(c, acts[0]), acts[1..]);
    }
  }

  /** One callback leaves the queue, whatever it does while it runs. */
  ghost predicate OneConsumed(c: Ctx, d: Ctx, reply: Option<Reply>)
    requires c.queue != []
  {
    && d.log == c.log + [Delivery(c.queue[0], reply)]
    && d.phase == c.phase && d.cerr == c.cerr && d.err == c.err
    && (c.disconnecting ==> d.disconnecting) && (c.freeing ==> d.freeing)
    && (d.noAutoFree ==> c.noAutoFree)
    && (Closing(c) ==> d.queue == c.queue[1..] && d.accepted == c.accepted && d.unsent == c.unsent)
    && (Books(c) ==> Books(d))
  }

  lemma ShiftConserves(c: Ctx, reply: Option<Reply>)
    requires c.queue != [] && Conserved(c)
    ensures Conserved(Shifted(c, reply))
  {
    CallbacksGrow(c.log, Delivery(c.queue[0], reply));
    assert c.queue == [c.queue[0]] + c.queue[1..];
    assert Callbacks(c.log) + ([c.queue[0]] + c.queue[1..]) == Callbacks(c.log) + [c.queue[0]] + c.queue[1..];
  }

  lemma ConsumeOne(plan: Plan, c: Ctx, reply: Option<Reply>)
    requires c.queue != []
    ensures OneConsumed(c, Consume(plan, c, reply), reply)
  {
    ShiftOne(c, reply);
    var s := Shifted(c, reply);
    if c.queue[0].fn { PerformAllReentrant(s.(inCallback := true, runs := s.runs + 1), plan(s.runs)); }
  }

  lemma ShiftOne(c: Ctx, reply: Option<Reply>)
    requires c.queue != []
    ensures Conserved(c) ==> Conserved(Shifted(c, reply))
    ensures Invocations(Shifted(c, reply).log) == Invocations(c.log) + (if c.queue[0].fn then 1 else 0)
  {
    if Conserved(c) { ShiftConserves(c, reply); }
    LogGrows(c.log, Delivery(c.queue[0], reply));
  }

  // ---------------------------------------------------------------- draining

  /** Pending callbacks were consumed with NULL, and nothing else happened. */
  ghost predicate Drained(c: Ctx, d: Ctx) {
    && d.phase == c.phase && d.cerr == c.cerr && d.err == c.err
    && (c.disconnecting ==> d.disconnecting) && (c.freeing ==> d.freeing)
    && (d.noAutoFree ==> c.noAutoFree)
    && (Closing(c) ==> d.accepted == c.accepted)
    && (Books(c) ==> Books(d))
    && |c.log| <= |d.log| && d.log[..|c.log|] == c.log
    && Answered(d.log) == Answered(c.log)
    && forall i :: |c.log| <= i < |d.log| ==> d.log[i].reply == None
  }

  lemma {:induction false} DrainDrains(plan: Plan, c: Ctx, n: nat)
    ensures Drained(c, DrainFor(plan, c, n))
    ensures Closing(c) ==> |DrainFor(plan, c, n).queue| == if n <= |c.queue| then |c.queue| - n else 0
    decreases n
  {
    if n > 0 && c.queue != [] {
      var d := Consume(plan, c, None);
      ConsumeOne(plan, c, None);
      LogGrows(c.log, Delivery(c.queue[0], None));
      DrainDrains(plan, d, n - 1);
      var e := DrainFor(plan, d, n - 1);
      assert e.log[..|d.log|][..|c.log|] == c.log;
      assert forall i :: |c.log| <= i < |d.log| ==> e.log[i] == e.log[..|d.log|][i];
    }
  }

  lemma DrainUnfolds(plan: Plan, c: Ctx, n: nat)
    requires n > 0
    ensures c.queue == [] ==> DrainFor(plan, c, n) == c
    ensures c.queue != [] ==> DrainFor(plan, c, n) == DrainFor(plan, Consume(plan, c, None), n - 1)
  {
  }

  /** One round of a drain that refuses new commands. */
  lemma DrainRound(plan: Plan, c: Ctx)
    requires c.queue != [] && Closing(c)
    ensures var d := Consume(plan, c, None);
            Closing(d) && |d.queue| < |c.queue| && DrainFor(plan, c, |c.queue|) == DrainFor(plan, d, |d.queue|)
  {
    ConsumeOne(plan, c, None);
  }

  lemma DrainedInOrder(c: Ctx, d: Ctx, wire: seq<Reply>)
    requires Drained(c, d) && InOrder(c.log, wire)
    ensures InOrder(d.log, wire)
  {
    assert forall i :: 0 <= i < |c.log| ==> d.log[i] == d.log[..|c.log|][i];
  }

  // ---------------------------------------------------------------- closing

  /** Everything of Good but the claims about an open or a freed context. */
  ghost predicate Sound(c: Ctx, wire: seq<Reply>) {
    Books(c) && InOrder(c.log, wire) && c.phase.Open?
  }

  lemma FreeGood(plan: Plan, c: Ctx, wire: seq<Reply>)
    requires Sound(c, wire) && (Closing(c) || c.queue == [])
    requires c.err == 0 && !c.freeing ==> c.queue == [] && Answered(c.log) == |c.log|
    ensures Good(AsyncFree(plan, c), wire) && AsyncFree(plan, c).phase.Freed?
  {
    DrainDrains(plan, c, |c.queue|);
    DrainedInOrder(c, DrainFor(plan, c, |c.queue|), wire);
  }

  lemma DisconnectGood(plan: Plan, c: Ctx, wire: seq<Reply>)
    requires Sound(c, wire)
    requires c.cerr == 0 ==> c.queue == [] && Answered(c.log) == |c.log| == |wire|
    ensures Good(AsyncDisconnect(plan, c), wire)
    ensures AsyncDisconnect(plan, c).phase == if c.noAutoFree then Open else Freed
  {
    var c1 := c.(err := c.cerr);
    var c2 := if c1.err == 0 then c1 else c1.(disconnecting := true);
    if !c2.noAutoFree { FreeGood(plan, c2, wire); }
  }

  // ---------------------------------------------------------------- events

  lemma ConsumeInOrder(plan: Plan, c: Ctx, wire: seq<Reply>, r: Reply)
    requires c.queue != [] && Good(c, wire) && c.phase.Open? && c.cerr == 0
    ensures Good(Consume(plan, c, Some(r)), wire + [r])
  {
    ConsumeOne(plan, c, Some(r));
    LogGrows(c.log, Delivery(c.queue[0], Some(r)));
  }

  lemma {:induction false} ProcessGood(plan: Plan, c: Ctx, wire: seq<Reply>, batch: seq<Reply>, tail: Tail)
    requires Good(c, wire) && c.phase.Open? && c.cerr == 0
    requires tail.Fail? ==> tail.code != 0
    ensures Good(ProcessCallbacks(plan, c, batch, tail), wire + batch)
    decreases |batch|
  {
    if batch == [] {
      assert wire + batch == wire;
      match tail
      case NoMore => if c.disconnecting && !c.unsent && c.queue == [] { DisconnectGood(plan, c, wire); }
      case Fail(code) => DisconnectGood(plan, c.(cerr := code), wire);
    } else if c.queue == [] {
      LaterReplies(c.log, wire, batch);
      if batch[0].error { DisconnectGood(plan, c.(cerr := ERR_OTHER), wire + batch); }
    } else {
      var d := Consume(plan, c, Some(batch[0]));
      ConsumeInOrder(plan, c, wire, batch[0]);
      ConsumeOne(plan, c, Some(batch[0]));
      assert wire + [batch[0]] + batch[1..] == wire + batch;
      if c.queue[0].fn && d.freeing {
        LaterReplies(d.log, wire + [batch[0]], batch[1..]);
        FreeGood(plan, d, wire + batch);
      } else {
        ProcessGood(plan, d, wire + [batch[0]], batch[1..], tail);
      }
    }
  }

  lemma TimeoutGood(plan: Plan, c: Ctx, wire: seq<Reply>, configured: bool, rounds: nat)
    requires Good(c, wire) && c.phase.Open?
    ensures Good(HandleTimeout(plan, c, configured, rounds), wire)
  {
    if c.queue != [] && configured {
      var c1 := if c.cerr == 0 then c.(cerr := ERR_TIMEOUT, err := ERR_TIMEOUT) else c;
      DrainDrains(plan, c1, rounds);
      var d := DrainFor(plan, c1, rounds);
      DrainedInOrder(c1, d, wire);
      if d.queue == [] { DisconnectGood(plan, d, wire); }
    }
  }

  /** The replies that arrive with an event. */
  ghost function Arrivals(ev: Event): seq<Reply> {
    if ev.ReadData? then ev.batch else []
  }

  lemma CallGood(plan: Plan, c: Ctx, wire: seq<Reply>, act: Act)
    requires Good(c, wire) && c.phase.Open?
    ensures Good(Step(plan, c, Call(act)), wire)
  {
    match act
    case Command(cb) => PerformReentrant(c, act);
    case Disconnect =>
      if c.queue == [] { DisconnectGood(plan, c.(disconnecting := true, noAutoFree := false), wire); }
    case Free => FreeGood(plan, c.(freeing := true), wire);
  }

  lemma StepGood(plan: Plan, c: Ctx, wire: seq<Reply>, ev: Event)
    requires Good(c, wire) && c.phase.Open? && Proper(ev)
    ensures Good(Step(plan, c, ev), wire + Arrivals(ev))
  {
    if !ev.ReadData? { assert wire + [] == wire; }
    match ev
    case Call(act) => CallGood(plan, c, wire, act);
    case ReadFails(code) => DisconnectGood(plan, if c.cerr == 0 then c.(cerr := code) else c, wire);
    case WriteFails(code) => DisconnectGood(plan, if c.cerr == 0 then c.(cerr := code) else c, wire);
    case ReadData(batch, tail) =>
      if c.cerr != 0 {
        LaterReplies(c.log, wire, batch);
        DisconnectGood(plan, c, wire + batch);
      } else {
        ProcessGood(plan, c, wire, batch, tail);
      }
    case Written(_) => if c.cerr != 0 { DisconnectGood(plan, c, wire); }
    case Timeout(configured, rounds) => TimeoutGood(plan, c, wire, configured, rounds);
  }

  /** The invariant, for some replies. */
  ghost predicate Healthy(c: Ctx) {
    exists wire: seq<Reply> :: Good(c, wire)
  }

  lemma HealthyRests(c: Ctx)
    requires Healthy(c)
    ensures !c.inCallback
  {
  }

  lemma StepHealthy(plan: Plan, c: Ctx, ev: Event)
    requires Healthy(c) && c.phase.Open? && Proper(ev)
    ensures Healthy(Step(plan, c, ev))
  {
    var wire: seq<Reply> :| Good(c, wire);
    StepGood(plan, c, wire, ev);
  }

  lemma InitHealthy(noAutoFree: bool)
    ensures Healthy(Init(noAutoFree))
  {
    assert Good(Init(noAutoFree), []);
  }

  // ---------------------------------------------------------------- whole runs

  ghost predicate AllProper(evs: seq<Event>) {
    forall i :: 0 <= i < |evs| ==> Proper(evs[i])
  }

  /** Every reply that arrives over a run. */
  ghost function Wire(evs: seq<Event>): seq<Reply>
    decreases |evs|
  {
    if evs == [] then [] else Arrivals(evs[0]) + Wire(evs[1..])
  }

  lemma {:induction false} RunGood(plan: Plan, c: Ctx, wire: seq<Reply>, evs: seq<Event>)
    requires Good(c, wire) && AllProper(evs)
    ensures Good(Run(plan, c, evs), wire + Wire(evs))
    decreases |evs|
  {
    if evs == [] {
      assert wire + [] == wire;
    } else if c.phase.Open? {
      StepGood(plan, c, wire, evs[0]);
      RunGood(plan, Step(plan, c, evs[0]), wire + Arrivals(evs[0]), evs[1..]);
      assert wire + Arrivals(evs[0]) + Wire(evs[1..]) == wire + Wire(evs);
    } else {
      LaterReplies(c.log, wire, Wire(evs));
    }
  }

  lemma RunUnfolds(plan: Plan, c: Ctx, evs: seq<Event>, i: nat)
    requires i < |evs| && c.phase.Open?
    ensures Run(plan, c, evs[i..]) == Run(plan, Step(plan, c, evs[i]), evs[i + 1..])
  {
    assert evs[i..][1..] == evs[i + 1..];
  }

  lemma RunFromInit(plan: Plan, noAutoFree: bool, evs: seq<Event>)
    requires AllProper(evs)
    ensures Good(Run(plan, Init(noAutoFree), evs), Wire(evs))
  {
    RunGood(plan, Init(noAutoFree), [], evs);
    assert [] + Wire(evs) == Wire(evs);
  }

  /** The n-th callback consumed is the n-th command's, and the n-th reply goes to it. */
  lemma RepliesInOrder(plan: Plan, noAutoFree: bool, evs: seq<Event>, n: nat)
    requires AllProper(evs)
    requires n < |Run(plan, Init(noAutoFree), evs).log|
    ensures var c := Run(plan, Init(noAutoFree), evs);
            && n < |c.accepted| && c.log[n].cb == c.accepted[n]
            && (n < Answered(c.log) ==> n < |Wire(evs)| && c.log[n].reply == Some(Wire(evs)[n]))
            && (Answered(c.log) <= n ==> c.log[n].reply == None)
  {
    RunFromInit(plan, noAutoFree, evs);
    var c := Run(plan, Init(noAutoFree), evs);
    assert c.accepted[n] == Callbacks(c.log)[n];
  }

  /** No reply is skipped: while the connection is healthy every arrival has been delivered. */
  lemma NothingSkipped(plan: Plan, noAutoFree: bool, evs: seq<Event>)
    requires AllProper(evs)
    ensures var c := Run(plan, Init(noAutoFree), evs);
            c.phase.Open? && c.cerr == 0 ==> |c.log| == |Wire(evs)| <= |c.accepted| && c.accepted[|c.log|..] == c.queue
  {
    RunFromInit(plan, noAutoFree, evs);
    var c := Run(plan, Init(noAutoFree), evs);
    assert (Callbacks(c.log) + c.queue)[|c.log|..] == c.queue;
  }

  /** Once freed, every accepted command has been consumed once, invoked once if it has a
      function; after a clean disconnect every one of them got its own reply. */
  lemma FreedConsumesAll(plan: Plan, noAutoFree: bool, evs: seq<Event>)
    requires AllProper(evs) && Run(plan, Init(noAutoFree), evs).phase.Freed?
    ensures var c := Run(plan, Init(noAutoFree), evs);
            && c.accepted == Callbacks(c.log) && c.runs == Invocations(c.log)
            && (c.err == 0 && !c.freeing ==>
                  |c.log| <= |Wire(evs)| && forall i :: 0 <= i < |c.log| ==> c.log[i].reply == Some(Wire(evs)[i]))
  {
    RunFromInit(plan, noAutoFree, evs);
    var c := Run(plan, Init(noAutoFree), evs);
    assert Callbacks(c.log) + [] == Callbacks(c.log);
  }

  /** A disconnect without an error never finds a pending callback. */
  lemma CleanDisconnectAssertionHolds(plan: Plan, noAutoFree: bool, evs: seq<Event>)
    requires AllProper(evs)
    ensures !Run(plan, Init(noAutoFree), evs).phase.Dirty?
  {
    RunFromInit(plan, noAutoFree, evs);
  }

  /** A server that answers no more than was asked never trips the subscription assertion. */
  lemma {:induction false} SolicitedReplies(plan: Plan, c: Ctx, batch: seq<Reply>, tail: Tail)
    requires c.phase.Open? && |batch| <= |c.queue|
    ensures !ProcessCallbacks(plan, c, batch, tail).phase.Unsolicited?
    decreases |batch|
  {
    if batch == [] {
      var e := if tail.Fail? then c.(cerr := tail.code) else c;
      DisconnectPhase(plan, e);
    } else {
      var d := Consume(plan, c, Some(batch[0]));
      ConsumeOne(plan, c, Some(batch[0]));
      QueueKept(plan, c, Some(batch[0]));
      DrainDrains(plan, d, |d.queue|);
      if !(c.queue[0].fn && d.freeing) { SolicitedReplies(plan, d, batch[1..], tail); }
    }
  }

  lemma DisconnectPhase(plan: Plan, c: Ctx)
    ensures AsyncDisconnect(plan, c).phase in {c.phase, Freed, Dirty}
  {
  }

  lemma {:induction false} PerformAllQueue(c: Ctx, acts: seq<Act>)
    ensures c.queue <= PerformAll(c, acts).queue
    decreases |acts|
  {
    if acts != [] { PerformAllQueue(Perform(c, acts[0]), acts[1..]); }
  }

  lemma QueueKept(plan: Plan, c: Ctx, reply: Option<Reply>)
    requires c.queue != []
    ensures c.queue[1..] <= Consume(plan, c, reply).queue
  {
    var s := Shifted(c, reply);
    PerformAllQueue(s.(inCallback := true, runs := s.runs + 1), plan(s.runs));
  }

  // ---------------------------------------------------------------- closing is final

  ghost predicate Final(c: Ctx, d: Ctx) {
    && (c.disconnecting ==> d.disconnecting) && (c.freeing ==> d.freeing)
    && (Closing(c) ==> d.accepted == c.accepted)
  }

  lemma DisconnectFinal(plan: Plan, c: Ctx)
    ensures Final(c, AsyncDisconnect(plan, c))
  {
    var c1 := c.(err := c.cerr);
    var c2 := if c1.err == 0 then c1 else c1.(disconnecting := true);
    DrainDrains(plan, c2, |c2.queue|);
  }

  lemma {:induction false} ProcessFinal(plan: Plan, c: Ctx, batch: seq<Reply>, tail: Tail)
    ensures Final(c, ProcessCallbacks(plan, c, batch, tail))
    decreases |batch|
  {
    if batch == [] {
      DisconnectFinal(plan, c);
      DisconnectFinal(plan, if tail.Fail? then c.(cerr := tail.code) else c);
    } else if c.queue == [] {
      DisconnectFinal(plan, c.(cerr := ERR_OTHER));
    } else {
      var d := Consume(plan, c, Some(batch[0]));
      ConsumeOne(plan, c, Some(batch[0]));
      DrainDrains(plan, d, |d.queue|);
      if !(c.queue[0].fn && d.freeing) { ProcessFinal(plan, d, batch[1..], tail); }
    }
  }

  lemma TimeoutFinal(plan: Plan, c: Ctx, configured: bool, rounds: nat)
    ensures Final(c, HandleTimeout(plan, c, configured, rounds))
  {
    var c1 := if c.cerr == 0 then c.(cerr := ERR_TIMEOUT, err := ERR_TIMEOUT) else c;
    DrainDrains(plan, c1, rounds);
    DisconnectFinal(plan, DrainFor(plan, c1, rounds));
  }

  lemma StepFinal(plan: Plan, c: Ctx, ev: Event)
    ensures Final(c, Step(plan, c, ev))
  {
    match ev
    case Call(Command(_)) =>
    case Call(Disconnect) => DisconnectFinal(plan, c.(disconnecting := true, noAutoFree := false));
    case Call(Free) => DrainDrains(plan, c.(freeing := true), |c.queue|);
    case ReadFails(code) => DisconnectFinal(plan, if c.cerr == 0 then c.(cerr := code) else c);
    case WriteFails(code) => DisconnectFinal(plan, if c.cerr == 0 then c.(cerr := code) else c);
    case ReadData(batch, tail) => DisconnectFinal(plan, c); ProcessFinal(plan, c, batch, tail);
    case Written(_) => DisconnectFinal(plan, c);
    case Timeout(configured, rounds) => TimeoutFinal(plan, c, configured, rounds);
  }

  /** From the first disconnect or free on, no run ever accepts a command again. */
  lemma {:induction false} ClosingIsFinal(plan: Plan, c: Ctx, evs: seq<Event>)
    requires Closing(c)
    ensures Closing(Run(plan, c, evs)) && Run(plan, c, evs).accepted == c.accepted
    decreases |evs|
  {
    if evs != [] && c.phase.Open? {
      StepFinal(plan, c, evs[0]);
      ClosingIsFinal(plan, Step(plan, c, evs[0]), evs[1..]);
    }
  }

  // ---------------------------------------------------------------- clean disconnects

  /** After a disconnect request, once the output is sent, the replies to all pending commands
      complete the disconnect without an error and free the context. */
  lemma {:induction false} CleanDisconnectCompletes(plan: Plan, c: Ctx, batch: seq<Reply>)
    requires c.phase.Open? && c.cerr == 0 && !c.inCallback && !c.unsent && |batch| == |c.queue|
    requires c.disconnecting && !c.noAutoFree
    ensures var d := ProcessCallbacks(plan, c, batch, NoMore);
            d.phase.Freed? && d.cerr == 0 && (!d.freeing ==> |d.log| == |c.log| + |batch|)
    decreases |batch|
  {
    if batch != [] {
      var d := Consume(plan, c, Some(batch[0]));
      ConsumeOne(plan, c, Some(batch[0]));
      RestingConsume(plan, c, Some(batch[0]));
      if c.queue[0].fn && d.freeing {
        DrainDrains(plan, d, |d.queue|);
      } else {
        CleanDisconnectCompletes(plan, d, batch[1..]);
      }
    }
  }

  lemma RestingConsume(plan: Plan, c: Ctx, reply: Option<Reply>)
    requires c.queue != [] && !c.inCallback
    ensures !Consume(plan, c, reply).inCallback
  {
  }

  lemma UserDisconnectClears(plan: Plan, c: Ctx)
    requires c.phase.Open?
    ensures var d := UserDisconnect(plan, c); d.disconnecting && !d.noAutoFree
  {
    var c1 := c.(disconnecting := true, noAutoFree := false);
    DrainDrains(plan, c1.(err := c1.cerr), |c.queue|);
  }

  /** It is not completed before: a batch closes the context without an error and without a
      free only when it was asked to disconnect, nothing is pending and nothing is unsent. */
  lemma {:induction false} CleanDisconnectWaits(plan: Plan, c: Ctx, batch: seq<Reply>, tail: Tail)
    requires c.phase.Open? && c.cerr == 0 && (tail.Fail? ==> tail.code != 0)
    ensures var d := ProcessCallbacks(plan, c, batch, tail);
            d.phase.Freed? && d.cerr == 0 && !d.freeing ==> d.disconnecting && !d.unsent && d.queue == []
    decreases |batch|
  {
    if batch == [] {
      if tail.Fail? {
        var c1 := c.(cerr := tail.code, err := tail.code, disconnecting := true);
        DrainDrains(plan, c1, |c1.queue|);
      }
    } else if c.queue != [] {
      var d := Consume(plan, c, Some(batch[0]));
      ConsumeOne(plan, c, Some(batch[0]));
      if c.queue[0].fn && d.freeing {
        DrainDrains(plan, d, |d.queue|);
      } else {
        CleanDisconnectWaits(plan, d, batch[1..], tail);
      }
    }
  }

  // ---------------------------------------------------------------- when draining ends

  ghost predicate Ends(plan: Plan, c: Ctx) {
    exists n: nat :: DrainFor(plan, c, n).queue == []
  }

  ghost predicate AnyFunction(queue: seq<Callback>) {
    exists i :: 0 <= i < |queue| && queue[i].fn
  }

  /** The plan in which every callback issues one more command. */
  ghost function Endless(): Plan {
    n => [Command(Callback(true, 0))]
  }

  lemma {:induction false} EndlessDrain(c: Ctx, n: nat)
    requires !Closing(c) && AnyFunction(c.queue)
    ensures DrainFor(Endless(), c, n).queue != []
    decreases n
  {
    if n > 0 {
      var d := Consume(Endless(), c, None);
      var i :| 0 <= i < |c.queue| && c.queue[i].fn;
      if c.queue[0].fn {
        var s := Shifted(c, None);
        var t := s.(inCallback := true, runs := s.runs + 1);
        assert PerformAll(t, Endless()(c.runs)) == Issue(t, Callback(true, 0)) by {
          assert Endless()(c.runs) == [Command(Callback(true, 0))];
          assert PerformAll(Issue(t, Callback(true, 0)), []) == Issue(t, Callback(true, 0));
        }
        assert d.queue[|d.queue| - 1].fn;
      } else {
        assert d.queue[i - 1].fn;
      }
      EndlessDrain(d, n - 1);
    }
  }

  lemma {:induction false} SilentDrain(plan: Plan, c: Ctx, n: nat)
    requires !AnyFunction(c.queue)
    ensures DrainFor(plan, c, n).queue == if n <= |c.queue| then c.queue[n..] else []
    ensures DrainFor(plan, c, n).freeing == c.freeing
    decreases n
  {
    if n > 0 && c.queue != [] {
      assert forall i :: 0 <= i < |c.queue[1..]| ==> c.queue[1..][i] == c.queue[i + 1];
      SilentDrain(plan, Consume(plan, c, None), n - 1);
    }
  }

  /** A loop that runs the pending callbacks ends under every plan exactly when new commands
      are refused or there is no callback to run.  The free path always meets this; the
      timeout handler need not. */
  lemma DrainEndsIff(c: Ctx)
    ensures (forall plan: Plan :: Ends(plan, c)) <==> Closing(c) || !AnyFunction(c.queue)
  {
    if Closing(c) || !AnyFunction(c.queue) {
      forall plan: Plan ensures Ends(plan, c) {
        if Closing(c) { DrainDrains(plan, c, |c.queue|); } else { SilentDrain(plan, c, |c.queue|); }
        assert DrainFor(plan, c, |c.queue|).queue == [];
      }
    } else {
      forall n: nat ensures DrainFor(Endless(), c, n).queue != [] {
        EndlessDrain(c, n);
      }
      assert !Ends(Endless(), c);
    }
  }

  // ---------------------------------------------------------------- deferred free

  /** A free requested from a callback is carried out before the event is over, except
      by the timeout handler of a context that is not freed automatically. */
  lemma {:induction false} ProcessFrees(plan: Plan, c: Ctx, batch: seq<Reply>, tail: Tail)
    requires c.phase.Open? && !c.freeing
    ensures var d := ProcessCallbacks(plan, c, batch, tail); d.freeing ==> d.phase.Freed?
    decreases |batch|
  {
    if batch != [] && c.queue != [] {
      var d := Consume(plan, c, Some(batch[0]));
      ConsumeOne(plan, c, Some(batch[0]));
      if !d.freeing { ProcessFrees(plan, d, batch[1..], tail); }
    }
  }

  lemma FreeIsCarriedOut(plan: Plan, c: Ctx, ev: Event)
    requires c.phase.Open? && !c.freeing && !c.inCallback && !ev.Timeout?
    ensures Step(plan, c, ev).freeing ==> Step(plan, c, ev).phase.Freed?
  {
    if ev.ReadData? && c.cerr == 0 { ProcessFrees(plan, c, ev.batch, ev.tail); }
  }

  /** The plan in which every callback asks for the context to be freed. */
  ghost function AskFree(): Plan {
    n => [Free]
  }

  lemma {:induction false} AskFreeDrain(c: Ctx, n: nat)
    requires n <= |c.queue|
    ensures var d := DrainFor(AskFree(), c, n);
            && d.queue == c.queue[n..] && d.noAutoFree == c.noAutoFree && d.phase == c.phase
            && (d.freeing <==> c.freeing || AnyFunction(c.queue[..n]))
    decreases n
  {
    if n > 0 {
      var s, d := Shifted(c, None), Consume(AskFree(), c, None);
      var t := s.(inCallback := true, runs := s.runs + 1);
      assert PerformAll(t, AskFree()(c.runs)) == t.(freeing := true) by {
        assert AskFree()(c.runs) == [Free];
        assert PerformAll(t.(freeing := true), []) == t.(freeing := true);
      }
      AskFreeDrain(d, n - 1);
      assert c.queue[..n] == [c.queue[0]] + d.queue[..n - 1];
      AnyFunctionFront(c.queue[0], d.queue[..n - 1]);
    }
  }

  lemma AnyFunctionFront(cb: Callback, rest: seq<Callback>)
    ensures AnyFunction([cb] + rest) <==> cb.fn || AnyFunction(rest)
  {
    if cb.fn { assert ([cb] + rest)[0].fn; }
    if AnyFunction(rest) {
      var i :| 0 <= i < |rest| && rest[i].fn;
      assert ([cb] + rest)[i + 1].fn;
    }
  }

  ghost predicate TimeoutFrees(plan: Plan, c: Ctx, configured: bool, rounds: nat) {
    var d := HandleTimeout(plan, c, configured, rounds); d.freeing ==> d.phase.Freed? || d.phase.Draining?
  }

  lemma TimeoutFreesIff(c: Ctx, configured: bool)
    requires c.phase.Open? && !c.freeing
    ensures (forall plan: Plan, rounds: nat :: TimeoutFrees(plan, c, configured, rounds))
       <==> !configured || !c.noAutoFree || !AnyFunction(c.queue)
  {
    var c1 := if c.cerr == 0 then c.(cerr := ERR_TIMEOUT, err := ERR_TIMEOUT) else c;
    if configured && c.noAutoFree && AnyFunction(c.queue) {
      AskFreeDrain(c1, |c.queue|);
      assert c.queue[..|c.queue|] == c.queue;
      assert !TimeoutFrees(AskFree(), c, configured, |c.queue|);
    } else {
      forall plan: Plan, rounds: nat ensures TimeoutFrees(plan, c, configured, rounds) {
        DrainDrains(plan, c1, rounds);
        if !AnyFunction(c.queue) { SilentDrain(plan, c1, rounds); }
      }
    }
  }

  /** Both conditions fail in a context that occurs: one command with a callback on a context
      that is not freed automatically. */
  lemma UnendedDrainOccurs(plan: Plan)
    ensures var c := Run(plan, Init(true), [Call(Command(Callback(true, 0)))]);
            && AllProper([Call(Command(Callback(true, 0)))]) && c.phase.Open?
            && !(forall other: Plan :: Ends(other, c))
            && !(forall other: Plan, rounds: nat :: TimeoutFrees(other, c, true, rounds))
  {
    var cb := Callback(true, 0);
    var c := Run(plan, Init(true), [Call(Command(cb))]);
    assert [Call(Command(cb))][1..] == [];
    assert Run(plan, Issue(Init(true), cb), []) == Issue(Init(true), cb) == c;
    assert c.queue == [cb] && c.queue[0].fn && AnyFunction(c.queue);
    DrainEndsIff(c);
    TimeoutFreesIff(c, true);
  }
}
