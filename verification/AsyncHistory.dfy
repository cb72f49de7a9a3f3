/**
 * What the asynchronous client has done after an event, in terms of what happened to it: the
 * events from outside, the replies, and the plan of the callbacks. Which commands were accepted,
 * which flags are up, what is unsent, and which callback got which reply.
 */
module AsyncHistory {
  import opened Basics
  import opened AsyncProtocol
  import opened AsyncRuns

  // ---------------------------------------------------------------- what user code asked for

  /** The callbacks of the commands that come before the first disconnect or free. */
  ghost function Commands(acts: seq<Act>): seq<Callback> {
    if acts == [] || !acts[0].Command? then [] else [acts[0].cb] + Commands(acts[1..])
  }

  ghost predicate Closes(acts: seq<Act>) {
    Disconnect in acts || Free in acts
  }

  lemma {:induction false} CommandsSplit(a: seq<Act>, b: seq<Act>)
    ensures Commands(a + b) == Commands(a) + if Closes(a) then [] else Commands(b)
    decreases |a|
  {
    if a == [] {
      assert a + b == b;
    } else {
      assert (a + b)[1..] == a[1..] + b;
      assert a == [a[0]] + a[1..];
      if a[0].Command? { CommandsSplit(a[1..], b); }
    }
  }

  /** What the callbacks with numbers from `from` on, up to `until` do, one after the other. */
  ghost function Planned(plan: Plan, from: nat, until: nat): seq<Act>
    decreases until
  {
    if until <= from then [] else Planned(plan, from, until - 1) + plan(until - 1)
  }

  lemma {:induction false} PlannedSplit(plan: Plan, from: nat, mid: nat, until: nat)
    requires from <= mid <= until
    ensures Planned(plan, from, until) == Planned(plan, from, mid) + Planned(plan, mid, until)
    decreases until
  {
    if mid < until {
      PlannedSplit(plan, from, mid, until - 1);
    }
  }

  /** From `c` to `d` these commands were taken, unless the context refused them. */
  ghost predicate Took(c: Ctx, d: Ctx, commands: seq<Callback>) {
    && d.accepted == c.accepted + (if Closing(c) then [] else commands)
    && (d.unsent <==> c.unsent || |d.accepted| > |c.accepted|)
  }

  /** From `c` to `d` the flags rose as these acts ask for, and as an error does. */
  ghost predicate Flagged(c: Ctx, d: Ctx, acts: seq<Act>, failed: bool) {
    && (d.disconnecting <==> c.disconnecting || Disconnect in acts || failed)
    && (d.freeing <==> c.freeing || Free in acts)
    && (d.noAutoFree <==> c.noAutoFree && Disconnect !in acts)
  }

  /** From `c` to `d` user code has done exactly these things. */
  ghost predicate Did(c: Ctx, d: Ctx, acts: seq<Act>) {
    Took(c, d, Commands(acts)) && Flagged(c, d, acts, false)
  }

  lemma TookBoth(c: Ctx, d: Ctx, e: Ctx, x: seq<Callback>, y: seq<Callback>, closes: bool)
    requires Took(c, d, x) && Took(d, e, y) && (Closing(d) <==> Closing(c) || closes)
    ensures Took(c, e, x + if closes then [] else y)
  {
  }

  lemma FlaggedBoth(c: Ctx, d: Ctx, e: Ctx, a: seq<Act>, b: seq<Act>, failed: bool)
    requires Flagged(c, d, a, false) && Flagged(d, e, b, failed)
    ensures Flagged(c, e, a + b, failed) && (Closing(d) <==> Closing(c) || Closes(a))
  {
  }

  lemma DidNothing(c: Ctx)
    ensures Did(c, c, [])
  {
  }

  lemma DidBoth(c: Ctx, d: Ctx, e: Ctx, a: seq<Act>, b: seq<Act>)
    requires Did(c, d, a) && Did(d, e, b)
    ensures Did(c, e, a + b)
  {
    CommandsSplit(a, b);
    FlaggedBoth(c, d, e, a, b, false);
    TookBoth(c, d, e, Commands(a), Commands(b), Closes(a));
  }

  lemma PerformDid(c: Ctx, act: Act)
    ensures Did(c, Perform(c, act), [act])
  {
  }

  lemma {:induction false} PerformAllDid(c: Ctx, acts: seq<Act>)
    ensures Did(c, PerformAll(c, acts), acts)
    decreases |acts|
  {
    if acts != [] {
      PerformDid(c, acts[0]);
      PerformAllDid(Perform(c, acts[0]), acts[1..]);
      DidBoth(c, Perform(c, acts[0]), PerformAll(c, acts), [acts[0]], acts[1..]);
      assert [acts[0]] + acts[1..] == acts;
    }
  }

  /** A callback that leaves the queue does its part of the plan, if it has a function. */
  lemma ConsumeDid(plan: Plan, c: Ctx, reply: Option<Reply>)
    requires c.queue != []
    ensures var d := Consume(plan, c, reply);
            && d.runs == c.runs + (if c.queue[0].fn then 1 else 0)
            && Did(c, d, Planned(plan, c.runs, d.runs))
  {
    var s := Shifted(c, reply);
    if c.queue[0].fn {
      var t := s.(inCallback := true, runs := s.runs + 1);
      PerformAllReentrant(t, plan(s.runs));
      PerformAllDid(t, plan(s.runs));
      assert Planned(plan, c.runs, c.runs) == [];
      assert Planned(plan, c.runs, c.runs + 1) == plan(c.runs);
    }
  }

  lemma {:induction false} DrainDid(plan: Plan, c: Ctx, n: nat)
    ensures var d := DrainFor(plan, c, n); c.runs <= d.runs && Did(c, d, Planned(plan, c.runs, d.runs))
    decreases n
  {
    if n > 0 && c.queue != [] {
      var d := Consume(plan, c, None);
      ConsumeDid(plan, c, None);
      DrainDid(plan, d, n - 1);
      var e := DrainFor(plan, d, n - 1);
      DidBoth(c, d, e, Planned(plan, c.runs, d.runs), Planned(plan, d.runs, e.runs));
      PlannedSplit(plan, c.runs, d.runs, e.runs);
    }
  }

  // ---------------------------------------------------------------- over one event

  /** How many callbacks were invoked with a reply from log position `from` on. */
  ghost function Replied(log: seq<Delivery>, from: nat): nat {
    if |log| <= from then 0
    else
      var last := log[|log| - 1];
      Replied(log[..|log| - 1], from) + (if last.reply.Some? && last.cb.fn then 1 else 0)
  }

  ghost predicate Extends(log: seq<Delivery>, more: seq<Delivery>) {
    |log| <= |more| && more[..|log|] == log
  }

  lemma {:induction false} RepliedSplit(log: seq<Delivery>, from: nat, mid: nat)
    requires from <= mid <= |log|
    ensures Replied(log, from) == Replied(log[..mid], from) + Replied(log, mid)
    decreases |log|
  {
    if mid == |log| {
      assert log[..mid] == log;
    } else {
      RepliedSplit(log[..|log| - 1], from, mid);
      assert log[..|log| - 1][..mid] == log[..mid];
    }
  }

  lemma {:induction false} NoneReplied(log: seq<Delivery>, from: nat)
    requires forall i :: from <= i < |log| ==> log[i].reply == None
    ensures Replied(log, from) == 0
    decreases |log|
  {
    if |log| > from { NoneReplied(log[..|log| - 1], from); }
  }

  /** From `c` to `d` user code has done first these and then those things; in between the context
      was closed, by an error or because user code had asked for it. */
  ghost predicate Happened(c: Ctx, d: Ctx, first: seq<Act>, later: seq<Act>, failed: bool) {
    Took(c, d, Commands(first)) && Flagged(c, d, first + later, failed)
  }

  lemma DisconnectDid(plan: Plan, c: Ctx)
    requires c.cerr == 0 ==> c.queue == []
    ensures var d := AsyncDisconnect(plan, c);
            && d.cerr == c.cerr && c.runs <= d.runs && Extends(c.log, d.log) && Replied(d.log, |c.log|) == 0
            && Happened(c, d, [], Planned(plan, c.runs, d.runs), c.cerr != 0)
  {
    var c1 := c.(err := c.cerr);
    var c2 := if c1.err == 0 then c1 else c1.(disconnecting := true);
    var e := DrainFor(plan, c2, |c2.queue|);
    DrainDid(plan, c2, |c2.queue|);
    DrainDrains(plan, c2, |c2.queue|);
    NoneReplied(e.log, |c.log|);
    NoneReplied(c.log, |c.log|);
  }

  lemma DidThenHappened(c: Ctx, d: Ctx, e: Ctx, a: seq<Act>, first: seq<Act>, later: seq<Act>, failed: bool)
    requires Did(c, d, a) && Happened(d, e, first, later, failed)
    ensures Happened(c, e, a + first, later, failed)
  {
    CommandsSplit(a, first);
    FlaggedBoth(c, d, e, a, first + later, failed);
    Regroup(a, first, later);
    TookBoth(c, d, e, Commands(a), Commands(first), Closes(a));
  }

  lemma FreeDid(plan: Plan, c: Ctx)
    requires Closing(c) || c.queue == []
    ensures var d := AsyncFree(plan, c);
            && d.cerr == c.cerr && c.runs <= d.runs && Extends(c.log, d.log) && Replied(d.log, |c.log|) == 0
            && Happened(c, d, [], Planned(plan, c.runs, d.runs), false)
  {
    var e := DrainFor(plan, c, |c.queue|);
    DrainDid(plan, c, |c.queue|);
    DrainDrains(plan, c, |c.queue|);
    NoneReplied(e.log, |c.log|);
  }

  /** What a batch of replies did: the callbacks with a reply first, then those without. */
  ghost predicate Processed(plan: Plan, c: Ctx, d: Ctx) {
    var r := c.runs + Replied(d.log, |c.log|);
    && r <= d.runs && Extends(c.log, d.log)
    && Happened(c, d, Planned(plan, c.runs, r), Planned(plan, r, d.runs), d.cerr != 0)
  }

  lemma RepliedAfter(before: seq<Delivery>, one: Delivery, log: seq<Delivery>)
    requires Extends(before + [one], log) && one.reply.Some?
    ensures Extends(before, log)
    ensures Replied(log, |before|) == (if one.cb.fn then 1 else 0) + Replied(log, |before| + 1)
  {
    var n := |before|;
    assert log[..n] == log[..n + 1][..n] == before;
    RepliedSplit(log, n, n + 1);
    assert log[..n + 1][..n] == before && Replied(before, n) == 0;
  }

  lemma ConsumeLog(plan: Plan, c: Ctx, reply: Option<Reply>)
    requires c.queue != []
    ensures Consume(plan, c, reply).log == c.log + [Delivery(c.queue[0], reply)]
    ensures Consume(plan, c, reply).cerr == c.cerr
  {
    ConsumeOne(plan, c, reply);
  }

  /** A callback that got its reply comes before what the rest of the batch did. */
  lemma ProcessedAfter(plan: Plan, c: Ctx, d: Ctx, e: Ctx, reply: Reply)
    requires c.queue != [] && d == Consume(plan, c, Some(reply)) && Processed(plan, d, e)
    ensures Processed(plan, c, e)
  {
    ConsumeLog(plan, c, Some(reply));
    ConsumeDid(plan, c, Some(reply));
    RepliedAfter(c.log, Delivery(c.queue[0], Some(reply)), e.log);
    var r := d.runs + Replied(e.log, |d.log|);
    var first, next, later := Planned(plan, c.runs, d.runs), Planned(plan, d.runs, r), Planned(plan, r, e.runs);
    PlannedSplit(plan, c.runs, d.runs, r);
    DidThenHappened(c, d, e, first, next, later, e.cerr != 0);
    ProcessedIf(plan, c, e, r, first + next, later);
  }

  lemma ProcessedIf(plan: Plan, c: Ctx, d: Ctx, r: nat, first: seq<Act>, later: seq<Act>)
    requires r == c.runs + Replied(d.log, |c.log|) <= d.runs && Extends(c.log, d.log)
    requires first == Planned(plan, c.runs, r) && later == Planned(plan, r, d.runs)
    requires Happened(c, d, first, later, d.cerr != 0)
    ensures Processed(plan, c, d)
  {
  }

  lemma ProcessUnfolds(plan: Plan, c: Ctx, batch: seq<Reply>, tail: Tail)
    ensures batch == [] ==> ProcessCallbacks(plan, c, batch, tail) == EndOfBatch(plan, c, tail)
    ensures batch != [] && c.queue == [] ==>
              ProcessCallbacks(plan, c, batch, tail) == ProcessCallbacks(plan, c, [batch[0]], NoMore)
    ensures batch != [] && c.queue != [] ==>
              var d := Consume(plan, c, Some(batch[0]));
              ProcessCallbacks(plan, c, batch, tail) ==
              if c.queue[0].fn && d.freeing then AsyncFree(plan, d) else ProcessCallbacks(plan, d, batch[1..], tail)
  {
  }

  lemma {:induction false} ProcessDid(plan: Plan, c: Ctx, batch: seq<Reply>, tail: Tail)
    requires c.cerr == 0 && (tail.Fail? ==> tail.code != 0)
    ensures Processed(plan, c, ProcessCallbacks(plan, c, batch, tail))
    decreases |batch|
  {
    ProcessUnfolds(plan, c, batch, tail);
    if batch == [] {
      EndDid(plan, c, tail);
    } else if c.queue == [] {
      StrayDid(plan, c, batch[0]);
    } else {
      var d := Consume(plan, c, Some(batch[0]));
      ConsumeLog(plan, c, Some(batch[0]));
      if c.queue[0].fn && d.freeing { FreeDid(plan, d); } else { ProcessDid(plan, d, batch[1..], tail); }
      ProcessedAfter(plan, c, d, ProcessCallbacks(plan, c, batch, tail), batch[0]);
    }
  }

  lemma EndDid(plan: Plan, c: Ctx, tail: Tail)
    requires c.cerr == 0 && (tail.Fail? ==> tail.code != 0)
    ensures Processed(plan, c, EndOfBatch(plan, c, tail))
  {
    match tail
    case NoMore => if c.disconnecting && !c.unsent && c.queue == [] { DisconnectDid(plan, c); }
    case Fail(code) => DisconnectDid(plan, c.(cerr := code));
  }

  lemma StrayDid(plan: Plan, c: Ctx, reply: Reply)
    requires c.cerr == 0 && c.queue == []
    ensures Processed(plan, c, ProcessCallbacks(plan, c, [reply], NoMore))
  {
    if reply.error { DisconnectDid(plan, c.(cerr := ERR_OTHER)); }
  }

  /** What user code asked for by a call from outside. */
  ghost function Called(ev: Event): seq<Act> {
    if ev.Call? then [ev.act] else []
  }

  /** The number of the first callback whose commands come too late: the context was closed before
      it was invoked. The timeout handler invokes all of its callbacks before it closes the context. */
  ghost function Served(c: Ctx, ev: Event, d: Ctx): nat {
    if ev.Timeout? then d.runs else c.runs + Replied(d.log, |c.log|)
  }

  /** The context as far as its output is concerned: a complete write leaves nothing unsent. */
  ghost function Sent(c: Ctx, ev: Event): Ctx {
    if ev == Written(true) && c.cerr == 0 then c.(unsent := false) else c
  }

  /** A context with an error refuses commands. */
  ghost predicate Marked(c: Ctx) {
    c.cerr != 0 ==> c.disconnecting
  }

  ghost predicate StepDoes(plan: Plan, c: Ctx, ev: Event, d: Ctx) {
    var r := Served(c, ev, d);
    && c.runs <= r <= d.runs && Extends(c.log, d.log) && (Marked(d) || d.phase.Draining?)
    && Happened(Sent(c, ev), d, Called(ev) + Planned(plan, c.runs, r), Planned(plan, r, d.runs),
                d.cerr != 0 && !d.phase.Draining?)
  }

  lemma DidHappened(c: Ctx, d: Ctx, acts: seq<Act>, failed: bool)
    requires Did(c, d, acts) && (failed ==> c.disconnecting)
    ensures Happened(c, d, acts, [], failed)
  {
  }

  lemma CallDid(plan: Plan, c: Ctx, act: Act)
    requires c.phase.Open? && !c.inCallback && Marked(c)
    ensures StepDoes(plan, c, Call(act), Step(plan, c, Call(act)))
  {
    PerformDid(c, act);
    var c1, d := Perform(c, act), Step(plan, c, Call(act));
    if act.Free? {
      FreeDid(plan, c1);
    } else if act.Disconnect? && c.queue == [] {
      DisconnectDid(plan, c1);
    } else {
      DidHappened(c, d, [act], d.cerr != 0);
      return;
    }
    DidThenHappened(c, c1, d, [act], [], Planned(plan, c.runs, d.runs), d.cerr != 0);
  }

  lemma FailDid(plan: Plan, c: Ctx, ev: Event, code: nat)
    requires c.phase.Open? && !ev.Call? && !ev.Timeout? && Sent(c, ev) == c && code != 0 && (c.cerr != 0 ==> code == c.cerr)
    ensures StepDoes(plan, c, ev, AsyncDisconnect(plan, c.(cerr := code)))
  {
    DisconnectDid(plan, c.(cerr := code));
  }

  ghost function TimedOut(c: Ctx): Ctx {
    if c.cerr == 0 then c.(cerr := ERR_TIMEOUT, err := ERR_TIMEOUT) else c
  }

  lemma TimeoutUnfolds(plan: Plan, c: Ctx, configured: bool, rounds: nat)
    ensures var d := DrainFor(plan, TimedOut(c), rounds);
            HandleTimeout(plan, c, configured, rounds) ==
            if c.queue == [] || !configured then c
            else if d.queue != [] then d.(phase := Draining) else AsyncDisconnect(plan, d)
  {
  }

  lemma RoundsDid(plan: Plan, c: Ctx, rounds: nat)
    ensures var d := DrainFor(plan, TimedOut(c), rounds);
            && Did(c, d, Planned(plan, c.runs, d.runs)) && c.runs <= d.runs && Extends(c.log, d.log)
            && d.cerr != 0 && d.phase == c.phase
  {
    DrainDid(plan, TimedOut(c), rounds);
    DrainDrains(plan, TimedOut(c), rounds);
  }

  lemma TimeoutDid(plan: Plan, c: Ctx, configured: bool, rounds: nat)
    requires c.phase.Open? && Marked(c)
    ensures StepDoes(plan, c, Timeout(configured, rounds), HandleTimeout(plan, c, configured, rounds))
  {
    TimeoutUnfolds(plan, c, configured, rounds);
    if c.queue != [] && configured {
      var d := DrainFor(plan, TimedOut(c), rounds);
      RoundsDid(plan, c, rounds);
      if d.queue == [] { DrainClosed(plan, c, d, rounds); } else { DrainGoesOn(plan, c, d, rounds); }
    } else {
      DidNothing(c);
      DidHappened(c, c, [], c.cerr != 0);
    }
  }

  lemma DrainClosed(plan: Plan, c: Ctx, d: Ctx, rounds: nat)
    requires Did(c, d, Planned(plan, c.runs, d.runs)) && c.runs <= d.runs && Extends(c.log, d.log)
    requires d.cerr != 0 && d.phase.Open? && d.queue == []
    ensures StepDoes(plan, c, Timeout(true, rounds), AsyncDisconnect(plan, d))
  {
    var acts, e := Planned(plan, c.runs, d.runs), AsyncDisconnect(plan, d);
    assert e == d.(err := d.cerr, disconnecting := true, phase := e.phase);
    assert acts + [] == acts;
    TimeoutDoes(plan, c, e, rounds, acts);
  }

  lemma DrainGoesOn(plan: Plan, c: Ctx, d: Ctx, rounds: nat)
    requires Did(c, d, Planned(plan, c.runs, d.runs)) && c.runs <= d.runs && Extends(c.log, d.log)
    ensures StepDoes(plan, c, Timeout(true, rounds), d.(phase := Draining))
  {
    var acts, e := Planned(plan, c.runs, d.runs), d.(phase := Draining);
    DidHappened(c, e, acts, false);
    TimeoutDoes(plan, c, e, rounds, acts);
  }

  lemma TimeoutDoes(plan: Plan, c: Ctx, d: Ctx, rounds: nat, acts: seq<Act>)
    requires c.runs <= d.runs && Extends(c.log, d.log) && (Marked(d) || d.phase.Draining?)
    requires acts == Planned(plan, c.runs, d.runs) && Happened(c, d, acts, [], d.cerr != 0 && !d.phase.Draining?)
    ensures StepDoes(plan, c, Timeout(true, rounds), d)
  {
    assert [] + acts == acts && Planned(plan, d.runs, d.runs) == [];
  }

  /** Every event from outside: which commands it added, which flags it raised and what is unsent,
      in terms of the event and the plan of the callbacks that it invoked. */
  lemma StepDid(plan: Plan, c: Ctx, ev: Event)
    requires c.phase.Open? && !c.inCallback && Marked(c) && Proper(ev)
    ensures StepDoes(plan, c, ev, Step(plan, c, ev))
  {
    match ev
    case Call(act) => CallDid(plan, c, act);
    case ReadFails(code) => FailDid(plan, c, ev, if c.cerr == 0 then code else c.cerr);
    case WriteFails(code) => FailDid(plan, c, ev, if c.cerr == 0 then code else c.cerr);
    case ReadData(batch, tail) =>
      if c.cerr != 0 { FailDid(plan, c, ev, c.cerr); } else { ReadDid(plan, c, ev); }
    case Written(all) => if c.cerr != 0 { FailDid(plan, c, ev, c.cerr); } else { WrittenDid(plan, c, ev); }
    case Timeout(configured, rounds) => TimeoutDid(plan, c, configured, rounds);
  }

  lemma ReadDid(plan: Plan, c: Ctx, ev: Event)
    requires c.phase.Open? && c.cerr == 0 && ev.ReadData? && Proper(ev)
    ensures StepDoes(plan, c, ev, ProcessCallbacks(plan, c, ev.batch, ev.tail))
  {
    ProcessDid(plan, c, ev.batch, ev.tail);
    var d := ProcessCallbacks(plan, c, ev.batch, ev.tail);
    ProcessPhase(plan, c, ev.batch, ev.tail);
    var acts := Planned(plan, c.runs, Served(c, ev, d));
    assert [] + acts == acts;
  }

  lemma {:induction false} ProcessPhase(plan: Plan, c: Ctx, batch: seq<Reply>, tail: Tail)
    requires !c.phase.Draining?
    ensures !ProcessCallbacks(plan, c, batch, tail).phase.Draining?
    decreases |batch|
  {
    if batch == [] {
      DisconnectPhase(plan, if tail.Fail? then c.(cerr := tail.code) else c);
    } else if c.queue == [] {
      DisconnectPhase(plan, c.(cerr := ERR_OTHER));
    } else {
      var d := Consume(plan, c, Some(batch[0]));
      ConsumeOne(plan, c, Some(batch[0]));
      if !(c.queue[0].fn && d.freeing) { ProcessPhase(plan, d, batch[1..], tail); }
    }
  }

  lemma WrittenDid(plan: Plan, c: Ctx, ev: Event)
    requires c.phase.Open? && c.cerr == 0 && ev.Written?
    ensures StepDoes(plan, c, ev, Step(plan, c, ev))
  {
    DidNothing(Sent(c, ev));
    DidHappened(Sent(c, ev), Step(plan, c, ev), [], false);
    assert [] + Planned(plan, c.runs, c.runs) == [];
  }

  // ---------------------------------------------------------------- over whole runs

  /** The commands issued in an event while the context took commands. */
  ghost function IssuedBy(plan: Plan, c: Ctx, ev: Event, d: Ctx): seq<Callback> {
    if Closing(c) then [] else Commands(Called(ev) + Planned(plan, c.runs, Served(c, ev, d)))
  }

  /** The commands issued over a run while the context took commands, in order. */
  ghost function Issued(plan: Plan, c: Ctx, evs: seq<Event>): seq<Callback>
    decreases |evs|
  {
    if evs == [] || c.phase != Open then []
    else
      var d := Step(plan, c, evs[0]);
      IssuedBy(plan, c, evs[0], d) + Issued(plan, d, evs[1..])
  }

  /** Output is left from before the event, or the event added some. */
  ghost predicate UnsentAfter(c: Ctx, ev: Event, d: Ctx, unsent: bool) {
    (unsent && !(ev == Written(true) && c.cerr == 0)) || |d.accepted| > |c.accepted|
  }

  /** From the last complete write on, some command was accepted. */
  ghost predicate SomeUnsent(plan: Plan, c: Ctx, evs: seq<Event>, unsent: bool)
    decreases |evs|
  {
    if evs == [] || c.phase != Open then unsent
    else
      var d := Step(plan, c, evs[0]);
      SomeUnsent(plan, d, evs[1..], UnsentAfter(c, evs[0], d, unsent))
  }

  lemma StepAccepts(plan: Plan, c: Ctx, ev: Event, d: Ctx)
    requires Healthy(c) && c.phase.Open? && Marked(c) && Proper(ev) && d == Step(plan, c, ev)
    ensures Healthy(d) && (Marked(d) || d.phase.Draining?)
    ensures d.accepted == c.accepted + IssuedBy(plan, c, ev, d)
    ensures d.unsent <==> UnsentAfter(c, ev, d, c.unsent)
  {
    HealthyRests(c);
    StepDid(plan, c, ev);
    StepHealthy(plan, c, ev);
  }

  lemma HistoryUnfolds(plan: Plan, c: Ctx, evs: seq<Event>, d: Ctx, unsent: bool)
    requires evs != [] && c.phase.Open? && d == Step(plan, c, evs[0])
    ensures Run(plan, c, evs) == Run(plan, d, evs[1..])
    ensures Issued(plan, c, evs) == IssuedBy(plan, c, evs[0], d) + Issued(plan, d, evs[1..])
    ensures SomeUnsent(plan, c, evs, unsent) == SomeUnsent(plan, d, evs[1..], UnsentAfter(c, evs[0], d, unsent))
  {
  }

  /** The run ends where the context is no longer usable. */
  lemma HistoryEnds(plan: Plan, c: Ctx, evs: seq<Event>)
    requires evs == [] || c.phase != Open
    ensures Run(plan, c, evs) == c && Issued(plan, c, evs) == [] && SomeUnsent(plan, c, evs, c.unsent) == c.unsent
  {
  }

  lemma {:induction false} RunDid(plan: Plan, c: Ctx, evs: seq<Event>)
    requires Healthy(c) && (Marked(c) || c.phase != Open) && AllProper(evs)
    ensures Run(plan, c, evs).accepted == c.accepted + Issued(plan, c, evs)
    ensures Run(plan, c, evs).unsent <==> SomeUnsent(plan, c, evs, c.unsent)
    decreases |evs|
  {
    if evs == [] || c.phase != Open {
      HistoryEnds(plan, c, evs);
    } else {
      var d, ev := Step(plan, c, evs[0]), evs[0];
      StepAccepts(plan, c, ev, d);
      HistoryUnfolds(plan, c, evs, d, c.unsent);
      RunDid(plan, d, evs[1..]);
      Regroup(c.accepted, IssuedBy(plan, c, ev, d), Issued(plan, d, evs[1..]));
    }
  }

  /** Over every run: the accepted commands are the commands issued, by calls from outside and by the
      callbacks' plans, while the context took commands; and there is unsent output exactly when
      one of them came after the last complete write. */
  lemma AcceptedIsIssued(plan: Plan, noAutoFree: bool, evs: seq<Event>)
    requires AllProper(evs)
    ensures var c := Run(plan, Init(noAutoFree), evs);
            c.accepted == Issued(plan, Init(noAutoFree), evs) && (c.unsent <==> SomeUnsent(plan, Init(noAutoFree), evs, false))
  {
    InitHealthy(noAutoFree);
    RunDid(plan, Init(noAutoFree), evs);
  }
}
