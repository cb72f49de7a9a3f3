/**
 * The head/tail linked list of pending callbacks (deps/hiredis/async.c:268-305).
 */
module CallbackLists {
  import opened Basics

  class Node<T> {
    const value: T
    var next: Node?<T>

    constructor (value: T)
      ensures this.value == value && next == null
    {
      this.value := value;
      next := null;
    }
  }

  ghost function Values<T>(nodes: seq<Node<T>>): seq<T> {
    seq(|nodes|, i requires 0 <= i < |nodes| => nodes[i].value)
  }

  ghost function NodeAt<T>(nodes: seq<Node<T>>, i: nat): Node?<T> {
    if i < |nodes| then nodes[i] else null
  }

  class CallbackList<T> {
    var head: Node?<T>
    var tail: Node?<T>
    ghost var nodes: seq<Node<T>>
    ghost var repr: set<Node<T>>

    ghost predicate Valid()
      reads this, repr
    {
      && (forall i :: 0 <= i < |nodes| ==> nodes[i] in repr)
      && head == NodeAt(nodes, 0)
      && (tail == if nodes == [] then null else nodes[|nodes| - 1])
      && (forall i :: 0 <= i < |nodes| ==> nodes[i].next == NodeAt(nodes, i + 1))
      && (forall i, j :: 0 <= i < j < |nodes| ==> nodes[i] != nodes[j])
    }

    /** The queued values, oldest first. */
    ghost function Contents(): seq<T>
      reads this
    {
      Values(nodes)
    }

    constructor ()
      ensures Valid() && Contents() == [] && repr == {}
    {
      head, tail, nodes, repr := null, null, [], {};
    }

    method Push(value: T)
      requires Valid()
      modifies this, repr
      ensures Valid() && Contents() == old(Contents()) + [value] && fresh(repr - old(repr))
    {
      var cb := new Node(value);
      if head == null { head := cb; }
      if tail != null { tail.next := cb; }
      tail := cb;
      nodes, repr := nodes + [cb], repr + {cb};
    }

    method Shift() returns (value: Option<T>)
      requires Valid()
      modifies this
      ensures Valid() && repr == old(repr)
      ensures value == if old(Contents()) == [] then None else Some(old(Contents())[0])
      ensures Contents() == if old(Contents()) == [] then [] else old(Contents())[1..]
    {
      var cb := head;
      if cb == null { return None; }
      assert nodes[0] == cb && cb.next == NodeAt(nodes, 1);
      head := cb.next;
      if cb == tail { tail := null; }
      value := Some(cb.value);
      nodes := nodes[1..];
      assert forall i :: 0 <= i < |nodes| ==> nodes[i] == old(nodes)[i + 1];
    }
  }
}

/**
 * The asynchronous context as a mutable object.  Each method is proved against the
 * function of the same name, and user code re-enters the object from its callbacks.
 */
module AsyncClient {
  import opened Basics
  import opened P = AsyncProtocol
  import opened CallbackLists
  import AsyncRuns

  class Context {
    const plan: Plan
    const replies: CallbackList<Callback>
    var inCallback: bool
    var disconnecting: bool
    var freeing: bool
    var noAutoFree: bool
    var cerr: nat
    var err: nat
    var unsent: bool
    var phase: Phase
    var runs: nat
    ghost var accepted: seq<Callback>
    ghost var log: seq<Delivery>

    ghost predicate Valid()
      reads this, replies, replies.repr
    {
      replies.Valid()
    }

    ghost function View(): Ctx
      reads this, replies
    {
      Ctx(replies.Contents(), inCallback, disconnecting, freeing, noAutoFree,
          cerr, err, unsent, phase, runs, accepted, log)
    }

    constructor (plan: Plan, noAutoFree: bool)
      ensures Valid() && View() == P.Init(noAutoFree) && this.plan == plan
      ensures fresh(replies) && replies.repr == {}
    {
      this.plan := plan;
      replies := new CallbackList();
      inCallback, disconnecting, freeing, this.noAutoFree := false, false, false, noAutoFree;
      cerr, err, unsent, phase, runs, accepted, log := 0, 0, false, Open, 0, [], [];
    }

    method Command(cb: Callback) returns (ok: bool)
      requires Valid()
      modifies this, replies, replies.repr
      ensures Valid() && View() == P.Issue(old(View()), cb)
      ensures ok <==> !old(disconnecting) && !old(freeing)
      ensures ok ==> View() == old(View()).(queue := old(View().queue) + [cb], accepted := old(accepted) + [cb], unsent := true)
      ensures !ok ==> View() == old(View())
      ensures fresh(replies.repr - old(replies.repr))
    {
      if disconnecting || freeing { return false; }
      replies.Push(cb);
      unsent := true;
      accepted := accepted + [cb];
      return true;
    }

    method Perform(act: Act)
      requires Valid() && inCallback
      modifies this, replies, replies.repr
      ensures Valid() && View() == P.Perform(old(View()), act)
      ensures fresh(replies.repr - old(replies.repr))
      decreases if inCallback then 0 else 1, 4
    {
      match act {
        case Command(cb) => var _ := Command(cb);
        case Disconnect => Disconnect();
        case Free => Free();
      }
    }

    method RunCallback(cb: Callback)
      requires Valid() && !inCallback
      modifies this, replies, replies.repr
      ensures Valid() && View() == P.RunCallback(plan, old(View()), cb)
      ensures fresh(replies.repr - old(replies.repr))
      decreases if inCallback then 0 else 1, 0
    {
      if cb.fn { Invoke(); }
    }

    /** The next callback to be invoked performs its part of the plan. */
    method Invoke()
      requires Valid() && !inCallback
      modifies this, replies, replies.repr
      ensures Valid() && fresh(replies.repr - old(replies.repr))
      ensures View() == P.Invoked(plan, old(View()))
      decreases if inCallback then 0 else 1, 0, 0
    {
      var acts := plan(runs);
      SetFlag(true, runs + 1);
      PerformAll(acts);
      SetFlag(false, runs);
    }

    method SetFlag(running: bool, count: nat)
      requires Valid()
      modifies this`inCallback, this`runs
      ensures Valid() && View() == old(View()).(inCallback := running, runs := count)
    {
      inCallback, runs := running, count;
    }

    /** What user code does while a callback is running. */
    method PerformAll(acts: seq<Act>)
      requires Valid() && inCallback
      modifies this, replies, replies.repr
      ensures Valid() && View() == P.PerformAll(old(View()), acts)
      ensures fresh(replies.repr - old(replies.repr))
      decreases if inCallback then 0 else 1, 5
    {
      for i := 0 to |acts|
        invariant Valid() && inCallback
        invariant P.PerformAll(View(), acts[i..]) == P.PerformAll(old(View()), acts)
        invariant fresh(replies.repr - old(replies.repr))
      {
        assert acts[i..][1..] == acts[i + 1..];
        Perform(acts[i]);
      }
    }

    /** A pending callback leaves the queue and runs. */
    method Consume(reply: Option<Reply>) returns (cb: Option<Callback>)
      requires Valid() && !inCallback
      modifies this, replies, replies.repr
      ensures Valid() && old(View()).inCallback == View().inCallback
      ensures cb == if old(View()).queue == [] then None else Some(old(View()).queue[0])
      ensures View() == if old(View()).queue == [] then old(View()) else P.Consume(plan, old(View()), reply)
      ensures fresh(replies.repr - old(replies.repr))
      decreases if inCallback then 0 else 1, 1
    {
      cb := replies.Shift();
      if cb.Some? {
        log := log + [Delivery(cb.value, reply)];
        RunCallback(cb.value);
      }
    }

    method AsyncFree()
      requires Valid() && !inCallback
      requires P.Closing(View()) || View().queue == []
      modifies this, replies, replies.repr
      ensures Valid() && View() == P.AsyncFree(plan, old(View()))
      ensures fresh(replies.repr - old(replies.repr))
      decreases if inCallback then 0 else 1, 2
    {
      ghost var start := View();
      var more := true;
      while more
        invariant Valid() && !inCallback
        invariant more ==> P.Closing(View()) || View().queue == []
        invariant !more ==> View().queue == []
        invariant P.DrainFor(plan, View(), |View().queue|) == P.DrainFor(plan, start, |start.queue|)
        invariant fresh(replies.repr - old(replies.repr))
        decreases |View().queue|, more
      {
        ghost var before := View();
        var cb := Consume(None);
        more := cb.Some?;
        if more { AsyncRuns.DrainRound(plan, before); }
      }
      phase := Freed;
    }

    method AsyncDisconnect()
      requires Valid() && !inCallback
      modifies this, replies, replies.repr
      ensures Valid() && View() == P.AsyncDisconnect(plan, old(View()))
      ensures fresh(replies.repr - old(replies.repr))
      decreases if inCallback then 0 else 1, 3
    {
      err := cerr;
      if err == 0 {
        var cb := replies.Shift();
        if cb.Some? {
          phase := Dirty;
          return;
        }
      } else {
        disconnecting := true;
      }
      if !noAutoFree { AsyncFree(); }
    }

    method Disconnect()
      requires Valid()
      modifies this, replies, replies.repr
      ensures Valid() && View() == P.UserDisconnect(plan, old(View()))
      ensures fresh(replies.repr - old(replies.repr))
      decreases if inCallback then 0 else 1, 4, 0
    {
      disconnecting := true;
      noAutoFree := false;
      if !inCallback && replies.head == null { AsyncDisconnect(); }
    }

    method Free()
      requires Valid()
      modifies this, replies, replies.repr
      ensures Valid() && View() == P.UserFree(plan, old(View()))
      ensures fresh(replies.repr - old(replies.repr))
      decreases if inCallback then 0 else 1, 4, 0
    {
      freeing := true;
      if !inCallback { AsyncFree(); }
    }

    method ProcessCallbacks(batch: seq<Reply>, tail: Tail)
      requires Valid() && !inCallback
      modifies this, replies, replies.repr
      ensures Valid() && View() == P.ProcessCallbacks(plan, old(View()), batch, tail)
      ensures fresh(replies.repr - old(replies.repr))
    {
      for i := 0 to |batch|
        invariant Valid() && !inCallback && fresh(replies.repr - old(replies.repr))
        invariant P.ProcessCallbacks(plan, View(), batch[i..], tail)
               == P.ProcessCallbacks(plan, old(View()), batch, tail)
      {
        assert batch[i..][1..] == batch[i + 1..];
        var cb := Consume(Some(batch[i]));
        if cb == None {
          Stray(batch[i]);
          return;
        }
        if cb.value.fn && freeing {
          AsyncFree();
          return;
        }
      }
      EndOfBatch(tail);
    }

    /** A reply that nothing is waiting for. */
    method Stray(reply: Reply)
      requires Valid() && !inCallback
      modifies this, replies, replies.repr
      ensures Valid() && fresh(replies.repr - old(replies.repr))
      ensures View() == if reply.error then P.AsyncDisconnect(plan, old(View()).(cerr := ERR_OTHER))
                        else old(View()).(phase := Unsolicited)
    {
      if reply.error {
        cerr := ERR_OTHER;
        AsyncDisconnect();
      } else {
        phase := Unsolicited;
      }
    }

    method EndOfBatch(tail: Tail)
      requires Valid() && !inCallback
      modifies this, replies, replies.repr
      ensures Valid() && View() == P.EndOfBatch(plan, old(View()), tail)
      ensures fresh(replies.repr - old(replies.repr))
    {
      match tail {
        case NoMore =>
          if disconnecting && !unsent && replies.head == null { AsyncDisconnect(); }
        case Fail(code) =>
          cerr := code;
          AsyncDisconnect();
      }
    }

    /** At most `rounds` rounds of the handler's loop, which may never end. */
    method DrainFor(rounds: nat)
      requires Valid() && !inCallback
      modifies this, replies, replies.repr
      ensures Valid() && View() == P.DrainFor(plan, old(View()), rounds) && !inCallback
      ensures fresh(replies.repr - old(replies.repr))
    {
      var left, more := rounds, true;
      ghost var now, result := View(), P.DrainFor(plan, View(), rounds);
      while more && left > 0
        invariant Valid() && !inCallback && fresh(replies.repr - old(replies.repr)) && View() == now
        invariant P.DrainFor(plan, now, left) == result
        invariant !more ==> now.queue == []
        decreases left, more
      {
        AsyncRuns.DrainUnfolds(plan, now, left);
        var cb := Consume(None);
        if cb == None {
          more := false;
        } else {
          now, left := P.Consume(plan, now, None), left - 1;
        }
      }
    }

    method HandleTimeout(configured: bool, rounds: nat)
      requires Valid() && !inCallback
      modifies this, replies, replies.repr
      ensures Valid() && View() == P.HandleTimeout(plan, old(View()), configured, rounds)
      ensures fresh(replies.repr - old(replies.repr))
    {
      if replies.head == null || !configured { return; }
      if cerr == 0 { cerr, err := ERR_TIMEOUT, ERR_TIMEOUT; }
      DrainFor(rounds);
      if replies.head != null {
        phase := Draining;
      } else {
        AsyncDisconnect();
      }
    }

    method Handle(ev: Event)
      requires Valid() && !inCallback
      modifies this, replies, replies.repr
      ensures Valid() && View() == P.Step(plan, old(View()), ev)
      ensures fresh(replies.repr - old(replies.repr))
    {
      match ev {
        case Call(Command(cb)) => var _ := Command(cb);
        case Call(Disconnect) => Disconnect();
        case Call(Free) => Free();
        case ReadFails(code) => FailWith(code);
        case WriteFails(code) => FailWith(code);
        case ReadData(batch, tail) =>
          if cerr != 0 { AsyncDisconnect(); } else { ProcessCallbacks(batch, tail); }
        case Written(all) =>
          if cerr != 0 { AsyncDisconnect(); } else { unsent := unsent && !all; }
        case Timeout(configured, rounds) => HandleTimeout(configured, rounds);
      }
    }

    /** Input or output that fails, reporting an error unless one is already recorded. */
    method FailWith(code: nat)
      requires Valid() && !inCallback
      modifies this, replies, replies.repr
      ensures Valid() && fresh(replies.repr - old(replies.repr))
      ensures View() == P.AsyncDisconnect(plan, if old(cerr) == 0 then old(View()).(cerr := code) else old(View()))
    {
      if cerr == 0 { cerr := code; }
      AsyncDisconnect();
    }
  }

  /** Any sequence of events on a new context: the object behaves as the protocol. */
  method Drive(plan: Plan, noAutoFree: bool, evs: seq<Event>) returns (ctx: Context)
    requires AsyncRuns.AllProper(evs)
    ensures ctx.Valid() && ctx.View() == P.Run(plan, P.Init(noAutoFree), evs)
    ensures AsyncRuns.Good(ctx.View(), AsyncRuns.Wire(evs))
  {
    ctx := new Context(plan, noAutoFree);
    AsyncRuns.RunFromInit(plan, noAutoFree, evs);
    AsyncRuns.InitHealthy(noAutoFree);
    ghost var now := P.Init(noAutoFree);
    for i := 0 to |evs|
      invariant ctx.Valid() && ctx.plan == plan && fresh(ctx) && fresh(ctx.replies) && fresh(ctx.replies.repr)
      invariant ctx.View() == now && AsyncRuns.Healthy(now)
      invariant P.Run(plan, now, evs[i..]) == P.Run(plan, P.Init(noAutoFree), evs)
    {
      if ctx.phase != Open { return; }
      AsyncRuns.RunUnfolds(plan, now, evs, i);
      AsyncRuns.HealthyRests(now);
      AsyncRuns.StepHealthy(plan, now, evs[i]);
      ctx.Handle(evs[i]);
      now := P.Step(plan, now, evs[i]);
    }
  }
}
