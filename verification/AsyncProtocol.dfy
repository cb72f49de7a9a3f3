/**
 * The reply-matching protocol of the asynchronous client (deps/hiredis/async.c):
 * commands queue one callback each, replies consume callbacks from the front,
 * callbacks re-enter the client, and closing is deferred until it is safe.
 *
 * User code is a plan: the n-th callback to be invoked performs plan(n).  A plan
 * is arbitrary, so every claim below holds for every behaviour of the callbacks.
 */
module AsyncProtocol {
  import opened Basics

  /** A queued callback; `fn` says whether its function pointer is non-NULL. */
  datatype Callback = Callback(fn: bool, privdata: nat)

  /** A reply; `error` says whether its type is REDIS_REPLY_ERROR. */
  datatype Reply = Reply(error: bool, text: nat)

  /** A callback leaving the queue, with its reply or with NULL. */
  datatype Delivery = Delivery(cb: Callback, reply: Option<Reply>)

  /** What user code may do to the context. */
  datatype Act = Command(cb: Callback) | Disconnect | Free

  type Plan = nat -> seq<Act>

  /** Open: usable.  Draining: inside the loop of the timeout handler.
      Freed: released.  Dirty, Unsolicited: an assertion of the client failed. */
  datatype Phase = Open | Draining | Freed | Dirty | Unsolicited

  const ERR_OTHER := 2
  const ERR_TIMEOUT := 6

  /** The context.  `accepted` and `log` are its history: the callbacks of all
      accepted commands and all callbacks consumed, in order. */
  datatype Ctx = Ctx(
    queue: seq<Callback>,
    inCallback: bool, disconnecting: bool, freeing: bool, noAutoFree: bool,
    cerr: nat, err: nat, unsent: bool,
    phase: Phase, runs: nat,
    accepted: seq<Callback>, log: seq<Delivery>)

  predicate Closing(c: Ctx) {
    c.disconnecting || c.freeing
  }

  // ---------------------------------------------------------------- the operations

  function Issue(c: Ctx, cb: Callback): Ctx {
    if Closing(c) then c
    else c.(queue := c.queue + [cb], accepted := c.accepted + [cb], unsent := true)
  }

  /** A call made by user code while a callback is running: closing is only flagged. */
  function Perform(c: Ctx, act: Act): Ctx {
    match act
    case Command(cb) => Issue(c, cb)
    case Disconnect => c.(disconnecting := true, noAutoFree := false)
    case Free => c.(freeing := true)
  }

  function PerformAll(c: Ctx, acts: seq<Act>): Ctx
    decreases |acts|
  {
    if acts == [] then c else PerformAll(Perform(c, acts[0]), acts[1..])
  }

  function Invoked(plan: Plan, c: Ctx): Ctx {
    PerformAll(c.(inCallback := true, runs := c.runs + 1), plan(c.runs)).(inCallback := false)
  }

  function RunCallback(plan: Plan, c: Ctx, cb: Callback): Ctx {
    if cb.fn then Invoked(plan, c) else c
  }

  function Shifted(c: Ctx, reply: Option<Reply>): Ctx
    requires c.queue != []
  {
    c.(queue := c.queue[1..], log := c.log + [Delivery(c.queue[0], reply)])
  }

  function Consume(plan: Plan, c: Ctx, reply: Option<Reply>): Ctx
    requires c.queue != []
  {
    RunCallback(plan, Shifted(c, reply), c.queue[0])
  }

  /** The first n rounds of a loop that runs pending callbacks with a NULL reply. */
  function DrainFor(plan: Plan, c: Ctx, n: nat): Ctx
    decreases n
  {
    if n == 0 || c.queue == [] then c else DrainFor(plan, Consume(plan, c, None), n - 1)
  }

  function AsyncFree(plan: Plan, c: Ctx): Ctx {
    DrainFor(plan, c, |c.queue|).(phase := Freed)
  }

  function AsyncDisconnect(plan: Plan, c: Ctx): Ctx {
    var c1 := c.(err := c.cerr);
    if c1.err == 0 && c1.queue != [] then c1.(queue := c1.queue[1..], phase := Dirty)
    else
      var c2 := if c1.err == 0 then c1 else c1.(disconnecting := true);
      if c2.noAutoFree then c2 else AsyncFree(plan, c2)
  }

  function UserDisconnect(plan: Plan, c: Ctx): Ctx {
    var c1 := c.(disconnecting := true, noAutoFree := false);
    if !c.inCallback && c.queue == [] then AsyncDisconnect(plan, c1) else c1
  }

  function UserFree(plan: Plan, c: Ctx): Ctx {
    var c1 := c.(freeing := true);
    if !c.inCallback then AsyncFree(plan, c1) else c1
  }

  /** How a batch of replies ends: nothing more to parse, or a protocol error. */
  datatype Tail = NoMore | Fail(code: nat)

  function EndOfBatch(plan: Plan, c: Ctx, tail: Tail): Ctx {
    match tail
    case NoMore => if c.disconnecting && !c.unsent && c.queue == [] then AsyncDisconnect(plan, c) else c
    case Fail(code) => AsyncDisconnect(plan, c.(cerr := code))
  }

  function ProcessCallbacks(plan: Plan, c: Ctx, batch: seq<Reply>, tail: Tail): Ctx
    decreases |batch|
  {
    if batch == [] then EndOfBatch(plan, c, tail)
    else if c.queue == [] then
      if batch[0].error then AsyncDisconnect(plan, c.(cerr := ERR_OTHER)) else c.(phase := Unsolicited)
    else
      var d := Consume(plan, c, Some(batch[0]));
      if c.queue[0].fn && d.freeing then AsyncFree(plan, d) else ProcessCallbacks(plan, d, batch[1..], tail)
  }

  function HandleTimeout(plan: Plan, c: Ctx, configured: bool, rounds: nat): Ctx {
    if c.queue == [] || !configured then c
    else
      var c1 := if c.cerr == 0 then c.(cerr := ERR_TIMEOUT, err := ERR_TIMEOUT) else c;
      var d := DrainFor(plan, c1, rounds);
      if d.queue != [] then d.(phase := Draining) else AsyncDisconnect(plan, d)
  }

  /** What happens to a context from outside its callbacks. */
  datatype Event =
    | Call(act: Act)
    | ReadFails(code: nat)
    | ReadData(batch: seq<Reply>, tail: Tail)
    | WriteFails(code: nat)
    | Written(all: bool)
    | Timeout(configured: bool, rounds: nat)

  /** Failing input or output always reports a nonzero error. */
  predicate Proper(ev: Event) {
    match ev
    case ReadFails(code) => code != 0
    case WriteFails(code) => code != 0
    case ReadData(_, tail) => tail.Fail? ==> tail.code != 0
    case _ => true
  }

  function Step(plan: Plan, c: Ctx, ev: Event): Ctx {
    match ev
    case Call(Command(cb)) => Issue(c, cb)
    case Call(Disconnect) => UserDisconnect(plan, c)
    case Call(Free) => UserFree(plan, c)
    case ReadFails(code) => AsyncDisconnect(plan, if c.cerr == 0 then c.(cerr := code) else c)
    case ReadData(batch, tail) =>
      if c.cerr != 0 then AsyncDisconnect(plan, c) else ProcessCallbacks(plan, c, batch, tail)
    case WriteFails(code) => AsyncDisconnect(plan, if c.cerr == 0 then c.(cerr := code) else c)
    case Written(all) =>
      if c.cerr != 0 then AsyncDisconnect(plan, c) else c.(unsent := c.unsent && !all)
    case Timeout(configured, rounds) => HandleTimeout(plan, c, configured, rounds)
  }

  /** A run; it stops for good once the context is no longer usable. */
  function Run(plan: Plan, c: Ctx, evs: seq<Event>): Ctx
    decreases |evs|
  {
    if evs == [] || c.phase != Open then c else Run(plan, Step(plan, c, evs[0]), evs[1..])
  }

  function Init(noAutoFree: bool): Ctx {
    Ctx([], false, false, false, noAutoFree, 0, 0, false, Open, 0, [], [])
  }
}
