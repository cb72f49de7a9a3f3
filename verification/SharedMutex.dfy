/**
 The reader/writer lock `contention_free_shared_mutex`, as an interleaving step system.

 Any number of threads share one mutex. Every atomic load, store or compare-and-swap of the
 implementation is one step of one thread, memory is sequentially consistent, and a thread's
 position in the code is an explicit program counter. A step reads and writes the shared
 memory and the thread's own local state only, so it is a function of those two.
 */
module SharedMutex {
  import opened Basics

  type Tid = nat

  /** What all threads see: the writer flag, the flag owner's id, one slot per registered
      thread (0 free, 1 registered, 2 and up: shared depth plus one), the recursion count of
      the flag owner, and the reference count of the slot array. */
  datatype Shared = Shared(want: bool, owner: Option<Tid>, slots: seq<int>, xcount: int, refs: int)

  /** The next step of a thread. */
  datatype PC =
    | Idle
    // register_thread, called at the head of lock_shared
    | RegCount | RegLoad(i: nat) | RegCas(i: nat) | RegStore(i: nat)
    // lock_shared through a slot; `d` is the depth read at ShLoad
    | ShLoad | ShNest(d: int) | ShAnnounce(d: int) | ShTest(d: int) | ShBackOff(d: int) | ShSpin(d: int)
    // lock_shared of an unregistered thread, through the writer flag
    | FbOwner | FbCas | FbSetOwner | FbCount
    // unlock_shared through a slot, and through the writer flag
    | UnshLoad | UnshStore(d: int) | UnshDec
    // lock
    | LkAssert | LkOwner | LkCas | LkSetOwner | LkDrain(i: nat) | LkCount
    // unlock, and the release of the flag that unlock and unlock_shared share
    | UnlkDec | RelClearOwner | RelClearFlag
    // unregister_thread
    | UnregLoad | UnregDec | UnregDrop
    // an assertion of the implementation failed
    | Fault

  /** A thread: where it is, its registered slot, and how many shared locks taken through
      the slot, shared locks taken through the flag, and exclusive locks it has not released. */
  datatype Thread = Thread(pc: PC, index: Option<nat>, slotHeld: nat, fbHeld: nat, exHeld: nat)

  datatype State = State(sh: Shared, threads: map<Tid, Thread>)

  datatype Call = LockShared | UnlockShared | Lock | Unlock | Unregister

  /** `Run` executes a thread's next step, `Invoke` starts a call, `Stall` is a spurious
      failure of the weak compare-and-swap. */
  datatype Event = Run(t: Tid) | Invoke(t: Tid, call: Call) | Stall(t: Tid)

  // ---------------------------------------------------------------- the code

  /** What the caller must respect. Releasing needs something to release; `lock` must not
      upgrade a shared lock (the documented S->X rule); unregistering needs a registration. */
  predicate MayCall(th: Thread, c: Call) {
    match c
    case LockShared => true
    case UnlockShared => th.slotHeld + th.fbHeld > 0
    case Lock => th.slotHeld + th.fbHeld == 0 || th.exHeld > 0
    case Unlock => th.exHeld > 0
    case Unregister => th.index.Some?
  }

  /** The first step of a call. */
  function Entry(th: Thread, c: Call): PC {
    match c
    case LockShared => if th.index.Some? then ShLoad else RegCount
    case UnlockShared => if th.index.Some? then UnshLoad else UnshDec
    case Lock => if th.index.Some? then LkAssert else LkOwner
    case Unlock => UnlkDec
    case Unregister => UnregLoad
  }

  function Goto(th: Thread, pc: PC): Thread { th.(pc := pc) }

  /** A load of, or a store to, the thread's own slot. */
  predicate OwnSlot(sh: Shared, th: Thread) {
    th.index.Some? && th.index.value < |sh.slots|
  }

  function Store(sh: Shared, th: Thread, v: int): Shared
    requires OwnSlot(sh, th)
  {
    sh.(slots := sh.slots[th.index.value := v])
  }

  predicate RegisterPC(pc: PC) { pc.RegCount? || pc.RegLoad? || pc.RegCas? || pc.RegStore? }

  /** register_thread: take the first free slot, unless the array already has a reader per slot. */
  function RegisterStep(sh: Shared, th: Thread): (Shared, Thread)
    requires RegisterPC(th.pc)
  {
    match th.pc
    case RegCount => (sh, Goto(th, if sh.refs <= |sh.slots| then RegLoad(0) else FbOwner))
    case RegLoad(i) =>
      (sh, Goto(th, if i >= |sh.slots| then FbOwner else if sh.slots[i] == 0 then RegCas(i) else RegLoad(i + 1)))
    case RegCas(i) =>
      if i < |sh.slots| && sh.slots[i] == 0
      then (sh.(slots := sh.slots[i := 1]), Goto(th, RegStore(i)))
      else (sh, Goto(th, RegLoad(i + 1)))
    case RegStore(i) => (sh.(refs := sh.refs + 1), th.(pc := ShLoad, index := Some(i)))
  }

  predicate SlotPC(pc: PC) { pc.ShLoad? || pc.ShNest? || Waiting(pc) }

  /** lock_shared of a registered thread: nest, or announce and test the writer flag. */
  function LockSharedStep(sh: Shared, th: Thread): (Shared, Thread)
    requires SlotPC(th.pc)
  {
    if !OwnSlot(sh, th) then (sh, Goto(th, Fault)) else
    match th.pc
    case ShLoad =>
      var d := sh.slots[th.index.value];
      (sh, Goto(th, if d < 1 then Fault else if d > 1 then ShNest(d) else ShAnnounce(d)))
    case ShNest(d) => (Store(sh, th, d + 1), th.(pc := Idle, slotHeld := th.slotHeld + 1))
    case ShAnnounce(d) => (Store(sh, th, d + 1), Goto(th, ShTest(d)))
    case ShTest(d) =>
      (sh, if sh.want then Goto(th, ShBackOff(d)) else th.(pc := Idle, slotHeld := th.slotHeld + 1))
    case ShBackOff(d) => (Store(sh, th, d), Goto(th, ShSpin(d)))
    case ShSpin(d) => (sh, Goto(th, if sh.want then ShSpin(d) else ShAnnounce(d)))
  }

  predicate FallbackPC(pc: PC) { pc.FbOwner? || pc.FbCas? || pc.FbSetOwner? || pc.FbCount? }

  /** lock_shared of a thread that found no slot: it takes the writer flag itself. */
  function FallbackStep(sh: Shared, t: Tid, th: Thread): (Shared, Thread)
    requires FallbackPC(th.pc)
  {
    match th.pc
    case FbOwner => (sh, Goto(th, if sh.owner == Some(t) then FbCount else FbCas))
    case FbCas => if sh.want then (sh, th) else (sh.(want := true), Goto(th, FbSetOwner))
    case FbSetOwner => (sh.(owner := Some(t)), Goto(th, FbCount))
    case FbCount => (sh.(xcount := sh.xcount + 1), th.(pc := Idle, fbHeld := th.fbHeld + 1))
  }

  predicate LockPC(pc: PC) {
    pc.LkAssert? || pc.LkOwner? || pc.LkCas? || pc.LkSetOwner? || pc.LkDrain? || pc.LkCount?
  }

  /** lock: win the writer flag, then wait for every slot in turn to fall to 1 or 0. */
  function LockStep(sh: Shared, t: Tid, th: Thread): (Shared, Thread)
    requires LockPC(th.pc)
  {
    match th.pc
    case LkAssert =>
      (sh, Goto(th, if OwnSlot(sh, th) && sh.slots[th.index.value] == 1 then LkOwner else Fault))
    case LkOwner => (sh, Goto(th, if sh.owner == Some(t) then LkCount else LkCas))
    case LkCas => if sh.want then (sh, th) else (sh.(want := true), Goto(th, LkSetOwner))
    case LkSetOwner => (sh.(owner := Some(t)), Goto(th, LkDrain(0)))
    case LkDrain(i) =>
      (sh, Goto(th, if i >= |sh.slots| then LkCount else if sh.slots[i] > 1 then LkDrain(i) else LkDrain(i + 1)))
    case LkCount => (sh.(xcount := sh.xcount + 1), th.(pc := Idle, exHeld := th.exHeld + 1))
  }

  predicate UnlockSharedPC(pc: PC) { pc.UnshLoad? || pc.UnshStore? }

  /** unlock_shared of a registered thread. Releasing a lock that is not held is a fault. */
  function UnlockSharedStep(sh: Shared, th: Thread): (Shared, Thread)
    requires UnlockSharedPC(th.pc)
  {
    match th.pc
    case UnshLoad =>
      (sh, Goto(th, if OwnSlot(sh, th) && sh.slots[th.index.value] > 1
                    then UnshStore(sh.slots[th.index.value]) else Fault))
    case UnshStore(d) =>
      if !OwnSlot(sh, th) || th.slotHeld == 0 then (sh, Goto(th, Fault))
      else (Store(sh, th, d - 1), th.(pc := Idle, slotHeld := th.slotHeld - 1))
  }

  predicate ReleasePC(pc: PC) { pc.UnshDec? || pc.UnlkDec? || pc.RelClearOwner? || pc.RelClearFlag? }

  /** Leaving by the recursion count: the last one out releases the flag. */
  function AfterDec(sh: Shared): PC {
    if sh.xcount - 1 == 0 then RelClearOwner else Idle
  }

  /** unlock, and unlock_shared of an unregistered thread. */
  function ReleaseStep(sh: Shared, th: Thread): (Shared, Thread)
    requires ReleasePC(th.pc)
  {
    match th.pc
    case UnshDec =>
      if th.fbHeld == 0 then (sh, Goto(th, Fault))
      else (sh.(xcount := sh.xcount - 1), th.(pc := AfterDec(sh), fbHeld := th.fbHeld - 1))
    case UnlkDec =>
      if th.exHeld == 0 || sh.xcount <= 0 then (sh, Goto(th, Fault))
      else (sh.(xcount := sh.xcount - 1), th.(pc := AfterDec(sh), exHeld := th.exHeld - 1))
    case RelClearOwner => (sh.(owner := None), Goto(th, RelClearFlag))
    case RelClearFlag => (sh.(want := false), Goto(th, Idle))
  }

  predicate UnregisterPC(pc: PC) { pc.UnregLoad? || pc.UnregDec? || pc.UnregDrop? }

  /** unregister_thread: give the slot back unless the thread is inside a shared lock. */
  function UnregisterStep(sh: Shared, th: Thread): (Shared, Thread)
    requires UnregisterPC(th.pc)
  {
    match th.pc
    case UnregLoad =>
      (sh, Goto(th, if OwnSlot(sh, th) && sh.slots[th.index.value] == 1 then UnregDec else Idle))
    case UnregDec =>
      if !OwnSlot(sh, th) then (sh, Goto(th, Fault))
      else (Store(sh, th, sh.slots[th.index.value] - 1), th.(pc := UnregDrop, index := None))
    case UnregDrop => (sh.(refs := sh.refs - 1), Goto(th, Idle))
  }

  function Step(sh: Shared, t: Tid, th: Thread): (Shared, Thread) {
    if RegisterPC(th.pc) then RegisterStep(sh, th)
    else if SlotPC(th.pc) then LockSharedStep(sh, th)
    else if FallbackPC(th.pc) then FallbackStep(sh, t, th)
    else if LockPC(th.pc) then LockStep(sh, t, th)
    else if UnlockSharedPC(th.pc) then UnlockSharedStep(sh, th)
    else if ReleasePC(th.pc) then ReleaseStep(sh, th)
    else if UnregisterPC(th.pc) then UnregisterStep(sh, th)
    else (sh, th)
  }

  predicate MayHappen(th: Thread, e: Event) {
    match e
    case Run(_) => th.pc != Idle
    case Invoke(_, c) => th.pc == Idle && MayCall(th, c)
    case Stall(_) => th.pc == FbCas || th.pc == LkCas
  }

  /** The memory and the thread after an event. */
  function Outcome(sh: Shared, th: Thread, e: Event): (Shared, Thread) {
    match e
    case Run(t) => Step(sh, t, th)
    case Invoke(t, c) => (sh, Goto(th, Entry(th, c)))
    case Stall(_) => (sh, th)
  }

  predicate Enabled(s: State, e: Event) {
    e.t in s.threads && MayHappen(s.threads[e.t], e)
  }

  function Apply(s: State, e: Event): State
    requires Enabled(s, e)
  {
    var (sh', th') := Outcome(s.sh, s.threads[e.t], e);
    State(sh', s.threads[e.t := th'])
  }

  // ---------------------------------------------------------------- runs

  /** A fresh mutex with `n` slots, and `tids` the threads that will ever use it. */
  function Init(n: nat, tids: set<Tid>): State {
    State(Shared(false, None, seq(n, _ => 0), 0, 1), map t | t in tids :: Thread(Idle, None, 0, 0, 0))
  }

  predicate ValidRun(s: State, es: seq<Event>)
    decreases |es|
  {
    es == [] || (Enabled(s, es[0]) && ValidRun(Apply(s, es[0]), es[1..]))
  }

  function After(s: State, es: seq<Event>): State
    requires ValidRun(s, es)
    decreases |es|
  {
    if es == [] then s else After(Apply(s, es[0]), es[1..])
  }

  // ---------------------------------------------------------------- the invariant

  /** The slot a thread occupies, from the winning compare-and-swap to the freeing store. */
  function Slot(th: Thread): Option<nat> {
    if th.pc.RegStore? then Some(th.pc.i) else th.index
  }

  /** The slot shows one more than the depth between announcing and backing off. */
  predicate Announcing(pc: PC) { pc.ShTest? || pc.ShBackOff? }

  /** Inside the waiting loop of a first shared lock. */
  predicate Waiting(pc: PC) { pc.ShAnnounce? || pc.ShTest? || pc.ShBackOff? || pc.ShSpin? }

  predicate HoldsFlag(th: Thread) {
    th.exHeld > 0 || th.fbHeld > 0 || th.pc.FbSetOwner? || th.pc.FbCount? || th.pc.LkSetOwner? ||
    th.pc.LkDrain? || th.pc.LkCount? || th.pc.RelClearOwner? || th.pc.RelClearFlag?
  }

  /** Slots below this level are known to hold no reader, as far as this thread is concerned. */
  function Drained(n: nat, th: Thread): nat {
    if th.exHeld > 0 || th.pc.LkCount? then n else if th.pc.LkDrain? then th.pc.i else 0
  }

  /** Steps of a thread that has, or has no, registered slot. */
  predicate NeedsSlot(pc: PC) {
    SlotPC(pc) || UnlockSharedPC(pc) || pc.LkAssert? || pc.UnregLoad? || pc.UnregDec?
  }

  predicate NeedsNoSlot(pc: PC) { RegisterPC(pc) || FallbackPC(pc) || pc.UnshDec? || pc.UnregDrop? }

  /** Program counter against registration, held locks and local copies. */
  predicate PCOk(n: nat, th: Thread) {
    && th.pc != Fault
    && (NeedsSlot(th.pc) ==> th.index.Some?)
    && (NeedsNoSlot(th.pc) ==> th.index.None?)
    && (th.index.Some? ==> th.index.value < n)
    && (th.pc.RegCas? || th.pc.RegStore? ==> th.pc.i < n)
    && (th.pc.LkDrain? ==> th.pc.i <= n)
    // shared through the slot: never together with the flag
    && (th.slotHeld > 0 ==> th.index.Some? && !HoldsFlag(th))
    && (Waiting(th.pc) || LockPC(th.pc) || th.pc.UnregDec? ==> th.slotHeld == 0)
    && (UnlockSharedPC(th.pc) || th.pc.ShNest? ==> th.slotHeld > 0)
    && (th.pc.UnshStore? || th.pc.ShNest? || Waiting(th.pc) ==> th.pc.d == 1 + th.slotHeld)
    // shared through the flag: only a thread that blocked itself has a slot as well
    && (th.fbHeld > 0 && th.index.Some? ==> th.pc.ShLoad? || Waiting(th.pc))
    && (th.pc.UnshDec? ==> th.fbHeld > 0)
    && (th.pc.UnlkDec? ==> th.exHeld > 0)
    && (th.pc.LkAssert? || th.pc.LkOwner? ==> th.fbHeld > 0 ==> th.exHeld > 0)
    && (th.pc.FbCas? || th.pc.LkCas? || th.pc.FbSetOwner? || th.pc.LkSetOwner? ==> th.exHeld == 0 && th.fbHeld == 0)
    && (th.pc.LkDrain? || th.pc.RelClearOwner? || th.pc.RelClearFlag? ==> th.exHeld == 0 && th.fbHeld == 0)
  }

  /** A thread against the shared memory. */
  predicate LocalOk(sh: Shared, t: Tid, th: Thread) {
    && PCOk(|sh.slots|, th)
    && (Slot(th).Some? ==>
          sh.slots[Slot(th).value] == 1 + th.slotHeld + (if Announcing(th.pc) then 1 else 0))
    && (HoldsFlag(th) ==> sh.want && sh.xcount == th.exHeld + th.fbHeld)
    && (sh.owner == Some(t) <==>
        HoldsFlag(th) && !th.pc.FbSetOwner? && !th.pc.LkSetOwner? && !th.pc.RelClearFlag?)
  }

  /** Two different threads: one flag holder, no slot shared, and no reader below the level
      the other has drained. */
  predicate PairOk(n: nat, th: Thread, other: Thread) {
    && !(HoldsFlag(th) && HoldsFlag(other))
    && (Slot(th).Some? ==> Slot(th) != Slot(other))
    && (other.slotHeld > 0 && other.index.Some? ==> Drained(n, th) <= other.index.value)
  }

  predicate SharedOk(sh: Shared) {
    && (!sh.want ==> sh.xcount == 0)
    && (forall i :: 0 <= i < |sh.slots| ==> sh.slots[i] >= 0)
  }

  /** Threads that hold a reference to the slot array. */
  predicate Refers(th: Thread) { th.index.Some? || th.pc.UnregDrop? }

  function Referrers(threads: map<Tid, Thread>): set<Tid> {
    set t | t in threads && Refers(threads[t])
  }

  predicate FlagHeld(threads: map<Tid, Thread>) {
    exists t :: t in threads && HoldsFlag(threads[t])
  }

  predicate Occupied(threads: map<Tid, Thread>, i: nat) {
    exists t :: t in threads && Slot(threads[t]) == Some(i)
  }

  /** Nothing is held by nobody: a raised flag and an occupied slot have a thread behind them. */
  predicate Attributed(s: State) {
    && (s.sh.want ==> FlagHeld(s.threads))
    && (forall i :: 0 <= i < |s.sh.slots| && s.sh.slots[i] > 0 ==> Occupied(s.threads, i))
    && s.sh.refs == 1 + |Referrers(s.threads)|
  }

  ghost predicate Inv(s: State) {
    && SharedOk(s.sh)
    && (forall t :: t in s.threads ==> LocalOk(s.sh, t, s.threads[t]))
    && (forall t, u :: t in s.threads && u in s.threads && t != u ==>
          PairOk(|s.sh.slots|, s.threads[t], s.threads[u]))
    && Attributed(s)
  }
}
