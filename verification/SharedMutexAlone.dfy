/**
 * Calls of the lock that run with no other thread moving: exactly when each of them returns, and
 * what it has then done. A call that gives something back also returns, within a fixed number of
 * its own steps, whatever the other threads do.
 */
module SharedMutexAlone {
  import opened Basics
  import opened SharedMutex
  import opened SharedMutexSafety

  /** The thread after `m` of its own steps with nobody else running, stopping when the call returns. */
  function Solo(sh: Shared, t: Tid, th: Thread, m: nat): (Shared, Thread)
    decreases m
  {
    if m == 0 || th.pc == Idle then (sh, th) else
    var (sh', th') := Step(sh, t, th);
    Solo(sh', t, th', m - 1)
  }

  /** One step of a run of one thread. */
  lemma Moves(sh: Shared, t: Tid, th: Thread, m: nat, sh': Shared, th': Thread)
    requires th.pc != Idle && m > 0 && Step(sh, t, th) == (sh', th')
    ensures Solo(sh, t, th, m) == Solo(sh', t, th', m - 1)
  {
  }

  /** The call a thread is in returns if nobody else moves. */
  ghost predicate ReturnsAlone(sh: Shared, t: Tid, th: Thread) {
    exists m: nat :: Solo(sh, t, th, m).1.pc == Idle
  }

  // ---------------------------------------------------------------- when a call never returns

  predicate FreeSlotFrom(sh: Shared, i: nat) { exists j :: i <= j < |sh.slots| && sh.slots[j] == 0 }

  predicate ReaderFrom(sh: Shared, i: nat) { exists j :: i <= j < |sh.slots| && sh.slots[j] > 1 }

  predicate Holds(th: Thread) { th.exHeld + th.fbHeld > 0 }

  /** Alone, the thread stays in its call for good: it waits for a flag that is up, or for a
      reader that stays inside. */
  predicate Stuck(sh: Shared, t: Tid, th: Thread) {
    match th.pc
    case RegCount => sh.want && (!Holds(th) || (sh.refs <= |sh.slots| && FreeSlotFrom(sh, 0)))
    case RegLoad(i) => sh.want && (!Holds(th) || FreeSlotFrom(sh, i))
    case RegCas(i) => sh.want && (!Holds(th) || FreeSlotFrom(sh, i))
    case RegStore(_) => sh.want
    case ShLoad => sh.want && th.slotHeld == 0
    case ShAnnounce(_) => sh.want
    case ShTest(_) => sh.want
    case ShBackOff(_) => sh.want
    case ShSpin(_) => sh.want
    case FbOwner => sh.want && !Holds(th)
    case FbCas => sh.want
    case LkAssert => !Holds(th) && (sh.want || ReaderFrom(sh, 0))
    case LkOwner => !Holds(th) && (sh.want || ReaderFrom(sh, 0))
    case LkCas => sh.want || ReaderFrom(sh, 0)
    case LkSetOwner => ReaderFrom(sh, 0)
    case LkDrain(i) => ReaderFrom(sh, i)
    case _ => false
  }

  /** Enough own steps for a thread at this point to return, unless it is stuck. */
  function Bound(n: nat, pc: PC): nat {
    match pc
    case RegCount => 2 * n + 11
    case RegLoad(i) => if i < n then 2 * (n - i) + 10 else 5
    case RegCas(i) => if i < n then 2 * (n - i) + 9 else 6
    case RegStore(_) => 6
    case ShLoad => 5
    case ShBackOff(_) => 4
    case ShSpin(_) => 3
    case ShAnnounce(_) => 2
    case FbOwner => 4
    case FbCas => 3
    case FbSetOwner => 2
    case LkAssert => n + 6
    case LkOwner => n + 5
    case LkCas => n + 4
    case LkSetOwner => n + 3
    case LkDrain(i) => if i < n then n - i + 2 else 2
    case UnshLoad => 2
    case UnshDec => 3
    case UnlkDec => 3
    case RelClearOwner => 2
    case UnregLoad => 3
    case UnregDec => 2
    case Idle => 0
    case _ => 1
  }

  lemma StuckStep(sh: Shared, t: Tid, th: Thread)
    requires LocalOk(sh, t, th) && Stuck(sh, t, th)
    ensures Stuck(Step(sh, t, th).0, t, Step(sh, t, th).1)
  {
    if th.pc.RegLoad? && th.pc.i < |sh.slots| && sh.slots[th.pc.i] != 0 && FreeSlotFrom(sh, th.pc.i) {
      assert FreeSlotFrom(sh, th.pc.i + 1);
    }
    if th.pc.LkDrain? && th.pc.i < |sh.slots| && sh.slots[th.pc.i] <= 1 {
      assert ReaderFrom(sh, th.pc.i + 1);
    }
  }

  /** A step that does not leave the thread stuck brings it nearer to its return. */
  ghost predicate Nearer(sh: Shared, t: Tid, th: Thread, r: (Shared, Thread)) {
    !Stuck(r.0, t, r.1) && Bound(|sh.slots|, r.1.pc) < Bound(|sh.slots|, th.pc)
  }

  lemma RegisterNearer(sh: Shared, t: Tid, th: Thread)
    requires LocalOk(sh, t, th) && !Stuck(sh, t, th) && RegisterPC(th.pc)
    ensures Nearer(sh, t, th, RegisterStep(sh, th))
  {
  }

  lemma LockSharedNearer(sh: Shared, t: Tid, th: Thread)
    requires LocalOk(sh, t, th) && !Stuck(sh, t, th) && SlotPC(th.pc)
    ensures Nearer(sh, t, th, LockSharedStep(sh, th))
  {
  }

  lemma FlagNearer(sh: Shared, t: Tid, th: Thread)
    requires LocalOk(sh, t, th) && !Stuck(sh, t, th) && (FallbackPC(th.pc) || LockPC(th.pc))
    ensures Nearer(sh, t, th, Step(sh, t, th))
  {
  }

  lemma GiveBackNearer(sh: Shared, t: Tid, th: Thread)
    requires LocalOk(sh, t, th) && th.pc != Idle && !AcquirePC(th.pc)
    ensures Nearer(sh, t, th, Step(sh, t, th)) && !AcquirePC(Step(sh, t, th).1.pc)
  {
  }

  lemma StepNearer(sh: Shared, t: Tid, th: Thread)
    requires LocalOk(sh, t, th) && !Stuck(sh, t, th) && th.pc != Idle
    ensures Nearer(sh, t, th, Step(sh, t, th))
  {
    if RegisterPC(th.pc) { RegisterNearer(sh, t, th); }
    else if SlotPC(th.pc) { LockSharedNearer(sh, t, th); }
    else if FallbackPC(th.pc) || LockPC(th.pc) { FlagNearer(sh, t, th); }
    else { GiveBackNearer(sh, t, th); }
  }

  // ---------------------------------------------------------------- what a call has done when it returns

  /** The first free slot from `i` on, or the number of slots. */
  function FirstFree(slots: seq<int>, i: nat): (j: nat)
    requires i <= |slots|
    ensures i <= j <= |slots| && (j < |slots| ==> slots[j] == 0) && forall k :: i <= k < j ==> slots[k] != 0
    decreases |slots| - i
  {
    if i == |slots| || slots[i] == 0 then i else FirstFree(slots, i + 1)
  }

  function SetSlot(sh: Shared, i: nat, v: int): Shared
    requires i < |sh.slots|
  {
    sh.(slots := sh.slots[i := v])
  }

  /** The memory once the thread has one more lock by the flag. */
  function Raised(sh: Shared, t: Tid, th: Thread): Shared {
    sh.(want := true, owner := Some(t), xcount := th.exHeld + th.fbHeld + 1)
  }

  /** The memory once `left` locks by the flag are left: with none left the flag is down. */
  function Lowered(sh: Shared, left: nat): Shared {
    if left == 0 then sh.(want := false, owner := None, xcount := 0) else sh.(xcount := left)
  }

  /** A shared lock that registers in the first free slot from `i` on, or else takes the flag. */
  function Entered(sh: Shared, t: Tid, th: Thread, i: nat): (Shared, Thread) {
    var j := if i < |sh.slots| then FirstFree(sh.slots, i) else |sh.slots|;
    if j < |sh.slots|
    then (SetSlot(sh, j, 2).(refs := sh.refs + 1), th.(pc := Idle, index := Some(j), slotHeld := 1))
    else (Raised(sh, t, th), th.(pc := Idle, fbHeld := th.fbHeld + 1))
  }

  /** Where registering, and the shared lock it belongs to, end. */
  function RegisterFinal(sh: Shared, t: Tid, th: Thread): (Shared, Thread)
    requires LocalOk(sh, t, th) && RegisterPC(th.pc)
  {
    match th.pc
    case RegCount => Entered(sh, t, th, if sh.refs <= |sh.slots| then 0 else |sh.slots|)
    case RegLoad(i) => Entered(sh, t, th, i)
    case RegCas(i) => Entered(sh, t, th, i)
    case RegStore(i) => (SetSlot(sh, i, 2).(refs := sh.refs + 1), th.(pc := Idle, index := Some(i), slotHeld := 1))
  }

  function ReleaseFinal(sh: Shared, t: Tid, th: Thread): (Shared, Thread)
    requires LocalOk(sh, t, th) && ReleasePC(th.pc)
  {
    if th.pc.UnshDec? then (Lowered(sh, th.exHeld + th.fbHeld - 1), th.(pc := Idle, fbHeld := th.fbHeld - 1))
    else if th.pc.UnlkDec? then (Lowered(sh, th.exHeld + th.fbHeld - 1), th.(pc := Idle, exHeld := th.exHeld - 1))
    else if th.pc.RelClearOwner? then (Lowered(sh, 0), Goto(th, Idle))
    else (sh.(want := false), Goto(th, Idle))
  }

  function UnregisterFinal(sh: Shared, t: Tid, th: Thread): (Shared, Thread)
    requires LocalOk(sh, t, th) && UnregisterPC(th.pc)
  {
    if th.pc.UnregDrop? then (sh.(refs := sh.refs - 1), Goto(th, Idle))
    else if th.slotHeld > 0 then (sh, Goto(th, Idle))
    else (SetSlot(sh, th.index.value, 0).(refs := sh.refs - 1), th.(pc := Idle, index := None))
  }

  /** Where the thread's call ends from any point of it. */
  function Final(sh: Shared, t: Tid, th: Thread): (Shared, Thread)
    requires LocalOk(sh, t, th)
  {
    if RegisterPC(th.pc) then RegisterFinal(sh, t, th)
    else if SlotPC(th.pc) then
      (SetSlot(sh, th.index.value, 2 + th.slotHeld), th.(pc := Idle, slotHeld := th.slotHeld + 1))
    else if FallbackPC(th.pc) then (Raised(sh, t, th), th.(pc := Idle, fbHeld := th.fbHeld + 1))
    else if LockPC(th.pc) then (Raised(sh, t, th), th.(pc := Idle, exHeld := th.exHeld + 1))
    else if UnlockSharedPC(th.pc) then
      (SetSlot(sh, th.index.value, th.slotHeld), th.(pc := Idle, slotHeld := th.slotHeld - 1))
    else if ReleasePC(th.pc) then ReleaseFinal(sh, t, th)
    else if UnregisterPC(th.pc) then UnregisterFinal(sh, t, th)
    else (sh, th)
  }

  lemma StoreTwice(sh: Shared, i: nat, v: int, w: int)
    requires i < |sh.slots|
    ensures sh.slots[i := v][i := w] == sh.slots[i := w]
    ensures sh.slots[i] == w ==> sh.slots[i := w] == sh.slots
  {
  }

  /** A step changes nothing about where the call ends. */
  ghost predicate Keeps(sh: Shared, t: Tid, th: Thread, r: (Shared, Thread))
    requires LocalOk(sh, t, th)
  {
    LocalOk(r.0, t, r.1) ==> Final(r.0, t, r.1) == Final(sh, t, th)
  }

  lemma ScanKeeps(sh: Shared, t: Tid, th: Thread)
    requires LocalOk(sh, t, th) && (th.pc.RegCount? || th.pc.RegLoad?)
    ensures Keeps(sh, t, th, RegisterStep(sh, th))
  {
  }

  lemma TakeSlotKeeps(sh: Shared, t: Tid, th: Thread)
    requires LocalOk(sh, t, th) && th.pc.RegCas?
    ensures Keeps(sh, t, th, RegisterStep(sh, th))
  {
    StoreTwice(sh, th.pc.i, 1, 2);
  }

  lemma KeepSlotKeeps(sh: Shared, t: Tid, th: Thread)
    requires LocalOk(sh, t, th) && th.pc.RegStore?
    ensures Keeps(sh, t, th, RegisterStep(sh, th))
  {
  }

  lemma LockSharedKeeps(sh: Shared, t: Tid, th: Thread)
    requires LocalOk(sh, t, th) && SlotPC(th.pc)
    ensures Keeps(sh, t, th, LockSharedStep(sh, th))
  {
    var i := th.index.value;
    StoreTwice(sh, i, 1, 2);
    StoreTwice(sh, i, 2, 2);
  }

  lemma FallbackKeeps(sh: Shared, t: Tid, th: Thread)
    requires SharedOk(sh) && LocalOk(sh, t, th) && FallbackPC(th.pc)
    ensures Keeps(sh, t, th, FallbackStep(sh, t, th))
  {
  }

  lemma LockKeeps(sh: Shared, t: Tid, th: Thread)
    requires SharedOk(sh) && LocalOk(sh, t, th) && LockPC(th.pc)
    ensures Keeps(sh, t, th, LockStep(sh, t, th))
  {
  }

  lemma UnlockSharedKeeps(sh: Shared, t: Tid, th: Thread)
    requires LocalOk(sh, t, th) && UnlockSharedPC(th.pc)
    ensures Keeps(sh, t, th, UnlockSharedStep(sh, th))
  {
  }

  lemma ReleaseKeeps(sh: Shared, t: Tid, th: Thread)
    requires LocalOk(sh, t, th) && ReleasePC(th.pc)
    ensures Keeps(sh, t, th, ReleaseStep(sh, th))
  {
  }

  lemma UnregisterKeeps(sh: Shared, t: Tid, th: Thread)
    requires LocalOk(sh, t, th) && UnregisterPC(th.pc)
    ensures Keeps(sh, t, th, UnregisterStep(sh, th))
  {
  }

  lemma StepKeeps(sh: Shared, t: Tid, th: Thread)
    requires SharedOk(sh) && LocalOk(sh, t, th)
    ensures Keeps(sh, t, th, Step(sh, t, th))
  {
    if th.pc.RegCount? || th.pc.RegLoad? { ScanKeeps(sh, t, th); }
    else if th.pc.RegCas? { TakeSlotKeeps(sh, t, th); }
    else if th.pc.RegStore? { KeepSlotKeeps(sh, t, th); }
    else if SlotPC(th.pc) { LockSharedKeeps(sh, t, th); }
    else if FallbackPC(th.pc) { FallbackKeeps(sh, t, th); }
    else if LockPC(th.pc) { LockKeeps(sh, t, th); }
    else if UnlockSharedPC(th.pc) { UnlockSharedKeeps(sh, t, th); }
    else if ReleasePC(th.pc) { ReleaseKeeps(sh, t, th); }
    else if UnregisterPC(th.pc) { UnregisterKeeps(sh, t, th); }
  }

  // ---------------------------------------------------------------- every call, from any point of it

  lemma {:induction false} StuckNeverReturns(sh: Shared, t: Tid, th: Thread, m: nat)
    requires SharedOk(sh) && LocalOk(sh, t, th) && Stuck(sh, t, th)
    ensures Solo(sh, t, th, m).1.pc != Idle
    decreases m
  {
    if m > 0 {
      StepOwn(sh, t, th);
      StuckStep(sh, t, th);
      StuckNeverReturns(Step(sh, t, th).0, t, Step(sh, t, th).1, m - 1);
    }
  }

  /** A thread that is not stuck returns within the bound, and has then done what `Final` says. */
  lemma {:induction false} ReachesFinal(sh: Shared, t: Tid, th: Thread, m: nat)
    requires SharedOk(sh) && LocalOk(sh, t, th) && !Stuck(sh, t, th) && m >= Bound(|sh.slots|, th.pc)
    ensures Solo(sh, t, th, m) == Final(sh, t, th) && Final(sh, t, th).1.pc == Idle
    decreases m
  {
    if th.pc != Idle {
      StepOwn(sh, t, th);
      StepNearer(sh, t, th);
      StepKeeps(sh, t, th);
      ReachesFinal(Step(sh, t, th).0, t, Step(sh, t, th).1, m - 1);
    }
  }

  /** From any point of any call: alone, the thread returns exactly when it is not stuck. */
  lemma ReturnsAloneIff(sh: Shared, t: Tid, th: Thread)
    requires SharedOk(sh) && LocalOk(sh, t, th)
    ensures ReturnsAlone(sh, t, th) <==> !Stuck(sh, t, th)
  {
    if Stuck(sh, t, th) {
      forall m: nat ensures Solo(sh, t, th, m).1.pc != Idle { StuckNeverReturns(sh, t, th, m); }
    } else {
      ReachesFinal(sh, t, th, Bound(|sh.slots|, th.pc));
    }
  }

  lemma CallBegins(n: nat, s: State, t: Tid, c: Call)
    requires Reachable(n, s) && t in s.threads && s.threads[t].pc == Idle && MayCall(s.threads[t], c)
    ensures SharedOk(s.sh) && |s.sh.slots| == n && LocalOk(s.sh, t, s.threads[t])
    ensures LocalOk(s.sh, t, Goto(s.threads[t], Entry(s.threads[t], c)))
  {
    ReachableInv(n, s);
    InvokeOk(s.sh, t, s.threads[t], c);
  }

  // ---------------------------------------------------------------- the calls

  /** `unlock` always returns, three steps later at most: one exclusive lock is released, and the
      flag is down exactly when no lock by the flag is left. */
  lemma UnlockReturns(n: nat, s: State, t: Tid, m: nat)
    requires Reachable(n, s) && t in s.threads && s.threads[t].pc == Idle && s.threads[t].exHeld > 0 && m >= 3
    ensures Enabled(s, Invoke(t, Unlock))
    ensures var th := s.threads[t];
            Solo(s.sh, t, Goto(th, Entry(th, Unlock)), m) ==
            (Lowered(s.sh, th.exHeld + th.fbHeld - 1), th.(exHeld := th.exHeld - 1))
  {
    CallBegins(n, s, t, Unlock);
    UnlockFrom(s.sh, t, s.threads[t], m);
  }

  lemma UnlockFrom(sh: Shared, t: Tid, th: Thread, m: nat)
    requires SharedOk(sh) && LocalOk(sh, t, Goto(th, UnlkDec)) && th.pc == Idle && m >= 3
    ensures th.exHeld > 0
    ensures Solo(sh, t, Goto(th, UnlkDec), m) == (Lowered(sh, th.exHeld + th.fbHeld - 1), th.(exHeld := th.exHeld - 1))
  {
    ReachesFinal(sh, t, Goto(th, UnlkDec), m);
  }

  /** `unlock_shared` always returns: one shared lock is released, the slot shows one less, or the
      flag is down exactly when no lock by the flag is left. */
  lemma UnlockSharedReturns(n: nat, s: State, t: Tid, m: nat)
    requires Reachable(n, s) && t in s.threads && s.threads[t].pc == Idle && m >= 3
    requires s.threads[t].slotHeld + s.threads[t].fbHeld > 0
    ensures Enabled(s, Invoke(t, UnlockShared))
    ensures var th := s.threads[t];
            var r := Solo(s.sh, t, Goto(th, Entry(th, UnlockShared)), m);
            if th.slotHeld > 0
            then OwnSlot(s.sh, th) && r == (Store(s.sh, th, s.sh.slots[th.index.value] - 1), th.(slotHeld := th.slotHeld - 1))
            else r == (Lowered(s.sh, th.exHeld + th.fbHeld - 1), th.(fbHeld := th.fbHeld - 1))
  {
    CallBegins(n, s, t, UnlockShared);
    UnlockSharedFrom(s.sh, t, s.threads[t], m);
  }

  lemma UnlockSharedFrom(sh: Shared, t: Tid, th: Thread, m: nat)
    requires SharedOk(sh) && LocalOk(sh, t, th) && th.pc == Idle && th.slotHeld + th.fbHeld > 0 && m >= 3
    requires LocalOk(sh, t, Goto(th, Entry(th, UnlockShared)))
    ensures var r := Solo(sh, t, Goto(th, Entry(th, UnlockShared)), m);
            if th.slotHeld > 0
            then OwnSlot(sh, th) && r == (Store(sh, th, sh.slots[th.index.value] - 1), th.(slotHeld := th.slotHeld - 1))
            else r == (Lowered(sh, th.exHeld + th.fbHeld - 1), th.(fbHeld := th.fbHeld - 1))
  {
    ReachesFinal(sh, t, Goto(th, Entry(th, UnlockShared)), m);
  }

  /** `unregister_thread` always returns: the slot is free and its reference dropped, unless the
      thread is inside a shared lock by that slot; then nothing has changed. */
  lemma UnregisterReturns(n: nat, s: State, t: Tid, m: nat)
    requires Reachable(n, s) && t in s.threads && s.threads[t].pc == Idle && s.threads[t].index.Some? && m >= 3
    ensures Enabled(s, Invoke(t, Unregister))
    ensures var th := s.threads[t];
            var r := Solo(s.sh, t, Goto(th, Entry(th, Unregister)), m);
            if th.slotHeld > 0 then r == (s.sh, th)
            else OwnSlot(s.sh, th) && r == (Store(s.sh, th, 0).(refs := s.sh.refs - 1), th.(index := None))
  {
    var th := s.threads[t];
    CallBegins(n, s, t, Unregister);
    ReachesFinal(s.sh, t, Goto(th, UnregLoad), m);
  }

  /** `lock` never returns if it waits for another holder of the flag, or for a thread that is in,
      or on its way in, through a slot. */
  predicate LockWaits(sh: Shared, th: Thread) {
    th.exHeld == 0 && (sh.want || ReaderFrom(sh, 0))
  }

  ghost predicate LockEnds(sh: Shared, t: Tid, th: Thread, m: nat) {
    var th1 := Goto(th, Entry(th, Lock));
    if LockWaits(sh, th) then !ReturnsAlone(sh, t, th1)
    else Solo(sh, t, th1, m) == (Raised(sh, t, th), th.(exHeld := th.exHeld + 1))
  }

  /** `lock` returns exactly when it does not wait; the thread then has the flag and one
      exclusive lock more. */
  lemma LockReturnsIff(n: nat, s: State, t: Tid, m: nat)
    requires Reachable(n, s) && t in s.threads && s.threads[t].pc == Idle && m >= n + 6
    requires s.threads[t].slotHeld + s.threads[t].fbHeld == 0 || s.threads[t].exHeld > 0
    ensures Enabled(s, Invoke(t, Lock)) && LockEnds(s.sh, t, s.threads[t], m)
  {
    CallBegins(n, s, t, Lock);
    LockFrom(s.sh, t, s.threads[t], m);
  }

  lemma LockStuckIff(sh: Shared, t: Tid, th: Thread)
    requires MayCall(th, Lock)
    ensures Stuck(sh, t, Goto(th, Entry(th, Lock))) <==> LockWaits(sh, th)
  {
  }

  lemma LockFinal(sh: Shared, t: Tid, th: Thread, m: nat)
    requires SharedOk(sh) && th.pc == Idle && m >= |sh.slots| + 6
    requires LocalOk(sh, t, Goto(th, Entry(th, Lock))) && !Stuck(sh, t, Goto(th, Entry(th, Lock)))
    ensures Solo(sh, t, Goto(th, Entry(th, Lock)), m) == (Raised(sh, t, th), th.(exHeld := th.exHeld + 1))
  {
    ReachesFinal(sh, t, Goto(th, Entry(th, Lock)), m);
  }

  lemma LockFrom(sh: Shared, t: Tid, th: Thread, m: nat)
    requires SharedOk(sh) && th.pc == Idle && MayCall(th, Lock) && m >= |sh.slots| + 6
    requires LocalOk(sh, t, Goto(th, Entry(th, Lock)))
    ensures LockEnds(sh, t, th, m)
  {
    var th1 := Goto(th, Entry(th, Lock));
    LockStuckIff(sh, t, th);
    if LockWaits(sh, th) { ReturnsAloneIff(sh, t, th1); } else { LockFinal(sh, t, th, m); }
  }

  /** `lock_shared` never returns if the thread waits for a flag that is up; a further lock by the
      slot needs no flag, and a further lock by the flag is let in if no slot can be got. */
  predicate SharedWaits(sh: Shared, th: Thread) {
    sh.want && th.slotHeld == 0
    && (th.index.Some? || th.exHeld + th.fbHeld == 0 || (sh.refs <= |sh.slots| && FreeSlotFrom(sh, 0)))
  }

  ghost predicate LockSharedEnds(sh: Shared, t: Tid, th: Thread, m: nat) {
    var th1 := Goto(th, Entry(th, LockShared));
    if SharedWaits(sh, th) then !ReturnsAlone(sh, t, th1)
    else if th.index.None? then Solo(sh, t, th1, m) == Entered(sh, t, th, if sh.refs <= |sh.slots| then 0 else |sh.slots|)
    else OwnSlot(sh, th) && Solo(sh, t, th1, m) == (Store(sh, th, sh.slots[th.index.value] + 1), th.(slotHeld := th.slotHeld + 1))
  }

  /** `lock_shared` returns exactly when it does not wait: with one more lock by its slot; or by
      the first free slot, if there are fewer readers than slots and one is free; or by the flag. */
  lemma LockSharedReturnsIff(n: nat, s: State, t: Tid, m: nat)
    requires Reachable(n, s) && t in s.threads && s.threads[t].pc == Idle && m >= 2 * n + 11
    ensures Enabled(s, Invoke(t, LockShared)) && LockSharedEnds(s.sh, t, s.threads[t], m)
  {
    var th := s.threads[t];
    CallBegins(n, s, t, LockShared);
    if th.index.Some? { SlotLockFrom(s.sh, t, th, m); } else { NewLockFrom(s.sh, t, th, m); }
  }

  lemma SlotLockFrom(sh: Shared, t: Tid, th: Thread, m: nat)
    requires SharedOk(sh) && LocalOk(sh, t, th) && th.pc == Idle && th.index.Some? && m >= 5
    requires LocalOk(sh, t, Goto(th, ShLoad))
    ensures LockSharedEnds(sh, t, th, m)
  {
    ReturnsAloneIff(sh, t, Goto(th, ShLoad));
    if !SharedWaits(sh, th) { ReachesFinal(sh, t, Goto(th, ShLoad), m); }
  }

  lemma NewLockFrom(sh: Shared, t: Tid, th: Thread, m: nat)
    requires SharedOk(sh) && LocalOk(sh, t, th) && th.pc == Idle && th.index.None? && m >= 2 * |sh.slots| + 11
    requires LocalOk(sh, t, Goto(th, RegCount))
    ensures LockSharedEnds(sh, t, th, m)
  {
    ReturnsAloneIff(sh, t, Goto(th, RegCount));
    if !SharedWaits(sh, th) { ReachesFinal(sh, t, Goto(th, RegCount), m); }
  }

  // ---------------------------------------------------------------- whatever the others do

  /** Registering, and every call that gives something back. */
  predicate WaitFree(pc: PC) { RegisterPC(pc) || !AcquirePC(pc) }

  lemma WaitFreeStep(sh: Shared, t: Tid, th: Thread)
    requires LocalOk(sh, t, th) && WaitFree(th.pc) && th.pc != Idle
    ensures Bound(|sh.slots|, Step(sh, t, th).1.pc) < Bound(|sh.slots|, th.pc)
  {
    if !RegisterPC(th.pc) { GiveBackNearer(sh, t, th); }
  }

  /** How many of the events are steps of the thread. */
  function OwnSteps(es: seq<Event>, t: Tid): nat {
    if es == [] then 0 else (if es[0] == Run(t) then 1 else 0) + OwnSteps(es[1..], t)
  }

  /** Over the whole run, up to its last state, the thread is at such a step and starts no other call. */
  predicate StaysWaitFree(s: State, es: seq<Event>, t: Tid)
    requires ValidRun(s, es)
    decreases |es|
  {
    es == [] || (t in s.threads && WaitFree(s.threads[t].pc) && !(es[0].Invoke? && es[0].t == t)
                 && StaysWaitFree(Apply(s, es[0]), es[1..], t))
  }

  /** A thread that registers or gives something back needs no more own steps than the bound,
      over every interleaving with any number of others. */
  lemma {:induction false} BoundedSteps(s: State, es: seq<Event>, t: Tid)
    requires Inv(s) && t in s.threads && ValidRun(s, es) && StaysWaitFree(s, es, t)
    ensures t in After(s, es).threads
    ensures OwnSteps(es, t) + Bound(|s.sh.slots|, After(s, es).threads[t].pc) <= Bound(|s.sh.slots|, s.threads[t].pc)
    decreases |es|
  {
    if es != [] {
      InvPreserved(s, es[0]);
      BoundedEvent(s, es[0], t);
      BoundedSteps(Apply(s, es[0]), es[1..], t);
    }
  }

  lemma BoundedEvent(s: State, e: Event, t: Tid)
    requires Inv(s) && t in s.threads && Enabled(s, e) && WaitFree(s.threads[t].pc) && !(e.Invoke? && e.t == t)
    ensures t in Apply(s, e).threads
    ensures (if e == Run(t) then 1 else 0) + Bound(|s.sh.slots|, Apply(s, e).threads[t].pc)
         <= Bound(|s.sh.slots|, s.threads[t].pc)
  {
    if e == Run(t) { WaitFreeStep(s.sh, t, s.threads[t]); }
  }
}
