/** What the lock's users may rely on over whole runs, and where the documented rules stop. */
module SharedMutexRuns {
  import opened Basics
  import opened SharedMutex
  import opened SharedMutexSafety
  import opened SharedMutexAlone

  // ---------------------------------------------------------------- in every reachable state

  /** None of the implementation's assertions ever fails. */
  lemma NoAssertionFails(n: nat, s: State, t: Tid)
    requires Reachable(n, s) && t in s.threads
    ensures s.threads[t].pc != Fault
  {
    ReachableInv(n, s);
    assert LocalOk(s.sh, t, s.threads[t]);
  }

  /** Steps that read or write the recursion count, a plain integer. */
  predicate TouchesCount(pc: PC) { pc.FbCount? || pc.LkCount? || pc.UnshDec? || pc.UnlkDec? }

  lemma WithoutFlag(sh: Shared, t: Tid, th: Thread)
    requires LocalOk(sh, t, th) && !HoldsFlag(th)
    ensures !TouchesCount(th.pc) && th.exHeld + th.fbHeld == 0
  {
  }

  /** No two threads are ever about to touch the recursion count, so it has no data race; and
      it always equals the exclusive and flag-held shared locks that its holder has not released. */
  lemma CountIsExact(n: nat, s: State)
    requires Reachable(n, s)
    ensures !s.sh.want ==> s.sh.xcount == 0 && forall t :: t in s.threads ==> !HoldsFlag(s.threads[t])
    ensures s.sh.want ==> exists t :: t in s.threads && HoldsFlag(s.threads[t])
                                      && s.sh.xcount == s.threads[t].exHeld + s.threads[t].fbHeld
                                      && (forall u :: u in s.threads && u != t ==>
                                            !TouchesCount(s.threads[u].pc) && s.threads[u].exHeld + s.threads[u].fbHeld == 0)
  {
    ReachableInv(n, s);
    if s.sh.want {
      var t :| t in s.threads && HoldsFlag(s.threads[t]);
      forall u | u in s.threads && u != t
        ensures !TouchesCount(s.threads[u].pc) && s.threads[u].exHeld + s.threads[u].fbHeld == 0
      {
        WithoutFlag(s.sh, u, s.threads[u]);
      }
    }
  }

  /** Every occupied slot belongs to exactly one thread, and shows one more than the depth of
      that thread's shared lock, or two more while the thread announces itself. */
  lemma SlotHasOneOwner(n: nat, s: State, i: nat)
    requires Reachable(n, s) && i < n
    ensures |s.sh.slots| == n
    ensures s.sh.slots[i] >= 1 <==> Occupied(s.threads, i)
    ensures forall t, u :: t in s.threads && u in s.threads && Slot(s.threads[t]) == Some(i) == Slot(s.threads[u]) ==> t == u
    ensures forall t :: t in s.threads && Slot(s.threads[t]) == Some(i) ==>
              s.sh.slots[i] == 1 + s.threads[t].slotHeld + (if Announcing(s.threads[t].pc) then 1 else 0)
  {
    ReachableInv(n, s);
    forall t, u | t in s.threads && u in s.threads && Slot(s.threads[t]) == Some(i) == Slot(s.threads[u])
      ensures t == u
    {
      assert t != u ==> PairOk(n, s.threads[t], s.threads[u]);
    }
    forall t | t in s.threads && Slot(s.threads[t]) == Some(i)
      ensures s.sh.slots[i] == 1 + s.threads[t].slotHeld + (if Announcing(s.threads[t].pc) then 1 else 0)
    {
      assert LocalOk(s.sh, t, s.threads[t]);
    }
  }

  lemma StepFreesSlot(sh: Shared, t: Tid, th: Thread, i: nat)
    requires LocalOk(sh, t, th) && i < |sh.slots| && sh.slots[i] >= 1
    requires var sh' := Step(sh, t, th).0; i < |sh'.slots| && sh'.slots[i] == 0
    ensures th.pc == UnregDec && Slot(th) == Some(i) && th.slotHeld == 0
  {
  }

  /** A slot is freed only by its owner, in unregister_thread, outside any shared lock. */
  lemma SlotFreedOnlyWhenUnheld(n: nat, s: State, e: Event, i: nat)
    requires Reachable(n, s) && Enabled(s, e) && i < |s.sh.slots| == |Apply(s, e).sh.slots|
    requires s.sh.slots[i] >= 1 && Apply(s, e).sh.slots[i] == 0
    ensures e == Run(e.t) && s.threads[e.t].pc == UnregDec
    ensures Slot(s.threads[e.t]) == Some(i) && s.threads[e.t].slotHeld == 0
  {
    ReachableInv(n, s);
    if e.Run? { StepFreesSlot(s.sh, e.t, s.threads[e.t], i); }
  }

  // ---------------------------------------------------------------- while the flag is up

  /** Threads inside a shared section that they entered through their slot. */
  function SlotReaders(s: State): set<Tid> { set t | t in s.threads && s.threads[t].slotHeld > 0 }

  /** Threads that have not yet announced themselves and met the flag. */
  function Unannounced(s: State): set<Tid> {
    set t | t in s.threads && !(s.threads[t].pc.ShTest? || s.threads[t].pc.ShBackOff? || s.threads[t].pc.ShSpin?)
  }

  /** Raising a slot from 1 to 2, the only thing that can hold a draining writer up anew. */
  predicate Announces(s: State, e: Event) { e.Run? && e.t in s.threads && s.threads[e.t].pc.ShAnnounce? }

  lemma FlagUpThread(sh: Shared, t: Tid, th: Thread)
    requires LocalOk(sh, t, th) && sh.want
    ensures var (sh', th') := Step(sh, t, th);
            && (th'.slotHeld > 0 ==> th.slotHeld > 0)
            && (th.pc.ShTest? || th.pc.ShBackOff? || th.pc.ShSpin? ==>
                  th'.pc.ShTest? || th'.pc.ShBackOff? || th'.pc.ShSpin?)
            && (th.pc.ShAnnounce? ==> th'.pc.ShTest?)
  {
  }

  lemma FlagUpOutcome(sh: Shared, th: Thread, e: Event)
    requires LocalOk(sh, e.t, th) && sh.want && MayHappen(th, e)
    ensures var th' := Outcome(sh, th, e).1;
            && (th'.slotHeld > 0 ==> th.slotHeld > 0)
            && (th.pc.ShTest? || th.pc.ShBackOff? || th.pc.ShSpin? ==>
                  th'.pc.ShTest? || th'.pc.ShBackOff? || th'.pc.ShSpin?)
            && (e.Run? && th.pc.ShAnnounce? ==> th'.pc.ShTest?)
  {
    if e.Run? { FlagUpThread(sh, e.t, th); }
  }

  lemma FlagUpStep(s: State, e: Event)
    requires Inv(s) && s.sh.want && Enabled(s, e)
    ensures SlotReaders(Apply(s, e)) <= SlotReaders(s)
    ensures Unannounced(Apply(s, e)) <= Unannounced(s)
    ensures Announces(s, e) ==> e.t in Unannounced(s) && e.t !in Unannounced(Apply(s, e))
  {
    assert LocalOk(s.sh, e.t, s.threads[e.t]);
    FlagUpOutcome(s.sh, s.threads[e.t], e);
  }

  lemma FlagUpCount(s: State, e: Event)
    requires Inv(s) && s.sh.want && Enabled(s, e)
    ensures (if Announces(s, e) then 1 else 0) + |Unannounced(Apply(s, e))| <= |Unannounced(s)|
  {
    FlagUpStep(s, e);
    SubsetSize(Unannounced(Apply(s, e)), Unannounced(s), e.t);
  }

  lemma SubsetSize(a: set<Tid>, b: set<Tid>, t: Tid)
    requires a <= b
    ensures |a| + (if t in b && t !in a then 1 else 0) <= |b|
  {
    assert |a| + |b - a| == |b| by { assert a + (b - a) == b; }
  }

  /** The flag is up in every state of the run, the last one included. */
  predicate FlagStaysUp(s: State, es: seq<Event>)
    requires ValidRun(s, es)
    decreases |es|
  {
    s.sh.want && (es != [] ==> FlagStaysUp(Apply(s, es[0]), es[1..]))
  }

  function Announcements(s: State, es: seq<Event>): nat
    requires ValidRun(s, es)
    decreases |es|
  {
    if es == [] then 0 else (if Announces(s, es[0]) then 1 else 0) + Announcements(Apply(s, es[0]), es[1..])
  }

  /** While the flag is up the readers only leave, whatever the other threads do, and slots are
      raised anew at most once per thread: the measure of the writer's drain loop. */
  lemma {:induction false} ReadersOnlyLeave(s: State, es: seq<Event>)
    requires Inv(s) && ValidRun(s, es) && FlagStaysUp(s, es)
    ensures SlotReaders(After(s, es)) <= SlotReaders(s)
    ensures Unannounced(After(s, es)) <= Unannounced(s)
    ensures Announcements(s, es) + |Unannounced(After(s, es))| <= |Unannounced(s)|
    decreases |es|
  {
    if es != [] {
      FlagUpStep(s, es[0]);
      FlagUpCount(s, es[0]);
      InvPreserved(s, es[0]);
      ReadersOnlyLeave(Apply(s, es[0]), es[1..]);
    }
  }

  /** Own steps that a thread which has announced itself and met the flag takes to withdraw. */
  function ToWithdraw(pc: PC): nat { if pc.ShTest? then 2 else if pc.ShBackOff? then 1 else 0 }

  lemma WithdrawEvent(s: State, e: Event, t: Tid)
    requires Inv(s) && s.sh.want && Enabled(s, e) && t in s.threads && (Announcing(s.threads[t].pc) || s.threads[t].pc.ShSpin?)
    ensures var pc, pc' := s.threads[t].pc, Apply(s, e).threads[t].pc;
            && (Announcing(pc') || pc'.ShSpin?)
            && ToWithdraw(pc') == if e == Run(t) && ToWithdraw(pc) > 0 then ToWithdraw(pc) - 1 else ToWithdraw(pc)
  {
    assert LocalOk(s.sh, t, s.threads[t]);
  }

  /** A thread that has announced itself while the flag is up withdraws within two of its own steps,
      over every run that keeps the flag up, and stays withdrawn: its slot no longer holds the writer up. */
  lemma {:induction false} AnnouncementWithdrawn(s: State, es: seq<Event>, t: Tid)
    requires Inv(s) && ValidRun(s, es) && FlagStaysUp(s, es) && t in s.threads
    requires Announcing(s.threads[t].pc) || s.threads[t].pc.ShSpin?
    requires OwnSteps(es, t) >= ToWithdraw(s.threads[t].pc)
    ensures var s' := After(s, es);
            t in s'.threads && s'.threads[t].pc.ShSpin? && OwnSlot(s'.sh, s'.threads[t])
            && s'.sh.slots[s'.threads[t].index.value] == 1
    decreases |es|
  {
    if es == [] {
      assert LocalOk(s.sh, t, s.threads[t]);
    } else {
      WithdrawEvent(s, es[0], t);
      InvPreserved(s, es[0]);
      AnnouncementWithdrawn(Apply(s, es[0]), es[1..], t);
    }
  }

  /** A draining writer never goes back: its level rises by one with each of its own steps that finds
      the slot at 1 or 0, and after the last slot it is through. */
  lemma DrainAdvances(s: State, e: Event, w: Tid, i: nat)
    requires Enabled(s, e) && w in s.threads && s.threads[w].pc == LkDrain(i)
    ensures Apply(s, e).threads[w].pc ==
            if e != Run(w) || (i < |s.sh.slots| && s.sh.slots[i] > 1) then LkDrain(i)
            else if i < |s.sh.slots| then LkDrain(i + 1) else LkCount
  {
    if e == Run(w) { DrainStep(s.sh, w, s.threads[w], i); }
  }

  lemma DrainStep(sh: Shared, t: Tid, th: Thread, i: nat)
    requires th.pc == LkDrain(i)
    ensures Step(sh, t, th).1.pc ==
            if i >= |sh.slots| then LkCount else if sh.slots[i] > 1 then LkDrain(i) else LkDrain(i + 1)
  {
  }

  /** What a draining writer waits for: a reader inside its section, or a thread that has
      announced itself and has not yet withdrawn. */
  lemma DrainBlockedBy(s: State, w: Tid, i: nat)
    requires Inv(s) && w in s.threads && s.threads[w].pc == LkDrain(i) && i < |s.sh.slots| && s.sh.slots[i] > 1
    ensures exists u :: u in s.threads && u != w && Slot(s.threads[u]) == Some(i)
                        && (u in SlotReaders(s) || Announcing(s.threads[u].pc))
  {
    assert Occupied(s.threads, i);
    var u :| u in s.threads && Slot(s.threads[u]) == Some(i);
    assert LocalOk(s.sh, u, s.threads[u]) && LocalOk(s.sh, w, s.threads[w]);
  }

  // ---------------------------------------------------------------- recursion, as documented and as coded

  // The class comment allows a thread that holds the lock, exclusively or shared, to take it
  // shared once more. A thread that holds the flag and has, or now gets, a slot waits for its
  // own flag and never returns.

  predicate SelfBlocked(th: Thread) {
    th.exHeld + th.fbHeld > 0 && (th.pc.ShLoad? || Waiting(th.pc))
  }

  lemma SelfBlockedStep(sh: Shared, t: Tid, th: Thread)
    requires LocalOk(sh, t, th) && SelfBlocked(th)
    ensures SelfBlocked(Step(sh, t, th).1)
  {
  }

  lemma SelfBlockedEvent(s: State, e: Event, t: Tid)
    requires Inv(s) && Enabled(s, e) && t in s.threads && SelfBlocked(s.threads[t])
    ensures SelfBlocked(Apply(s, e).threads[t])
  {
    if e == Run(t) { SelfBlockedStep(s.sh, t, s.threads[t]); }
  }

  /** However the other threads move, the thread stays in its waiting loop and the flag stays up. */
  lemma {:induction false} SelfBlockedForever(s: State, es: seq<Event>, t: Tid)
    requires Inv(s) && ValidRun(s, es) && t in s.threads && SelfBlocked(s.threads[t])
    ensures t in After(s, es).threads && SelfBlocked(After(s, es).threads[t]) && After(s, es).sh.want
    decreases |es|
  {
    assert LocalOk(s.sh, t, s.threads[t]);
    if es != [] {
      SelfBlockedEvent(s, es[0], t);
      InvPreserved(s, es[0]);
      SelfBlockedForever(Apply(s, es[0]), es[1..], t);
    }
  }

  /** Exactly when a thread that holds the flag, exclusively or for a shared lock, gets the lock
      shared once more with nobody else running: it has no slot and can get none. */
  lemma HolderThenShared(n: nat, s: State, t: Tid)
    requires Reachable(n, s) && t in s.threads && s.threads[t].pc == Idle
    requires s.threads[t].exHeld + s.threads[t].fbHeld > 0
    ensures var th := s.threads[t];
            ReturnsAlone(s.sh, t, Goto(th, Entry(th, LockShared)))
            <==> th.index.None? && (s.sh.refs > n || !FreeSlotFrom(s.sh, 0))
  {
    var th, th1 := s.threads[t], Goto(s.threads[t], Entry(s.threads[t], LockShared));
    CallBegins(n, s, t, LockShared);
    HolderStuckIff(s.sh, t, th);
    ReturnsAloneIff(s.sh, t, th1);
  }

  lemma HolderStuckIff(sh: Shared, t: Tid, th: Thread)
    requires LocalOk(sh, t, th) && th.pc == Idle && th.exHeld + th.fbHeld > 0
    ensures Stuck(sh, t, Goto(th, Entry(th, LockShared)))
       <==> th.index.Some? || (sh.refs <= |sh.slots| && FreeSlotFrom(sh, 0))
  {
  }

  /** A holder that has a slot never returns, whatever the other threads do. */
  lemma RegisteredHolderNeverReturns(n: nat, s: State, t: Tid, es: seq<Event>)
    requires Reachable(n, s) && t in s.threads && s.threads[t].pc == Idle
    requires s.threads[t].exHeld > 0 && s.threads[t].index.Some?
    requires ValidRun(Apply(s, Invoke(t, LockShared)), es)
    ensures var s' := After(Apply(s, Invoke(t, LockShared)), es);
            t in s'.threads && s'.threads[t].pc != Idle && s'.sh.want
  {
    ReachableInv(n, s);
    InvPreserved(s, Invoke(t, LockShared));
    SelfBlockedForever(Apply(s, Invoke(t, LockShared)), es, t);
  }

  /** A flag holder inside lock_shared that has not got a slot: on its way to one, or past all. */
  predicate Seeking(th: Thread) {
    th.exHeld + th.fbHeld > 0 && th.index.None? && (RegisterPC(th.pc) || th.pc.FbOwner? || th.pc.FbCount?)
  }

  lemma SeekingStep(sh: Shared, t: Tid, th: Thread)
    requires LocalOk(sh, t, th) && Seeking(th)
    ensures var th' := Step(sh, t, th).1;
            Seeking(th') || SelfBlocked(th') || (th.pc.FbCount? && th' == th.(pc := Idle, fbHeld := th.fbHeld + 1))
  {
  }

  /** Over every interleaving a holder's call returns only from the fallback, without a slot;
      once it has a slot it is blocked for good. */
  lemma SeekingEvent(s: State, e: Event, t: Tid)
    requires Inv(s) && Enabled(s, e) && t in s.threads && Seeking(s.threads[t])
    ensures var th, th' := s.threads[t], Apply(s, e).threads[t];
            Seeking(th') || SelfBlocked(th') || (th.pc.FbCount? && th' == th.(pc := Idle, fbHeld := th.fbHeld + 1))
  {
    if e == Run(t) { SeekingStep(s.sh, t, s.threads[t]); }
  }

  /** Such a call does occur: one thread and one slot, `lock` and then `lock_shared`. */
  lemma BlockedCallOccurs()
    ensures exists s :: Reachable(1, s) && 0 in s.threads && s.threads[0].pc == Idle && s.threads[0].exHeld > 0
                        && !ReturnsAlone(s.sh, 0, Goto(s.threads[0], Entry(s.threads[0], LockShared)))
  {
    var s := State(HELD, map[0 := FRESH][0 := FRESH.(exHeld := 1)]);
    HolderOccurs(map[0 := FRESH], 6);
    assert HELD.slots[0] == 0 && FreeSlotFrom(HELD, 0);
    HolderThenShared(1, s, 0);
  }

  /** So does the same between shared locks: a reader that came in through the flag calls
      `lock_shared` again after the only slot has been given back. */
  lemma BlockedReaderOccurs()
    ensures exists s :: Reachable(1, s) && 1 in s.threads && s.threads[1].pc == Idle && s.threads[1].fbHeld > 0
                        && s.threads[1].exHeld == 0
                        && !ReturnsAlone(s.sh, 1, Goto(s.threads[1], Entry(s.threads[1], LockShared)))
  {
    var start := map[0 := FRESH, 1 := FRESH];
    var threads := start[0 := READER][1 := FRESH.(fbHeld := 1)];
    ReaderOccurs(start, 7);
    SecondReaderOccurs(start[0 := READER], 5);
    FirstReaderLeaves(threads, 2, 3);
    var sh := FLAG_READ.(slots := [0], refs := 1);
    assert sh.slots[0] == 0 && FreeSlotFrom(sh, 0);
    HolderThenShared(1, State(sh, threads[0 := READER.(slotHeld := 0)][0 := FRESH]), 1);
  }

  lemma FirstReaderLeaves(threads: map<Tid, Thread>, m: nat, k: nat)
    requires Reachable(1, State(FLAG_READ, threads)) && 0 in threads && threads[0] == READER && m >= 2 && k >= 3
    ensures Reachable(1, State(FLAG_READ.(slots := [0], refs := 1), threads[0 := READER.(slotHeld := 0)][0 := FRESH]))
  {
    UnlockAlone(m);
    CallsAlone(1, FLAG_READ, threads, 0, READER, UnlockShared, m, FLAG_READ.(slots := [1]), READER.(slotHeld := 0));
    UnregisterAlone(k);
    CallsAlone(1, FLAG_READ.(slots := [1]), threads[0 := READER.(slotHeld := 0)], 0, READER.(slotHeld := 0), Unregister, k,
               FLAG_READ.(slots := [0], refs := 1), FRESH);
  }

  lemma HolderOccurs(threads: map<Tid, Thread>, m: nat)
    requires threads == map[0 := FRESH] && m >= 6
    ensures Reachable(1, State(HELD, threads[0 := FRESH.(exHeld := 1)]))
  {
    InitReachable(1, {0}, UNTOUCHED, threads);
    LockAlone(m);
    CallsAlone(1, UNTOUCHED, threads, 0, FRESH, Lock, m, HELD, FRESH.(exHeld := 1));
  }

  // ---------------------------------------------------------------- concrete runs

  const FRESH := Thread(Idle, None, 0, 0, 0)

  /** One slot: untouched, held exclusively by thread 0, and read by thread 0 through the slot. */
  const UNTOUCHED := Shared(false, None, [0], 0, 1)
  const HELD := Shared(true, Some(0), [0], 1, 1)
  const READ := Shared(false, None, [2], 0, 2)
  const READER := Thread(Idle, Some(0), 1, 0, 0)

  /** The same, and read by thread 1 through the flag. */
  const FLAG_READ := Shared(true, Some(1), [2], 1, 2)

  lemma InitReachable(n: nat, tids: set<Tid>, sh: Shared, threads: map<Tid, Thread>)
    requires sh == Shared(false, None, seq(n, _ => 0), 0, 1) && threads == map t | t in tids :: FRESH
    ensures Reachable(n, State(sh, threads))
  {
    assert ValidRun(Init(n, tids), []) && After(Init(n, tids), []) == Init(n, tids);
  }

  lemma SetTwice(threads: map<Tid, Thread>, t: Tid, a: Thread, b: Thread)
    ensures threads[t := a][t := b] == threads[t := b]
  {
  }

  lemma SetSame(threads: map<Tid, Thread>, t: Tid)
    requires t in threads
    ensures threads[t := threads[t]] == threads
  {
  }

  lemma MovesOnce(n: nat, sh: Shared, threads: map<Tid, Thread>, t: Tid)
    requires Reachable(n, State(sh, threads)) && t in threads && threads[t].pc != Idle
    ensures Reachable(n, State(Step(sh, t, threads[t]).0, threads[t := Step(sh, t, threads[t]).1]))
  {
    ReachableStep(n, State(sh, threads), Run(t));
  }

  /** A thread that moves with nobody else running moves through reachable states. */
  lemma {:induction false} MovesAlone(n: nat, sh: Shared, threads: map<Tid, Thread>, t: Tid, m: nat)
    requires Reachable(n, State(sh, threads)) && t in threads
    ensures Reachable(n, State(Solo(sh, t, threads[t], m).0, threads[t := Solo(sh, t, threads[t], m).1]))
    decreases m
  {
    if m == 0 || threads[t].pc == Idle {
      SetSame(threads, t);
    } else {
      MovesOnce(n, sh, threads, t);
      var r := Step(sh, t, threads[t]);
      MovesAlone(n, r.0, threads[t := r.1], t, m - 1);
      SetTwice(threads, t, r.1, Solo(r.0, t, r.1, m - 1).1);
    }
  }

  lemma CallsAlone(n: nat, sh: Shared, threads: map<Tid, Thread>, t: Tid, th: Thread, c: Call, m: nat, sh': Shared, th': Thread)
    requires Reachable(n, State(sh, threads)) && t in threads && threads[t] == th && th.pc == Idle && MayCall(th, c)
    requires Solo(sh, t, Goto(th, Entry(th, c)), m) == (sh', th')
    ensures Reachable(n, State(sh', threads[t := th']))
  {
    var th1 := Goto(th, Entry(th, c));
    ReachableStep(n, State(sh, threads), Invoke(t, c));
    MovesAlone(n, sh, threads[t := th1], t, m);
    SetTwice(threads, t, th1, th');
  }

  // The lemmas below say how many steps of a thread are enough for its call to return; more
  // make no difference, since a thread that is not in a call does not move.

  lemma LockAlone(m: nat)
    requires m >= 6
    ensures Solo(UNTOUCHED, 0, Goto(FRESH, LkOwner), m) == (HELD, FRESH.(exHeld := 1))
  {
    var sh := UNTOUCHED;
    Moves(sh, 0, Goto(FRESH, LkOwner), m, sh, Goto(FRESH, LkCas));
    Moves(sh, 0, Goto(FRESH, LkCas), m - 1, sh.(want := true), Goto(FRESH, LkSetOwner));
    DrainAlone(sh.(want := true), m - 2);
  }

  lemma DrainAlone(sh: Shared, m: nat)
    requires sh == UNTOUCHED.(want := true) && m >= 4
    ensures Solo(sh, 0, Goto(FRESH, LkSetOwner), m) == (HELD, FRESH.(exHeld := 1))
  {
    var sh' := sh.(owner := Some(0));
    Moves(sh, 0, Goto(FRESH, LkSetOwner), m, sh', Goto(FRESH, LkDrain(0)));
    Moves(sh', 0, Goto(FRESH, LkDrain(0)), m - 1, sh', Goto(FRESH, LkDrain(1)));
    Moves(sh', 0, Goto(FRESH, LkDrain(1)), m - 2, sh', Goto(FRESH, LkCount));
    Moves(sh', 0, Goto(FRESH, LkCount), m - 3, HELD, FRESH.(exHeld := 1));
  }

  /** The first reader registers and enters through its slot. */
  lemma ReadAlone(m: nat)
    requires m >= 7
    ensures Solo(UNTOUCHED, 0, Goto(FRESH, RegCount), m) == (READ, READER)
  {
    var sh := UNTOUCHED;
    Moves(sh, 0, Goto(FRESH, RegCount), m, sh, Goto(FRESH, RegLoad(0)));
    Moves(sh, 0, Goto(FRESH, RegLoad(0)), m - 1, sh, Goto(FRESH, RegCas(0)));
    assert [0][0 := 1] == [1];
    Moves(sh, 0, Goto(FRESH, RegCas(0)), m - 2, sh.(slots := [1]), Goto(FRESH, RegStore(0)));
    EnterAlone(sh.(slots := [1]), m - 3);
  }

  lemma EnterAlone(sh: Shared, m: nat)
    requires sh == Shared(false, None, [1], 0, 1) && m >= 4
    ensures Solo(sh, 0, Goto(FRESH, RegStore(0)), m) == (READ, READER)
  {
    var sh', a := sh.(refs := 2), Thread(ShLoad, Some(0), 0, 0, 0);
    Moves(sh, 0, Goto(FRESH, RegStore(0)), m, sh', a);
    Moves(sh', 0, a, m - 1, sh', Goto(a, ShAnnounce(1)));
    assert [1][0 := 2] == [2];
    Moves(sh', 0, Goto(a, ShAnnounce(1)), m - 2, READ, Goto(a, ShTest(1)));
    Moves(READ, 0, Goto(a, ShTest(1)), m - 3, READ, READER);
  }

  /** The second finds no slot and enters through the flag. */
  lemma FallBackAlone(m: nat)
    requires m >= 5
    ensures Solo(READ, 1, Goto(FRESH, RegCount), m) == (FLAG_READ, FRESH.(fbHeld := 1))
  {
    Moves(READ, 1, Goto(FRESH, RegCount), m, READ, Goto(FRESH, FbOwner));
    Moves(READ, 1, Goto(FRESH, FbOwner), m - 1, READ, Goto(FRESH, FbCas));
    FlagAlone(READ, m - 2);
  }

  /** The first reader leaves its section, and gives its slot back. */
  lemma UnlockAlone(m: nat)
    requires m >= 2
    ensures Solo(FLAG_READ, 0, Goto(READER, UnshLoad), m) == (FLAG_READ.(slots := [1]), READER.(slotHeld := 0))
  {
    Moves(FLAG_READ, 0, Goto(READER, UnshLoad), m, FLAG_READ, Goto(READER, UnshStore(2)));
    assert [2][0 := 1] == [1];
    Moves(FLAG_READ, 0, Goto(READER, UnshStore(2)), m - 1, FLAG_READ.(slots := [1]), READER.(slotHeld := 0));
  }

  lemma UnregisterAlone(m: nat)
    requires m >= 3
    ensures Solo(FLAG_READ.(slots := [1]), 0, Goto(READER.(slotHeld := 0), UnregLoad), m)
         == (FLAG_READ.(slots := [0], refs := 1), FRESH)
  {
    var sh, a := FLAG_READ.(slots := [1]), READER.(slotHeld := 0);
    Moves(sh, 0, Goto(a, UnregLoad), m, sh, Goto(a, UnregDec));
    assert [1][0 := 0] == [0];
    Moves(sh, 0, Goto(a, UnregDec), m - 1, sh.(slots := [0]), Goto(FRESH, UnregDrop));
    Moves(sh.(slots := [0]), 0, Goto(FRESH, UnregDrop), m - 2, FLAG_READ.(slots := [0], refs := 1), FRESH);
  }

  lemma FlagAlone(sh: Shared, m: nat)
    requires !sh.want && m >= 3
    ensures Solo(sh, 1, Goto(FRESH, FbCas), m)
         == (sh.(want := true, owner := Some(1), xcount := sh.xcount + 1), FRESH.(fbHeld := 1))
  {
    var sh1, sh2 := sh.(want := true), sh.(want := true, owner := Some(1));
    Moves(sh, 1, Goto(FRESH, FbCas), m, sh1, Goto(FRESH, FbSetOwner));
    Moves(sh1, 1, Goto(FRESH, FbSetOwner), m - 1, sh2, Goto(FRESH, FbCount));
    Moves(sh2, 1, Goto(FRESH, FbCount), m - 2, sh2.(xcount := sh.xcount + 1), FRESH.(fbHeld := 1));
  }

  // ---------------------------------------------------------------- why S then X is forbidden

  lemma {:induction false} RunExtends(s: State, es: seq<Event>, e: Event)
    requires ValidRun(s, es) && Enabled(After(s, es), e)
    ensures ValidRun(s, es + [e]) && After(s, es + [e]) == Apply(After(s, es), e)
    decreases |es|
  {
    if es == [] {
      assert es + [e] == [e];
      assert ValidRun(Apply(s, e), []) && [e][1..] == [];
    } else {
      assert (es + [e])[1..] == es[1..] + [e];
      RunExtends(Apply(s, es[0]), es[1..], e);
    }
  }

  lemma ReachableStep(n: nat, s: State, e: Event)
    requires Reachable(n, s) && Enabled(s, e)
    ensures Reachable(n, Apply(s, e))
  {
    var tids: set<Tid>, es :| ValidRun(Init(n, tids), es) && s == After(Init(n, tids), es);
    RunExtends(Init(n, tids), es, e);
  }

  /** In any state, a thread that holds the flag for a shared lock and calls `lock` against the
      rule is let straight in: two of its own steps later it is exclusive, and the reader that
      was inside through its slot still is. */
  lemma UpgradeBreaksExclusion(n: nat, s: State, t: Tid, u: Tid)
    requires Reachable(n, s) && t in s.threads && u in s.threads && t != u
    requires s.threads[t].pc == Idle && s.threads[t].fbHeld > 0 && s.threads[u].slotHeld > 0
    ensures var (sh', th') := Solo(s.sh, t, Goto(s.threads[t], Entry(s.threads[t], Lock)), 2);
            var s' := State(sh', s.threads[t := th']);
            th'.pc == Idle && InExclusive(s'.threads[t]) && InShared(s'.threads[u])
  {
    ReachableInv(n, s);
    HolderIsOwner(s.sh, t, s.threads[t]);
    LockOfHolder(s.sh, t, Goto(s.threads[t], LkOwner));
  }

  lemma HolderIsOwner(sh: Shared, t: Tid, th: Thread)
    requires LocalOk(sh, t, th) && th.pc == Idle && th.fbHeld > 0
    ensures sh.owner == Some(t) && th.index.None?
  {
  }

  lemma LockOfHolder(sh: Shared, t: Tid, th: Thread)
    requires sh.owner == Some(t) && th.pc == LkOwner
    ensures Solo(sh, t, th, 2).1 == th.(pc := Idle, exHeld := th.exHeld + 1)
  {
    var th1 := Goto(th, LkCount);
    assert Step(sh, t, th) == (sh, th1);
    assert Solo(sh, t, th, 2) == Solo(sh, t, th1, 1);
    var (sh2, th2) := Step(sh, t, th1);
    assert Solo(sh, t, th1, 1) == Solo(sh2, t, th2, 0);
  }

  lemma ReaderOccurs(threads: map<Tid, Thread>, m: nat)
    requires threads == map[0 := FRESH, 1 := FRESH] && m >= 7
    ensures Reachable(1, State(READ, threads[0 := READER]))
  {
    InitReachable(1, {0, 1}, UNTOUCHED, threads);
    ReadAlone(m);
    CallsAlone(1, UNTOUCHED, threads, 0, FRESH, LockShared, m, READ, READER);
  }

  lemma SecondReaderOccurs(threads: map<Tid, Thread>, m: nat)
    requires Reachable(1, State(READ, threads)) && 1 in threads && threads[1] == FRESH && m >= 5
    ensures Reachable(1, State(FLAG_READ, threads[1 := FRESH.(fbHeld := 1)]))
  {
    FallBackAlone(m);
    CallsAlone(1, READ, threads, 1, FRESH, LockShared, m,
               FLAG_READ, FRESH.(fbHeld := 1));
  }

  /** The state in which an upgrade breaks the law does occur: one slot, and two readers. */
  lemma UpgradeStateOccurs()
    ensures exists s :: Reachable(1, s) && 0 in s.threads && 1 in s.threads
                        && s.threads[0].slotHeld > 0 && s.threads[1].fbHeld > 0 && s.threads[1].pc == Idle
  {
    var start := map[0 := FRESH, 1 := FRESH];
    ReaderOccurs(start, 7);
    SecondReaderOccurs(start[0 := READER], 5);
  }
}
