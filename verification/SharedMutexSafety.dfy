/** Safety of the reader/writer lock: the invariant holds in every state of every interleaving. */
module SharedMutexSafety {
  import opened Basics
  import opened SharedMutex

  // ---------------------------------------------------------------- one step, one thread

  // `...Own`: a thread's step keeps that thread consistent with the memory.
  // `...Cross`: it keeps every other thread consistent too, and the pair.

  lemma RegisterOwn(sh: Shared, t: Tid, th: Thread)
    requires SharedOk(sh) && LocalOk(sh, t, th) && RegisterPC(th.pc)
    ensures var r := RegisterStep(sh, th); SharedOk(r.0) && LocalOk(r.0, t, r.1)
  {
    if th.pc.RegCount? || th.pc.RegLoad? { ScanOwn(sh, t, th); } else { TakeSlotOwn(sh, t, th); }
  }

  lemma ScanOwn(sh: Shared, t: Tid, th: Thread)
    requires LocalOk(sh, t, th) && (th.pc.RegCount? || th.pc.RegLoad?)
    ensures RegisterStep(sh, th).0 == sh && LocalOk(sh, t, RegisterStep(sh, th).1)
  {
  }

  lemma TakeSlotOwn(sh: Shared, t: Tid, th: Thread)
    requires SharedOk(sh) && LocalOk(sh, t, th) && (th.pc.RegCas? || th.pc.RegStore?)
    ensures var r := RegisterStep(sh, th); SharedOk(r.0) && LocalOk(r.0, t, r.1)
  {
  }

  lemma RegisterCross(sh: Shared, t: Tid, th: Thread, u: Tid, other: Thread)
    requires t != u && SharedOk(sh) && LocalOk(sh, t, th) && LocalOk(sh, u, other) && RegisterPC(th.pc)
    requires PairOk(|sh.slots|, th, other) && PairOk(|sh.slots|, other, th)
    ensures var r := RegisterStep(sh, th);
            && LocalOk(r.0, u, other)
            && PairOk(|r.0.slots|, r.1, other) && PairOk(|r.0.slots|, other, r.1)
  {
  }

  lemma LockSharedOwn(sh: Shared, t: Tid, th: Thread)
    requires SharedOk(sh) && LocalOk(sh, t, th) && SlotPC(th.pc)
    ensures var r := LockSharedStep(sh, th); SharedOk(r.0) && LocalOk(r.0, t, r.1)
  {
    LockSharedPCs(sh, t, th);
  }

  lemma LockSharedPCs(sh: Shared, t: Tid, th: Thread)
    requires LocalOk(sh, t, th) && SlotPC(th.pc)
    ensures PCOk(|sh.slots|, LockSharedStep(sh, th).1) && |LockSharedStep(sh, th).0.slots| == |sh.slots|
  {
  }

  lemma LockSharedCross(sh: Shared, t: Tid, th: Thread, u: Tid, other: Thread)
    requires t != u && SharedOk(sh) && LocalOk(sh, t, th) && LocalOk(sh, u, other) && SlotPC(th.pc)
    requires PairOk(|sh.slots|, th, other) && PairOk(|sh.slots|, other, th)
    ensures var r := LockSharedStep(sh, th);
            && LocalOk(r.0, u, other)
            && PairOk(|r.0.slots|, r.1, other) && PairOk(|r.0.slots|, other, r.1)
  {
  }

  lemma FallbackOwn(sh: Shared, t: Tid, th: Thread)
    requires SharedOk(sh) && LocalOk(sh, t, th) && FallbackPC(th.pc)
    ensures var r := FallbackStep(sh, t, th); SharedOk(r.0) && LocalOk(r.0, t, r.1)
  {
  }

  lemma FallbackCross(sh: Shared, t: Tid, th: Thread, u: Tid, other: Thread)
    requires t != u && SharedOk(sh) && LocalOk(sh, t, th) && LocalOk(sh, u, other) && FallbackPC(th.pc)
    requires PairOk(|sh.slots|, th, other) && PairOk(|sh.slots|, other, th)
    ensures var r := FallbackStep(sh, t, th);
            && LocalOk(r.0, u, other)
            && PairOk(|r.0.slots|, r.1, other) && PairOk(|r.0.slots|, other, r.1)
  {
  }

  lemma LockOwn(sh: Shared, t: Tid, th: Thread)
    requires SharedOk(sh) && LocalOk(sh, t, th) && LockPC(th.pc)
    ensures var r := LockStep(sh, t, th); SharedOk(r.0) && LocalOk(r.0, t, r.1)
  {
    LockPCs(sh, t, th);
  }

  lemma LockPCs(sh: Shared, t: Tid, th: Thread)
    requires LocalOk(sh, t, th) && LockPC(th.pc)
    ensures PCOk(|sh.slots|, LockStep(sh, t, th).1) && |LockStep(sh, t, th).0.slots| == |sh.slots|
  {
    if th.pc.LkAssert? || th.pc.LkOwner? || th.pc.LkCas? { ContendPCs(sh, t, th); } else { WinnerPCs(sh, t, th); }
  }

  lemma ContendPCs(sh: Shared, t: Tid, th: Thread)
    requires LocalOk(sh, t, th) && (th.pc.LkAssert? || th.pc.LkOwner? || th.pc.LkCas?)
    ensures PCOk(|sh.slots|, LockStep(sh, t, th).1) && |LockStep(sh, t, th).0.slots| == |sh.slots|
  {
  }

  lemma WinnerPCs(sh: Shared, t: Tid, th: Thread)
    requires LocalOk(sh, t, th) && (th.pc.LkSetOwner? || th.pc.LkDrain? || th.pc.LkCount?)
    ensures PCOk(|sh.slots|, LockStep(sh, t, th).1) && |LockStep(sh, t, th).0.slots| == |sh.slots|
  {
  }

  lemma LockCross(sh: Shared, t: Tid, th: Thread, u: Tid, other: Thread)
    requires t != u && SharedOk(sh) && LocalOk(sh, t, th) && LocalOk(sh, u, other) && LockPC(th.pc)
    requires PairOk(|sh.slots|, th, other) && PairOk(|sh.slots|, other, th)
    ensures var r := LockStep(sh, t, th);
            && LocalOk(r.0, u, other)
            && PairOk(|r.0.slots|, r.1, other) && PairOk(|r.0.slots|, other, r.1)
  {
  }

  lemma UnlockSharedOwn(sh: Shared, t: Tid, th: Thread)
    requires SharedOk(sh) && LocalOk(sh, t, th) && UnlockSharedPC(th.pc)
    ensures var r := UnlockSharedStep(sh, th); SharedOk(r.0) && LocalOk(r.0, t, r.1)
  {
  }

  lemma UnlockSharedCross(sh: Shared, t: Tid, th: Thread, u: Tid, other: Thread)
    requires t != u && SharedOk(sh) && LocalOk(sh, t, th) && LocalOk(sh, u, other) && UnlockSharedPC(th.pc)
    requires PairOk(|sh.slots|, th, other) && PairOk(|sh.slots|, other, th)
    ensures var r := UnlockSharedStep(sh, th);
            && LocalOk(r.0, u, other)
            && PairOk(|r.0.slots|, r.1, other) && PairOk(|r.0.slots|, other, r.1)
  {
  }

  lemma ReleaseOwn(sh: Shared, t: Tid, th: Thread)
    requires SharedOk(sh) && LocalOk(sh, t, th) && ReleasePC(th.pc)
    ensures var r := ReleaseStep(sh, th); SharedOk(r.0) && LocalOk(r.0, t, r.1)
  {
  }

  lemma ReleaseCross(sh: Shared, t: Tid, th: Thread, u: Tid, other: Thread)
    requires t != u && SharedOk(sh) && LocalOk(sh, t, th) && LocalOk(sh, u, other) && ReleasePC(th.pc)
    requires PairOk(|sh.slots|, th, other) && PairOk(|sh.slots|, other, th)
    ensures var r := ReleaseStep(sh, th);
            && LocalOk(r.0, u, other)
            && PairOk(|r.0.slots|, r.1, other) && PairOk(|r.0.slots|, other, r.1)
  {
  }

  lemma UnregisterOwn(sh: Shared, t: Tid, th: Thread)
    requires SharedOk(sh) && LocalOk(sh, t, th) && UnregisterPC(th.pc)
    ensures var r := UnregisterStep(sh, th); SharedOk(r.0) && LocalOk(r.0, t, r.1)
  {
    if th.pc.UnregDec? { FreeSlotOwn(sh, t, th); }
  }

  lemma FreeSlotOwn(sh: Shared, t: Tid, th: Thread)
    requires SharedOk(sh) && LocalOk(sh, t, th) && th.pc.UnregDec?
    ensures var r := UnregisterStep(sh, th); SharedOk(r.0) && LocalOk(r.0, t, r.1)
  {
  }

  lemma UnregisterCross(sh: Shared, t: Tid, th: Thread, u: Tid, other: Thread)
    requires t != u && SharedOk(sh) && LocalOk(sh, t, th) && LocalOk(sh, u, other) && UnregisterPC(th.pc)
    requires PairOk(|sh.slots|, th, other) && PairOk(|sh.slots|, other, th)
    ensures var r := UnregisterStep(sh, th);
            && LocalOk(r.0, u, other)
            && PairOk(|r.0.slots|, r.1, other) && PairOk(|r.0.slots|, other, r.1)
  {
  }

  predicate AcquirePC(pc: PC) { RegisterPC(pc) || SlotPC(pc) || FallbackPC(pc) || LockPC(pc) }

  lemma AcquireOwn(sh: Shared, t: Tid, th: Thread)
    requires SharedOk(sh) && LocalOk(sh, t, th) && AcquirePC(th.pc)
    ensures SharedOk(Step(sh, t, th).0) && LocalOk(Step(sh, t, th).0, t, Step(sh, t, th).1)
  {
    if RegisterPC(th.pc) { RegisterOwn(sh, t, th); }
    else if SlotPC(th.pc) { LockSharedOwn(sh, t, th); }
    else if FallbackPC(th.pc) { FallbackOwn(sh, t, th); }
    else { LockOwn(sh, t, th); }
  }

  lemma GiveBackOwn(sh: Shared, t: Tid, th: Thread)
    requires SharedOk(sh) && LocalOk(sh, t, th) && !AcquirePC(th.pc)
    ensures SharedOk(Step(sh, t, th).0) && LocalOk(Step(sh, t, th).0, t, Step(sh, t, th).1)
  {
    if UnlockSharedPC(th.pc) { UnlockSharedOwn(sh, t, th); }
    else if ReleasePC(th.pc) { ReleaseOwn(sh, t, th); }
    else if UnregisterPC(th.pc) { UnregisterOwn(sh, t, th); }
  }

  lemma SlotCount(sh: Shared, t: Tid, th: Thread)
    ensures |Step(sh, t, th).0.slots| == |sh.slots|
  {
  }

  lemma StepOwn(sh: Shared, t: Tid, th: Thread)
    requires SharedOk(sh) && LocalOk(sh, t, th)
    ensures var r := Step(sh, t, th); SharedOk(r.0) && LocalOk(r.0, t, r.1) && |r.0.slots| == |sh.slots|
  {
    SlotCount(sh, t, th);
    if AcquirePC(th.pc) { AcquireOwn(sh, t, th); } else { GiveBackOwn(sh, t, th); }
  }

  lemma StepCross(sh: Shared, t: Tid, th: Thread, u: Tid, other: Thread)
    requires t != u && SharedOk(sh) && LocalOk(sh, t, th) && LocalOk(sh, u, other)
    requires PairOk(|sh.slots|, th, other) && PairOk(|sh.slots|, other, th)
    ensures var r := Step(sh, t, th);
            && LocalOk(r.0, u, other)
            && PairOk(|r.0.slots|, r.1, other) && PairOk(|r.0.slots|, other, r.1)
  {
    if RegisterPC(th.pc) { RegisterCross(sh, t, th, u, other); }
    else if SlotPC(th.pc) { LockSharedCross(sh, t, th, u, other); }
    else if FallbackPC(th.pc) { FallbackCross(sh, t, th, u, other); }
    else if LockPC(th.pc) { LockCross(sh, t, th, u, other); }
    else if UnlockSharedPC(th.pc) { UnlockSharedCross(sh, t, th, u, other); }
    else if ReleasePC(th.pc) { ReleaseCross(sh, t, th, u, other); }
    else if UnregisterPC(th.pc) { UnregisterCross(sh, t, th, u, other); }
  }

  /** Starting a call that the caller is allowed to start. */
  lemma InvokeOk(sh: Shared, t: Tid, th: Thread, c: Call)
    requires LocalOk(sh, t, th) && th.pc == Idle && MayCall(th, c)
    ensures LocalOk(sh, t, Goto(th, Entry(th, c)))
  {
    InvokeHoldsNothing(|sh.slots|, th, c);
    InvokePC(|sh.slots|, th, c);
    InvokeEntry(th, c);
  }

  lemma InvokeEntry(th: Thread, c: Call)
    ensures !Announcing(Entry(th, c))
    ensures !Entry(th, c).FbSetOwner? && !Entry(th, c).LkSetOwner? && !Entry(th, c).RelClearFlag?
  {
  }

  lemma InvokePC(n: nat, th: Thread, c: Call)
    requires PCOk(n, th) && th.pc == Idle && MayCall(th, c)
    ensures PCOk(n, Goto(th, Entry(th, c)))
  {
    if c.LockShared? || c.Lock? { AcquireCallPC(n, th, c); } else { GiveBackCallPC(n, th, c); }
  }

  lemma AcquireCallPC(n: nat, th: Thread, c: Call)
    requires PCOk(n, th) && th.pc == Idle && MayCall(th, c) && (c.LockShared? || c.Lock?)
    ensures PCOk(n, Goto(th, Entry(th, c)))
  {
  }

  lemma GiveBackCallPC(n: nat, th: Thread, c: Call)
    requires PCOk(n, th) && th.pc == Idle && MayCall(th, c) && !c.LockShared? && !c.Lock?
    ensures PCOk(n, Goto(th, Entry(th, c)))
  {
  }

  lemma InvokeHoldsNothing(n: nat, th: Thread, c: Call)
    requires th.pc == Idle
    ensures var th' := Goto(th, Entry(th, c));
            Slot(th') == Slot(th) && HoldsFlag(th') == HoldsFlag(th) && Drained(n, th') == Drained(n, th)
  {
  }

  /** The flag, a slot and a reference change hands only together with the thread's own state. */
  lemma FlagEffect(sh: Shared, t: Tid, th: Thread)
    requires LocalOk(sh, t, th)
    ensures var (sh', th') := Step(sh, t, th);
            && (HoldsFlag(th) && !HoldsFlag(th') ==> !sh'.want)
            && (!sh.want && sh'.want ==> HoldsFlag(th'))
            && sh'.refs - sh.refs == (if Refers(th') then 1 else 0) - (if Refers(th) then 1 else 0)
  {
  }

  lemma SlotEffect(sh: Shared, t: Tid, th: Thread, i: nat)
    requires LocalOk(sh, t, th) && i < |sh.slots|
    ensures var (sh', th') := Step(sh, t, th);
            && |sh'.slots| == |sh.slots|
            && (sh.slots[i] != sh'.slots[i] ==>
                  Slot(th') == Some(i) || (Slot(th) == Some(i) && sh'.slots[i] == 0))
            && (Slot(th) == Some(i) && Slot(th') != Some(i) ==> sh'.slots[i] == 0)
  {
  }

  // ---------------------------------------------------------------- one event

  lemma ReferrersUpdate(threads: map<Tid, Thread>, t: Tid, th': Thread)
    requires t in threads
    ensures |Referrers(threads[t := th'])| ==
            |Referrers(threads)| + (if Refers(th') then 1 else 0) - (if Refers(threads[t]) then 1 else 0)
  {
    var a, b := Referrers(threads), Referrers(threads[t := th']);
    assert a - {t} == b - {t};
    assert |a - {t}| == |a| - (if Refers(threads[t]) then 1 else 0);
    assert |b - {t}| == |b| - (if Refers(th') then 1 else 0);
  }

  lemma OutcomeOwn(sh: Shared, th: Thread, e: Event)
    requires SharedOk(sh) && LocalOk(sh, e.t, th) && MayHappen(th, e)
    ensures var (sh', th') := Outcome(sh, th, e);
            && SharedOk(sh') && |sh'.slots| == |sh.slots| && LocalOk(sh', e.t, th')
            && sh'.refs - sh.refs == (if Refers(th') then 1 else 0) - (if Refers(th) then 1 else 0)
  {
    match e {
      case Stall(_) =>
      case Invoke(_, c) => InvokeOk(sh, e.t, th, c);
      case Run(_) =>
        StepOwn(sh, e.t, th);
        FlagEffect(sh, e.t, th);
    }
  }

  lemma OutcomeCross(sh: Shared, th: Thread, e: Event, u: Tid, other: Thread)
    requires u != e.t && SharedOk(sh) && LocalOk(sh, e.t, th) && LocalOk(sh, u, other) && MayHappen(th, e)
    requires PairOk(|sh.slots|, th, other) && PairOk(|sh.slots|, other, th)
    ensures var (sh', th') := Outcome(sh, th, e);
            && LocalOk(sh', u, other)
            && PairOk(|sh'.slots|, th', other) && PairOk(|sh'.slots|, other, th')
  {
    match e {
      case Stall(_) =>
      case Invoke(_, c) => InvokeHoldsNothing(|sh.slots|, th, c);
      case Run(_) => StepCross(sh, e.t, th, u, other);
    }
  }

  /** A raised flag keeps a holder behind it. */
  lemma FlagAttributed(s: State, e: Event)
    requires Inv(s) && Enabled(s, e) && Outcome(s.sh, s.threads[e.t], e).0.want
    ensures FlagHeld(s.threads[e.t := Outcome(s.sh, s.threads[e.t], e).1])
  {
    var (sh', th') := Outcome(s.sh, s.threads[e.t], e);
    if e.Run? { FlagEffect(s.sh, e.t, s.threads[e.t]); }
    if HoldsFlag(th') {
      assert HoldsFlag(s.threads[e.t := th'][e.t]);
    } else {
      var w :| w in s.threads && HoldsFlag(s.threads[w]);
      assert HoldsFlag(s.threads[e.t := th'][w]);
    }
  }

  /** An occupied slot keeps an occupant. */
  lemma SlotAttributed(s: State, e: Event, i: nat)
    requires Inv(s) && Enabled(s, e)
    requires var sh' := Outcome(s.sh, s.threads[e.t], e).0; i < |sh'.slots| == |s.sh.slots| && sh'.slots[i] > 0
    ensures Occupied(s.threads[e.t := Outcome(s.sh, s.threads[e.t], e).1], i)
  {
    var (sh', th') := Outcome(s.sh, s.threads[e.t], e);
    if e.Run? { SlotEffect(s.sh, e.t, s.threads[e.t], i); }
    if Slot(th') == Some(i) {
      assert Slot(s.threads[e.t := th'][e.t]) == Some(i);
    } else {
      var u :| u in s.threads && Slot(s.threads[u]) == Some(i);
      assert Slot(s.threads[e.t := th'][u]) == Some(i);
    }
  }

  /** The invariant of a state in which one thread and the memory have been replaced. */
  lemma Reassemble(s: State, t: Tid, sh': Shared, th': Thread)
    requires Inv(s) && t in s.threads && |sh'.slots| == |s.sh.slots|
    requires SharedOk(sh') && LocalOk(sh', t, th')
    requires forall u :: u in s.threads && u != t ==>
               LocalOk(sh', u, s.threads[u]) &&
               PairOk(|s.sh.slots|, th', s.threads[u]) && PairOk(|s.sh.slots|, s.threads[u], th')
    requires Attributed(State(sh', s.threads[t := th']))
    ensures Inv(State(sh', s.threads[t := th']))
  {
  }

  lemma AttributedKept(s: State, e: Event)
    requires Inv(s) && Enabled(s, e)
    ensures Attributed(Apply(s, e))
  {
    var (sh', th') := Outcome(s.sh, s.threads[e.t], e);
    OutcomeOwn(s.sh, s.threads[e.t], e);
    ReferrersUpdate(s.threads, e.t, th');
    if sh'.want { FlagAttributed(s, e); }
    forall i | 0 <= i < |sh'.slots| && sh'.slots[i] > 0
      ensures Occupied(s.threads[e.t := th'], i)
    {
      SlotAttributed(s, e, i);
    }
  }

  lemma InvPreserved(s: State, e: Event)
    requires Inv(s) && Enabled(s, e)
    ensures Inv(Apply(s, e)) && Apply(s, e).threads.Keys == s.threads.Keys
    ensures |Apply(s, e).sh.slots| == |s.sh.slots|
  {
    AttributedKept(s, e);
    var th := s.threads[e.t];
    OutcomeOwn(s.sh, th, e);
    var (sh', th') := Outcome(s.sh, th, e);
    forall u | u in s.threads && u != e.t
      ensures LocalOk(sh', u, s.threads[u]) &&
              PairOk(|s.sh.slots|, th', s.threads[u]) && PairOk(|s.sh.slots|, s.threads[u], th')
    {
      OutcomeCross(s.sh, th, e, u, s.threads[u]);
    }
    Reassemble(s, e.t, sh', th');
  }

  // ---------------------------------------------------------------- every run

  lemma InitInv(n: nat, tids: set<Tid>)
    ensures Inv(Init(n, tids))
  {
    assert Referrers(Init(n, tids).threads) == {};
  }

  lemma {:induction false} InvAlong(s: State, es: seq<Event>)
    requires Inv(s) && ValidRun(s, es)
    ensures Inv(After(s, es)) && After(s, es).threads.Keys == s.threads.Keys
    ensures |After(s, es).sh.slots| == |s.sh.slots|
    decreases |es|
  {
    if es != [] {
      InvPreserved(s, es[0]);
      InvAlong(Apply(s, es[0]), es[1..]);
    }
  }

  predicate InExclusive(th: Thread) { th.exHeld > 0 }
  predicate InShared(th: Thread) { th.slotHeld > 0 || th.fbHeld > 0 }

  /** The states of all interleavings of all threads on a mutex with `n` slots. */
  ghost predicate Reachable(n: nat, s: State) {
    exists tids: set<Tid>, es :: ValidRun(Init(n, tids), es) && s == After(Init(n, tids), es)
  }

  lemma ReachableInv(n: nat, s: State)
    requires Reachable(n, s)
    ensures Inv(s) && |s.sh.slots| == n
  {
    var tids: set<Tid>, es :| ValidRun(Init(n, tids), es) && s == After(Init(n, tids), es);
    InitInv(n, tids);
    InvAlong(Init(n, tids), es);
  }

  /** The law of the lock: while a thread is inside the exclusive section, no other thread is
      inside an exclusive or a shared section, whichever way the reader came in. */
  lemma MutualExclusion(n: nat, s: State, t: Tid, u: Tid)
    requires Reachable(n, s) && t in s.threads && u in s.threads && t != u
    requires InExclusive(s.threads[t])
    ensures !InExclusive(s.threads[u]) && !InShared(s.threads[u])
  {
    ReachableInv(n, s);
    assert PairOk(n, s.threads[t], s.threads[u]);
  }
}
