/** Counting in periods: the remainder without division. */
module Periods {
  import opened Basics

  function Phase(m: nat, p: nat): (r: nat)
    requires p > 0
    ensures r < p && r <= m
  {
    if m == 0 then 0
    else
      var r := Phase(m - 1, p);
      if r + 1 == p then 0 else r + 1
  }

  lemma {:induction false} PhaseSplits(m: nat, p: nat) returns (q: nat)
    requires p > 0
    ensures m == q * p + Phase(m, p)
  {
    if m == 0 {
      q := 0;
    } else {
      q := PhaseSplits(m - 1, p);
      if Phase(m - 1, p) + 1 == p {
        assert (q + 1) * p == q * p + p;
        q := q + 1;
      }
    }
  }

  lemma PhaseIsRemainder(m: nat, p: nat)
    requires p > 0
    ensures Phase(m, p) == m % p
  {
    var q := PhaseSplits(m, p);
    Division(m, q, p, Phase(m, p));
  }
}

/** The trigger that delivers every `count` objects (common/include/trigger.hpp:154-208). */
module ByBatchSize {
  import opened Basics
  import opened TriggerEvents
  import opened Periods

  /** The configured int as the size_t it is compared with. */
  function Threshold(count: int): nat
    requires -0x8000_0000 <= count < 0x8000_0000
  {
    if count < 0 then count + UINT64 else count
  }

  predicate Fires(count: int, buffer: seq<Object>)
    requires -0x8000_0000 <= count < 0x8000_0000
  {
    |buffer| + 1 >= Threshold(count)
  }

  /** The buffer after the first m objects. */
  function After(count: int, objects: seq<Object>, m: nat): seq<Object>
    requires -0x8000_0000 <= count < 0x8000_0000 && m <= |objects|
  {
    if m == 0 then []
    else
      var buffer := After(count, objects, m - 1);
      if Fires(count, buffer) then [] else buffer + [objects[m - 1]]
  }

  /** How many objects a batch really holds: zero behaves as one, and a negative count
      stands for a number near 2^64. */
  function BatchSize(count: int): (c: nat)
    requires -0x8000_0000 <= count < 0x8000_0000
    ensures c >= 1
  {
    if count == 0 then 1 else Threshold(count)
  }

  /** The objects are cut into consecutive batches; an unfinished one waits in the buffer. */
  lemma {:induction false} BufferIsTail(count: int, objects: seq<Object>, m: nat)
    requires -0x8000_0000 <= count < 0x8000_0000 && m <= |objects|
    ensures After(count, objects, m) == objects[m - Phase(m, BatchSize(count))..m]
  {
    if m > 0 { BufferIsTail(count, objects, m - 1); }
  }

  /** Object i completes a batch exactly when i + 1 is a multiple of the batch size, and
      the batch is then the last that many objects. */
  lemma BatchesAreConsecutive(count: int, objects: seq<Object>, i: nat)
    requires -0x8000_0000 <= count < 0x8000_0000 && i < |objects|
    ensures var c, buffer := BatchSize(count), After(count, objects, i);
            && (Fires(count, buffer) <==> (i + 1) % c == 0)
            && (Fires(count, buffer) ==> c <= i + 1 && buffer + [objects[i]] == objects[i + 1 - c..i + 1])
  {
    BufferIsTail(count, objects, i);
    PhaseIsRemainder(i + 1, BatchSize(count));
  }

  /** In terms of the configured number: a positive count delivers every `count` objects, zero
      delivers every object by itself, and a negative count waits for 2^64 - |count| objects. */
  lemma DeliversConfigured(count: int, objects: seq<Object>, i: nat)
    requires -0x8000_0000 <= count < 0x8000_0000 && i < |objects|
    ensures var buffer := After(count, objects, i);
            && (count >= 1 ==> (Fires(count, buffer) <==> (i + 1) % count == 0))
            && (count >= 1 && Fires(count, buffer) ==>
                  count <= i + 1 && buffer + [objects[i]] == objects[i + 1 - count..i + 1])
            && (count == 0 ==> Fires(count, buffer) && buffer + [objects[i]] == [objects[i]])
            && (count < 0 ==> (Fires(count, buffer) <==> (i + 1) % (count + 0x1_0000_0000_0000_0000) == 0))
            && (count < 0 && i + 1 < count + 0x1_0000_0000_0000_0000 ==>
                  !Fires(count, buffer) && buffer + [objects[i]] == objects[..i + 1])
  {
    BatchesAreConsecutive(count, objects, i);
    BufferIsTail(count, objects, i);
    if i + 1 < BatchSize(count) {
      PhaseIsRemainder(i, BatchSize(count));
      BelowModulus(i, BatchSize(count));
      BelowModulus(i + 1, BatchSize(count));
    }
  }

  // ---------------------------------------------------------------- with clears

  function NextEvent(count: int, buffer: seq<Object>, ev: Event): seq<Object>
    requires -0x8000_0000 <= count < 0x8000_0000
  {
    if ev.Clear? || Fires(count, buffer) then [] else buffer + [(ev.session, ev.key)]
  }

  function Answer(target: string, count: int, buffer: seq<Object>, ev: Event): seq<Action>
    requires -0x8000_0000 <= count < 0x8000_0000
  {
    if ev.Arrive? && Fires(count, buffer) then [Action(target, buffer + [(ev.session, ev.key)])] else []
  }

  /** The buffer after the first m events of a history. */
  function AfterEvents(count: int, h: seq<Event>, m: nat): seq<Object>
    requires -0x8000_0000 <= count < 0x8000_0000 && m <= |h|
  {
    if m == 0 then [] else NextEvent(count, AfterEvents(count, h, m - 1), h[m - 1])
  }

  /** The objects that arrived since the last clear. */
  function SinceClear(h: seq<Event>, m: nat): seq<Object>
    requires m <= |h|
  {
    if m == 0 || h[m - 1].Clear? then [] else SinceClear(h, m - 1) + [(h[m - 1].session, h[m - 1].key)]
  }

  lemma {:induction false} PrefixDecides(count: int, objects: seq<Object>, o: Object, m: nat)
    requires -0x8000_0000 <= count < 0x8000_0000 && m <= |objects|
    ensures After(count, objects + [o], m) == After(count, objects, m)
  {
    if m > 0 { PrefixDecides(count, objects, o, m - 1); }
  }

  /** A clear starts the batches anew: what matters is what arrived since. */
  lemma {:induction false} ClearRestarts(count: int, h: seq<Event>, m: nat)
    requires -0x8000_0000 <= count < 0x8000_0000 && m <= |h|
    ensures AfterEvents(count, h, m) == After(count, SinceClear(h, m), |SinceClear(h, m)|)
  {
    if m > 0 && h[m - 1].Arrive? {
      ClearRestarts(count, h, m - 1);
      var before, o := SinceClear(h, m - 1), (h[m - 1].session, h[m - 1].key);
      PrefixDecides(count, before, o, |before|);
    }
  }

  class Trigger {
    const target: string
    const count: int
    var buffer: seq<Object>

    constructor (target: string, count: int)
      ensures this.target == target && this.count == count && buffer == []
    {
      this.target, this.count, buffer := target, count, [];
    }

    method ActionForNewObject(session: Session, key: Key) returns (actions: seq<Action>)
      requires -0x8000_0000 <= count < 0x8000_0000
      modifies this
      ensures buffer == if Fires(count, old(buffer)) then [] else old(buffer) + [(session, key)]
      ensures actions == if Fires(count, old(buffer)) then [Action(target, old(buffer) + [(session, key)])] else []
      ensures count >= 0 ==> (actions != [] <==> |old(buffer)| + 1 >= count)
      ensures count < 0 ==> (actions != [] <==> |old(buffer)| + 1 >= count + 0x1_0000_0000_0000_0000)
    {
      actions := [];
      buffer := buffer + [(session, key)];
      if |buffer| >= Threshold(count) {
        actions := [Action(target, buffer)];
        buffer := [];
      }
    }

    /** Waiting objects of all sessions are dropped, and counting starts anew. */
    method ClearSession(session: Session)
      modifies this
      ensures buffer == []
    {
      buffer := [];
    }

    method Handle(ev: Event) returns (actions: seq<Action>)
      requires -0x8000_0000 <= count < 0x8000_0000
      modifies this
      ensures buffer == NextEvent(count, old(buffer), ev) && actions == Answer(target, count, old(buffer), ev)
    {
      actions := [];
      match ev {
        case Arrive(s, k) => actions := ActionForNewObject(s, k);
        case Clear(s) => ClearSession(s);
      }
    }
  }

  ghost predicate AnswersAt(actions: seq<Action>, target: string, count: int, h: seq<Event>, i: nat)
    requires -0x8000_0000 <= count < 0x8000_0000 && i < |h|
  {
    actions == Answer(target, count, AfterEvents(count, h, i), h[i])
  }

  /** Any history on a new trigger: each event is answered as the specification says. */
  method Replay(target: string, count: int, h: seq<Event>) returns (answers: seq<seq<Action>>)
    requires -0x8000_0000 <= count < 0x8000_0000
    ensures |answers| == |h|
    ensures forall i :: 0 <= i < |h| ==> AnswersAt(answers[i], target, count, h, i)
  {
    var t := new Trigger(target, count);
    answers := [];
    for n := 0 to |h|
      invariant fresh(t) && t.target == target && t.count == count && t.buffer == AfterEvents(count, h, n)
      invariant |answers| == n
      invariant forall i :: 0 <= i < n ==> AnswersAt(answers[i], target, count, h, i)
    {
      var actions := t.Handle(h[n]);
      assert AnswersAt(actions, target, count, h, n);
      answers := answers + [actions];
    }
  }
}

/**
 * The trigger that, of every n objects, delivers the first k and drops the rest
 * (common/include/trigger.hpp:347-391).  Its counter is a 32-bit unsigned number.
 */
module Redundant {
  import opened Basics
  import opened TriggerEvents
  import opened Periods

  datatype State = State(count: uint32, buffer: seq<Object>)

  function Bump(count: uint32): (c: uint32)
    ensures c == if count == UINT32 - 1 then 0 else count + 1
  {
    (count + 1) % UINT32
  }

  predicate Fires(k: uint32, st: State) {
    Bump(st.count) == k
  }

  function Next(k: uint32, n: uint32, st: State, o: Object): State {
    var c := Bump(st.count);
    if c == k then State(c, [])
    else if c < k then State(c, st.buffer + [o])
    else if c >= n then State(0, st.buffer)
    else State(c, st.buffer)
  }

  function Cleared(k: uint32, st: State): State {
    State((st.count + k) % UINT32, [])
  }

  /** The state after the first m objects, from any state. */
  function After(k: uint32, n: uint32, st: State, objects: seq<Object>, m: nat): State
    requires m <= |objects|
  {
    if m == 0 then st else Next(k, n, After(k, n, st, objects, m - 1), objects[m - 1])
  }

  const INIT := State(0, [])

  // ---------------------------------------------------------------- without clears

  function Period(k: uint32, n: uint32): (p: nat)
    ensures p > 0
  {
    if n > k then n else k + 1
  }

  /** The counter is the number of arrivals modulo the period, for all k and n. */
  lemma CountIsPeriodic(k: uint32, n: uint32, objects: seq<Object>, m: nat)
    requires m <= |objects|
    ensures After(k, n, INIT, objects, m).count == m % Period(k, n)
  {
    CountIsPhase(k, n, objects, m);
    PhaseIsRemainder(m, Period(k, n));
  }

  lemma {:induction false} CountIsPhase(k: uint32, n: uint32, objects: seq<Object>, m: nat)
    requires m <= |objects|
    ensures After(k, n, INIT, objects, m).count == Phase(m, Period(k, n))
  {
    if m > 0 { CountIsPhase(k, n, objects, m - 1); }
  }

  lemma GrowSlice(objects: seq<Object>, from: nat, to: nat)
    requires from <= to < |objects|
    ensures objects[from..to] + [objects[to]] == objects[from..to + 1]
  {
  }

  lemma BufferStep(k: uint32, n: uint32, st: State, o: Object)
    requires k < UINT32 - 1 && st.count < Period(k, n) && (st.count >= k ==> st.buffer == [])
    ensures Next(k, n, st, o).buffer == if st.count + 1 < k then st.buffer + [o] else []
  {
  }

  lemma {:induction false} BufferIsPeriodic(k: uint32, n: uint32, objects: seq<Object>, m: nat)
    requires m <= |objects| && k < UINT32 - 1
    ensures var r := Phase(m, Period(k, n));
            After(k, n, INIT, objects, m).buffer == if r < k then objects[m - r..m] else []
  {
    if m > 0 {
      BufferIsPeriodic(k, n, objects, m - 1);
      CountIsPhase(k, n, objects, m - 1);
      var r := Phase(m - 1, Period(k, n));
      BufferStep(k, n, After(k, n, INIT, objects, m - 1), objects[m - 1]);
      GrowSlice(objects, m - 1 - r, m - 1);
    }
  }

  /** Each period delivers exactly its first k objects, in one action (none if k is 0). */
  lemma DeliversFirstK(k: uint32, n: uint32, objects: seq<Object>, i: nat)
    requires i < |objects| && k < UINT32 - 1
    ensures var st, r := After(k, n, INIT, objects, i), i % Period(k, n);
            && (Fires(k, st) <==> r + 1 == k)
            && (Fires(k, st) ==> k <= i + 1 && st.buffer + [objects[i]] == objects[i + 1 - k..i + 1])
  {
    CountIsPhase(k, n, objects, i);
    BufferIsPeriodic(k, n, objects, i);
    PhaseIsRemainder(i, Period(k, n));
  }

  /** From any state below k, the next k - count objects complete one action. */
  lemma {:induction false} FirstAction(k: uint32, n: uint32, st: State, objects: seq<Object>, m: nat)
    requires st.count < k && m < k - st.count <= |objects|
    ensures var st' := After(k, n, st, objects, m);
            && st'.count == st.count + m && st'.buffer == st.buffer + objects[..m]
            && (Fires(k, st') <==> m == k - st.count - 1)
            && (Fires(k, st') ==> |st'.buffer + [objects[m]]| == |st.buffer| + (k - st.count))
  {
    if m > 0 {
      FirstAction(k, n, st, objects, m - 1);
      assert objects[..m] == objects[..m - 1] + [objects[m - 1]];
    }
  }

  /** For the one remaining k, the largest 32-bit number, a period's last object is not
      dropped but leads the next action, which then has k + 1 entries. */
  lemma LargestK(n: uint32, objects: seq<Object>)
    requires |objects| == UINT32
    ensures After(UINT32 - 1, n, INIT, objects, UINT32) == State(0, [objects[UINT32 - 1]])
  {
    FirstAction(UINT32 - 1, n, INIT, objects, UINT32 - 2);
    assert After(UINT32 - 1, n, INIT, objects, UINT32 - 1) == State(UINT32 - 1, []);
  }

  // ---------------------------------------------------------------- behind a clear

  /** A clear adds k to the counter; the sum loses 2^32 where it reaches it. */
  lemma ClearedCount(k: uint32, st: State)
    ensures var st0 := Cleared(k, st);
            && st0.buffer == []
            && st0.count == if st.count + k < 0x1_0000_0000 then st.count + k else st.count + k - 0x1_0000_0000
  {
    if st.count + k >= UINT32 { Division(st.count + k, 1, UINT32, st.count + k - UINT32); }
  }

  /** The objects that are dropped behind a clear of a counter that reads `count`. */
  function Dropped(k: uint32, n: uint32, count: uint32): (w: nat)
    ensures w > 0
  {
    if n > count + k then n - count - k else 1
  }

  /** Behind a clear below 2^32 - 1, objects are dropped until the counter, which goes on from
      the sum, has reached n; it then starts from 0. */
  lemma {:induction false} ClearDrops(k: uint32, n: uint32, st: State, objects: seq<Object>, m: nat)
    requires st.count + k < UINT32 - 1 && m <= Dropped(k, n, st.count) && m <= |objects|
    ensures var st' := After(k, n, Cleared(k, st), objects, m);
            && st'.buffer == []
            && st'.count == (if m < Dropped(k, n, st.count) then st.count + k + m else 0)
            && (m < Dropped(k, n, st.count) ==> !Fires(k, st'))
  {
    if m == 0 { ClearedCount(k, st); } else { ClearDrops(k, n, st, objects, m - 1); }
  }

  /** Behind a clear that reaches 2^32 the counter goes on from the excess: the next action comes with
      object 2^32 less the counter before the clear, and has that many entries. */
  lemma ClearRestarts(k: uint32, n: uint32, st: State, objects: seq<Object>, m: nat)
    requires st.count + k >= UINT32 && m < UINT32 - st.count <= |objects|
    ensures var st' := After(k, n, Cleared(k, st), objects, m);
            && (Fires(k, st') <==> m == UINT32 - st.count - 1)
            && st'.buffer + [objects[m]] == objects[..m + 1]
  {
    ClearedCount(k, st);
    FirstAction(k, n, Cleared(k, st), objects, m);
    assert [] + objects[..m] == objects[..m];
  }

  /** Behind a clear to 2^32 - 1 itself the counter wraps with the next object, which is kept: the next
      action has k + 1 entries. */
  lemma ClearToLast(k: uint32, n: uint32, st: State, objects: seq<Object>, m: nat)
    requires st.count + k == UINT32 - 1 && k > 0 && 1 <= m <= k < |objects|
    ensures var st' := After(k, n, Cleared(k, st), objects, m);
            && (Fires(k, st') <==> m == k)
            && st'.buffer + [objects[m]] == objects[..m + 1]
  {
    ClearedCount(k, st);
    var st1 := State(0, [objects[0]]);
    assert After(k, n, Cleared(k, st), objects, 0) == Cleared(k, st);
    assert After(k, n, Cleared(k, st), objects, 1) == st1;
    AfterFirst(k, n, Cleared(k, st), objects, m);
    FirstAction(k, n, st1, objects[1..], m - 1);
    assert [objects[0]] + objects[1..][..m - 1] == objects[..m];
  }

  lemma {:induction false} AfterFirst(k: uint32, n: uint32, st: State, objects: seq<Object>, m: nat)
    requires 1 <= m <= |objects|
    ensures After(k, n, st, objects, m) == After(k, n, Next(k, n, st, objects[0]), objects[1..], m - 1)
  {
    if m == 1 {
      assert After(k, n, st, objects, 0) == st;
    } else {
      AfterFirst(k, n, st, objects, m - 1);
    }
  }

  // ---------------------------------------------------------------- with clears

  /** The buffer holds one object per count until k is reached. */
  predicate Synced(k: uint32, st: State) {
    |st.buffer| == if st.count < k then st.count else 0
  }

  /** An arrival does not carry the counter to 2^32, and a clear does not carry it past 2^32;
      at 2^32 itself a clear leaves it as good as new. */
  predicate Harmless(k: uint32, st: State, ev: Event) {
    if ev.Arrive? then st.count < UINT32 - 1 else st.count + k <= UINT32
  }

  function NextEvent(k: uint32, n: uint32, st: State, ev: Event): State {
    if ev.Arrive? then Next(k, n, st, (ev.session, ev.key)) else Cleared(k, st)
  }

  function Answer(target: string, k: uint32, st: State, ev: Event): seq<Action> {
    if ev.Arrive? && Fires(k, st) then [Action(target, st.buffer + [(ev.session, ev.key)])] else []
  }

  function AfterEvents(k: uint32, n: uint32, h: seq<Event>, m: nat): State
    requires m <= |h|
  {
    if m == 0 then INIT else NextEvent(k, n, AfterEvents(k, n, h, m - 1), h[m - 1])
  }

  /** Exactly the harmless events keep buffer and counter in step. */
  lemma SyncedIff(k: uint32, n: uint32, st: State, ev: Event)
    requires k > 0 && Synced(k, st)
    ensures Synced(k, NextEvent(k, n, st, ev)) <==> Harmless(k, st, ev)
  {
  }

  lemma SyncedKept(k: uint32, n: uint32, st: State, ev: Event)
    requires Synced(k, st) && Harmless(k, st, ev)
    ensures Synced(k, NextEvent(k, n, st, ev))
  {
    if k > 0 { SyncedIff(k, n, st, ev); }
  }

  /** The first m events of the history are harmless. */
  predicate AllHarmless(k: uint32, n: uint32, h: seq<Event>, m: nat)
    requires m <= |h|
  {
    m == 0 || (AllHarmless(k, n, h, m - 1) && Harmless(k, AfterEvents(k, n, h, m - 1), h[m - 1]))
  }

  lemma {:induction false} HarmlessSynced(k: uint32, n: uint32, h: seq<Event>, m: nat)
    requires m <= |h| && AllHarmless(k, n, h, m)
    ensures Synced(k, AfterEvents(k, n, h, m))
  {
    if m > 0 {
      HarmlessSynced(k, n, h, m - 1);
      SyncedKept(k, n, AfterEvents(k, n, h, m - 1), h[m - 1]);
    }
  }

  lemma SyncedAction(k: uint32, st: State, ev: Event)
    requires Synced(k, st) && Harmless(k, st, ev) && ev.Arrive? && Fires(k, st)
    ensures |st.buffer| + 1 == k
  {
  }

  /** As long as all events are harmless, every action has exactly k entries. */
  lemma EveryActionHasK(target: string, k: uint32, n: uint32, h: seq<Event>, i: nat)
    requires i < |h| && AllHarmless(k, n, h, i + 1)
    ensures forall a :: a in Answer(target, k, AfterEvents(k, n, h, i), h[i]) ==> |a.objects| == k
  {
    HarmlessSynced(k, n, h, i);
    var st := AfterEvents(k, n, h, i);
    if h[i].Arrive? && Fires(k, st) { SyncedAction(k, st, h[i]); }
  }

  /** After one that is not, the next action has a different number of entries. */
  lemma WrapShows(k: uint32, n: uint32, st: State, ev: Event, objects: seq<Object>)
    requires k > 0 && Synced(k, st) && !Harmless(k, st, ev)
    requires |objects| == k - NextEvent(k, n, st, ev).count
    ensures var st0 := NextEvent(k, n, st, ev);
            && st0.count < k && |objects| > 0
            && var st1 := After(k, n, st0, objects, |objects| - 1);
               Fires(k, st1) && |st1.buffer| + 1 != k
  {
    HarmLowers(k, n, st, ev);
    FirstAction(k, n, NextEvent(k, n, st, ev), objects, |objects| - 1);
  }

  lemma HarmLowers(k: uint32, n: uint32, st: State, ev: Event)
    requires k > 0 && Synced(k, st) && !Harmless(k, st, ev)
    ensures var st0 := NextEvent(k, n, st, ev); st0.count < k && |st0.buffer| != st0.count
  {
  }

  /** Whatever arrives next, the action that it completes has k entries. */
  ghost predicate NextActionHasK(k: uint32, n: uint32, st: State) {
    st.count < k ==> forall objects: seq<Object> :: |objects| == k - st.count ==>
      |After(k, n, st, objects, |objects| - 1).buffer| + 1 == k
  }

  lemma SyncedDelivers(k: uint32, n: uint32, st: State)
    requires Synced(k, st)
    ensures NextActionHasK(k, n, st)
  {
    if st.count < k {
      forall objects: seq<Object> | |objects| == k - st.count
        ensures |After(k, n, st, objects, |objects| - 1).buffer| + 1 == k
      {
        FirstAction(k, n, st, objects, |objects| - 1);
      }
    }
  }

  lemma NotDelivering(k: uint32, n: uint32, st: State, objects: seq<Object>)
    requires st.count < k && |objects| == k - st.count
    requires |After(k, n, st, objects, |objects| - 1).buffer| + 1 != k
    ensures !NextActionHasK(k, n, st)
  {
  }

  lemma HarmShows(k: uint32, n: uint32, st: State, ev: Event)
    requires k > 0 && Synced(k, st) && !Harmless(k, st, ev)
    ensures !NextActionHasK(k, n, NextEvent(k, n, st, ev))
  {
    var st0 := NextEvent(k, n, st, ev);
    HarmLowers(k, n, st, ev);
    var objects: seq<Object> := seq(k - st0.count, _ => ("", ""));
    WrapShows(k, n, st, ev, objects);
    NotDelivering(k, n, st0, objects);
  }

  /** At every moment of the history the next action is going to have k entries. */
  ghost predicate AllDeliver(k: uint32, n: uint32, h: seq<Event>) {
    forall j :: 0 <= j <= |h| ==> NextActionHasK(k, n, AfterEvents(k, n, h, j))
  }

  lemma DeliversStep(k: uint32, n: uint32, st: State, ev: Event)
    requires k > 0 && Synced(k, st)
    ensures NextActionHasK(k, n, NextEvent(k, n, st, ev)) <==> Harmless(k, st, ev)
  {
    if Harmless(k, st, ev) {
      SyncedKept(k, n, st, ev);
      SyncedDelivers(k, n, NextEvent(k, n, st, ev));
    } else {
      HarmShows(k, n, st, ev);
    }
  }

  lemma DeliversAt(k: uint32, n: uint32, h: seq<Event>, m: nat)
    requires k > 0 && m < |h| && AllHarmless(k, n, h, m)
    ensures NextActionHasK(k, n, AfterEvents(k, n, h, m + 1)) <==> Harmless(k, AfterEvents(k, n, h, m), h[m])
  {
    HarmlessSynced(k, n, h, m);
    DeliversStep(k, n, AfterEvents(k, n, h, m), h[m]);
  }

  lemma {:induction false} HarmlessPrefix(k: uint32, n: uint32, h: seq<Event>, j: nat, m: nat)
    requires j <= m <= |h| && AllHarmless(k, n, h, m)
    ensures AllHarmless(k, n, h, j)
  {
    if j < m { HarmlessPrefix(k, n, h, j, m - 1); }
  }

  lemma {:induction false} FirstHarm(k: uint32, n: uint32, h: seq<Event>, m: nat) returns (j: nat)
    requires m <= |h| && !AllHarmless(k, n, h, m)
    ensures j < m && AllHarmless(k, n, h, j) && !Harmless(k, AfterEvents(k, n, h, j), h[j])
  {
    if AllHarmless(k, n, h, m - 1) { j := m - 1; } else { j := FirstHarm(k, n, h, m - 1); }
  }

  lemma HarmlessDeliver(k: uint32, n: uint32, h: seq<Event>, j: nat)
    requires j <= |h| && AllHarmless(k, n, h, |h|)
    ensures NextActionHasK(k, n, AfterEvents(k, n, h, j))
  {
    HarmlessPrefix(k, n, h, j, |h|);
    HarmlessSynced(k, n, h, j);
    SyncedDelivers(k, n, AfterEvents(k, n, h, j));
  }

  /** Over a whole history: at every moment the next action is going to have k entries,
      exactly when every event of the history is harmless. */
  lemma DeliversIffHarmless(k: uint32, n: uint32, h: seq<Event>)
    requires k > 0
    ensures AllDeliver(k, n, h) <==> AllHarmless(k, n, h, |h|)
  {
    if AllHarmless(k, n, h, |h|) {
      forall j | 0 <= j <= |h| ensures NextActionHasK(k, n, AfterEvents(k, n, h, j)) {
        HarmlessDeliver(k, n, h, j);
      }
    } else {
      var j := FirstHarm(k, n, h, |h|);
      DeliversAt(k, n, h, j);
    }
  }

  /** Clearing a session is not idempotent: twice can go past 2^32, and then two objects are lost. */
  lemma ClearingTwiceCanWrap(h: seq<Event>, s: Session)
    requires h == [Clear(s), Clear(s)]
    ensures AfterEvents(0x8000_0001, 1, h, 2) == State(2, [])
  {
    assert AfterEvents(0x8000_0001, 1, h, 1) == State(0x8000_0001, []);
  }

  class Trigger {
    const target: string
    const k: uint32
    const n: uint32
    var count: uint32
    var buffer: seq<Object>

    ghost function View(): State
      reads this
    {
      State(count, buffer)
    }

    constructor (target: string, k: uint32, n: uint32)
      ensures this.target == target && this.k == k && this.n == n && View() == INIT
    {
      this.target, this.k, this.n, count, buffer := target, k, n, 0, [];
    }

    method ActionForNewObject(session: Session, key: Key) returns (actions: seq<Action>)
      modifies this
      ensures View() == Next(k, n, old(View()), (session, key))
      ensures actions == if Fires(k, old(View())) then [Action(target, old(buffer) + [(session, key)])] else []
    {
      actions := [];
      count := (count + 1) % UINT32;
      if count <= k {
        buffer := buffer + [(session, key)];
        if count == k {
          actions := [Action(target, buffer)];
          buffer := [];
        }
      } else if count >= n {
        count := 0;
      }
    }

    method ClearSession(session: Session)
      modifies this
      ensures View() == Cleared(k, old(View()))
      ensures count == (if old(count) + k < 0x1_0000_0000 then old(count) + k else old(count) + k - 0x1_0000_0000)
      ensures buffer == []
    {
      ClearedCount(k, View());
      count := (count + k) % UINT32;
      buffer := [];
    }

    method Handle(ev: Event) returns (actions: seq<Action>)
      modifies this
      ensures View() == NextEvent(k, n, old(View()), ev) && actions == Answer(target, k, old(View()), ev)
    {
      actions := [];
      match ev {
        case Arrive(session, key) => actions := ActionForNewObject(session, key);
        case Clear(session) => ClearSession(session);
      }
    }
  }

  ghost predicate AnswersAt(actions: seq<Action>, target: string, k: uint32, n: uint32, h: seq<Event>, i: nat)
    requires i < |h|
  {
    actions == Answer(target, k, AfterEvents(k, n, h, i), h[i])
  }

  /** Any history on a new trigger: each event is answered as the specification says. */
  method Replay(target: string, k: uint32, n: uint32, h: seq<Event>) returns (answers: seq<seq<Action>>)
    ensures |answers| == |h|
    ensures forall i :: 0 <= i < |h| ==> AnswersAt(answers[i], target, k, n, h, i)
  {
    var t := new Trigger(target, k, n);
    answers := [];
    for m := 0 to |h|
      invariant fresh(t) && t.target == target && t.k == k && t.n == n && t.View() == AfterEvents(k, n, h, m)
      invariant |answers| == m
      invariant forall i :: 0 <= i < m ==> AnswersAt(answers[i], target, k, n, h, i)
    {
      var actions := t.Handle(h[m]);
      assert AnswersAt(actions, target, k, n, h, m);
      answers := answers + [actions];
    }
  }
}
