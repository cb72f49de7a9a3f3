/**
 * Who gets what: the reply, or NULL, that each event of the asynchronous client hands to the
 * pending callbacks, and how it leaves the context.
 */
module AsyncDelivery {
  import opened Basics
  import opened AsyncProtocol
  import opened AsyncRuns
  import opened AsyncHistory

  /** Every one of these callbacks gets NULL. */
  ghost function Nulls(queue: seq<Callback>): seq<Delivery> {
    seq(|queue|, i requires 0 <= i < |queue| => Delivery(queue[i], None))
  }

  lemma NullsFirst(queue: seq<Callback>)
    requires queue != []
    ensures Nulls(queue) == [Delivery(queue[0], None)] + Nulls(queue[1..])
  {
  }

  lemma {:induction false} DrainLog(plan: Plan, c: Ctx, n: nat)
    requires (Closing(c) && n == |c.queue|) || c.queue == []
    ensures var d := DrainFor(plan, c, n);
            && d.log == c.log + Nulls(c.queue) && d.queue == [] && d.accepted == c.accepted
            && d.phase == c.phase && d.cerr == c.cerr && d.err == c.err
    decreases n
  {
    if c.queue != [] {
      ConsumeOne(plan, c, None);
      DrainLog(plan, Consume(plan, c, None), n - 1);
      NullsFirst(c.queue);
    }
  }

  // ---------------------------------------------------------------- closing

  /** The context is gone, every pending callback got NULL, and no command was added. */
  ghost predicate FreedFrom(c: Ctx, d: Ctx) {
    d.phase.Freed? && d.queue == [] && d.log == c.log + Nulls(c.queue) && d.accepted == c.accepted
  }

  lemma FreeDelivers(plan: Plan, c: Ctx)
    requires Closing(c) || c.queue == []
    ensures var d := AsyncFree(plan, c); FreedFrom(c, d) && d.cerr == c.cerr && d.err == c.err
  {
    DrainLog(plan, c, |c.queue|);
  }

  /** Closed by an error: no more commands; freed unless the context is not freed automatically. */
  ghost predicate ClosedByError(c: Ctx, d: Ctx, code: nat) {
    && d.cerr == d.err == code && d.disconnecting
    && (if c.noAutoFree then d.phase == c.phase && d.queue == c.queue && d.log == c.log && d.accepted == c.accepted
        else FreedFrom(c, d))
  }

  lemma ErrorCloses(plan: Plan, c: Ctx)
    requires c.cerr != 0
    ensures ClosedByError(c, AsyncDisconnect(plan, c), c.cerr)
  {
    var c2 := c.(err := c.cerr, disconnecting := true);
    FreeDelivers(plan, c2);
    DrainDrains(plan, c2, |c2.queue|);
  }

  /** Input or output that fails, and any input or output after an error, closes the context. */
  lemma FailuresClose(plan: Plan, c: Ctx, ev: Event)
    requires Proper(ev) && (ev.ReadFails? || ev.WriteFails? || (c.cerr != 0 && (ev.ReadData? || ev.Written?)))
    ensures ClosedByError(c, Step(plan, c, ev), if c.cerr != 0 then c.cerr else ev.code)
  {
    ErrorCloses(plan, if c.cerr != 0 then c else c.(cerr := ev.code));
  }

  /** A disconnect of a context with nothing pending frees it at once; with something pending it
      only refuses further commands. */
  lemma DisconnectCloses(plan: Plan, c: Ctx)
    requires !c.inCallback
    ensures var d := Step(plan, c, Call(Disconnect));
            && d.disconnecting && d.log == c.log && d.queue == c.queue && d.accepted == c.accepted && d.cerr == c.cerr
            && (if c.queue == [] then d.phase.Freed? && d.err == c.cerr else d.phase == c.phase && d.err == c.err)
  {
    if c.queue == [] {
      var c1 := c.(disconnecting := true, noAutoFree := false, err := c.cerr);
      DrainLog(plan, c1, 0);
      DrainDrains(plan, c1, 0);
    }
  }

  /** A free outside callbacks frees at once. */
  lemma FreeCloses(plan: Plan, c: Ctx)
    requires !c.inCallback
    ensures FreedFrom(c, Step(plan, c, Call(Free)))
  {
    FreeDelivers(plan, c.(freeing := true));
  }

  /** A command and a write, complete or not, hand out nothing and leave the context open. */
  lemma OutputDelivers(plan: Plan, c: Ctx, ev: Event)
    requires (ev.Call? && ev.act.Command?) || (ev.Written? && c.cerr == 0)
    ensures var d := Step(plan, c, ev);
            && d.log == c.log && d.phase == c.phase && d.cerr == c.cerr && d.err == c.err
            && d.queue == if ev.Call? && !Closing(c) then c.queue + [ev.act.cb] else c.queue
  {
  }

  lemma {:induction false} DrainCount(plan: Plan, c: Ctx, n: nat)
    ensures var d := DrainFor(plan, c, n); |d.log| <= |c.log| + n && (d.queue != [] ==> |d.log| == |c.log| + n)
    decreases n
  {
    if n > 0 && c.queue != [] {
      ConsumeOne(plan, c, None);
      DrainCount(plan, Consume(plan, c, None), n - 1);
    }
  }

  /** NULL for up to `rounds` callbacks, fewer only if nothing is pending any more. */
  ghost predicate NullsOnly(c: Ctx, d: Ctx, rounds: nat) {
    && Extends(c.log, d.log) && (forall i :: |c.log| <= i < |d.log| ==> d.log[i].reply == None)
    && |d.log| <= |c.log| + rounds && (d.queue != [] ==> |d.log| == |c.log| + rounds)
  }

  /** A timeout with something pending hands out NULL, one callback a round; it goes on until
      nothing is pending and then closes the context. */
  lemma TimeoutDelivers(plan: Plan, c: Ctx, configured: bool, rounds: nat)
    requires c.phase.Open?
    ensures var d := Step(plan, c, Timeout(configured, rounds));
            if !configured || c.queue == [] then d == c
            else && NullsOnly(c, d, rounds) && d.cerr == (if c.cerr == 0 then 6 else c.cerr)
                 && (if d.queue != [] then d.phase.Draining?
                     else d.disconnecting && d.err == d.cerr && d.phase == if d.noAutoFree then Open else Freed)
  {
    if configured && c.queue != [] {
      var c1 := if c.cerr == 0 then c.(cerr := ERR_TIMEOUT, err := ERR_TIMEOUT) else c;
      DrainDrains(plan, c1, rounds);
      DrainCount(plan, c1, rounds);
    }
  }

  // ---------------------------------------------------------------- replies

  /** How many of the callbacks have a function. */
  ghost function Functions(queue: seq<Callback>): nat {
    if queue == [] then 0 else (if queue[0].fn then 1 else 0) + Functions(queue[1..])
  }

  /** Among the callbacks pending now, the j-th finds the context to be freed when it has run. */
  ghost predicate StopsAt(plan: Plan, c: Ctx, j: nat)
    requires j < |c.queue|
  {
    c.queue[j].fn && (c.freeing || Free in plan(c.runs + Functions(c.queue[..j])))
  }

  ghost predicate StopsBefore(plan: Plan, c: Ctx, j: nat)
    requires j <= |c.queue|
  {
    exists i :: 0 <= i < j && StopsAt(plan, c, i)
  }

  /** Pending callback j got reply j, or NULL if one before it had the context freed. */
  ghost predicate Delivered(plan: Plan, c: Ctx, batch: seq<Reply>, d: Ctx, j: nat)
    requires j < |batch| <= |c.queue|
  {
    && |c.log| + j < |d.log|
    && d.log[|c.log| + j] == Delivery(c.queue[j], if StopsBefore(plan, c, j) then None else Some(batch[j]))
  }

  lemma StopsShift(plan: Plan, c: Ctx, d: Ctx, j: nat)
    requires c.queue != [] && !StopsAt(plan, c, 0) && c.queue[1..] <= d.queue && j < |c.queue| - 1
    requires d.runs == c.runs + (if c.queue[0].fn then 1 else 0)
    requires d.freeing <==> c.freeing || (c.queue[0].fn && Free in plan(c.runs))
    ensures StopsAt(plan, d, j) <==> StopsAt(plan, c, j + 1)
  {
    assert c.queue[..j + 1][1..] == c.queue[1..][..j] == d.queue[..j];
    assert d.queue[j] == c.queue[j + 1];
    assert c.queue[..0] == [];
  }

  /** What a consumed callback leaves behind, for those that follow it. */
  lemma AfterOne(plan: Plan, c: Ctx, reply: Option<Reply>)
    requires c.queue != []
    ensures var d := Consume(plan, c, reply);
            && d.log == c.log + [Delivery(c.queue[0], reply)] && d.cerr == c.cerr && c.queue[1..] <= d.queue
            && d.runs == c.runs + (if c.queue[0].fn then 1 else 0)
            && (d.freeing <==> c.freeing || (c.queue[0].fn && Free in plan(c.runs)))
            && (c.queue[0].fn && d.freeing <==> StopsAt(plan, c, 0))
  {
    ConsumeOne(plan, c, reply);
    ConsumeDid(plan, c, reply);
    QueueKept(plan, c, reply);
    assert Planned(plan, c.runs, c.runs) == [] && Planned(plan, c.runs, c.runs + 1) == plan(c.runs);
    assert c.queue[..0] == [];
  }

  lemma StopsBeforeShift(plan: Plan, c: Ctx, d: Ctx, j: nat)
    requires c.queue != [] && !StopsAt(plan, c, 0) && c.queue[1..] <= d.queue && j < |c.queue|
    requires d.runs == c.runs + (if c.queue[0].fn then 1 else 0)
    requires d.freeing <==> c.freeing || (c.queue[0].fn && Free in plan(c.runs))
    ensures StopsBefore(plan, d, j) <==> StopsBefore(plan, c, j + 1)
  {
    forall i | 0 <= i < j ensures StopsAt(plan, d, i) <==> StopsAt(plan, c, i + 1) { StopsShift(plan, c, d, i); }
    if StopsBefore(plan, c, j + 1) {
      var i :| 0 <= i < j + 1 && StopsAt(plan, c, i);
      assert StopsAt(plan, d, i - 1);
    }
    if StopsBefore(plan, d, j) {
      var i :| 0 <= i < j && StopsAt(plan, d, i);
      assert StopsAt(plan, c, i + 1);
    }
  }

  /** The first callback gets its reply; if it had the context freed, the others get NULL. */
  lemma StoppedDelivers(plan: Plan, c: Ctx, batch: seq<Reply>, j: nat)
    requires j < |batch| <= |c.queue| && StopsAt(plan, c, 0)
    ensures Delivered(plan, c, batch, AsyncFree(plan, Consume(plan, c, Some(batch[0]))), j)
  {
    var e := Consume(plan, c, Some(batch[0]));
    AfterOne(plan, c, Some(batch[0]));
    FreeDelivers(plan, e);
    if j > 0 { assert e.queue[j - 1] == c.queue[1..][j - 1]; }
  }

  lemma DeliveredShift(plan: Plan, c: Ctx, e: Ctx, batch: seq<Reply>, d: Ctx, j: nat)
    requires 0 < j < |batch| <= |c.queue| && !StopsAt(plan, c, 0) && c.queue[1..] <= e.queue
    requires e.runs == c.runs + (if c.queue[0].fn then 1 else 0) && |e.log| == |c.log| + 1
    requires e.freeing <==> c.freeing || (c.queue[0].fn && Free in plan(c.runs))
    requires Delivered(plan, e, batch[1..], d, j - 1)
    ensures Delivered(plan, c, batch, d, j)
  {
    StopsBeforeShift(plan, c, e, j - 1);
    assert e.queue[j - 1] == c.queue[1..][j - 1];
  }

  lemma {:induction false} ReplyDelivered(plan: Plan, c: Ctx, batch: seq<Reply>, tail: Tail, j: nat)
    requires c.cerr == 0 && (tail.Fail? ==> tail.code != 0) && j < |batch| <= |c.queue|
    ensures Delivered(plan, c, batch, ProcessCallbacks(plan, c, batch, tail), j)
    decreases |batch|
  {
    var e, d := Consume(plan, c, Some(batch[0])), ProcessCallbacks(plan, c, batch, tail);
    AfterOne(plan, c, Some(batch[0]));
    if StopsAt(plan, c, 0) {
      StoppedDelivers(plan, c, batch, j);
    } else if j == 0 {
      ProcessDid(plan, e, batch[1..], tail);
      assert d.log[|c.log|] == d.log[..|e.log|][|c.log|];
    } else {
      ReplyDelivered(plan, e, batch[1..], tail, j - 1);
      DeliveredShift(plan, c, e, batch, d, j);
    }
  }

  /** No reply is an error of the connection: unless one of its callbacks has the context freed, a
      batch ends with the error that its own tail reports, or with none. */
  ghost predicate BatchEnds(c: Ctx, batch: seq<Reply>, tail: Tail, d: Ctx, stops: bool) {
    && d.cerr == (if tail.Fail? && !stops then tail.code else 0)
    && (stops ==> d.phase.Freed?)
    && (!stops && tail == NoMore ==> |d.log| == |c.log| + |batch|)
  }

  lemma {:induction false} BatchEnded(plan: Plan, c: Ctx, batch: seq<Reply>, tail: Tail)
    requires c.cerr == 0 && (tail.Fail? ==> tail.code != 0) && |batch| <= |c.queue|
    ensures BatchEnds(c, batch, tail, ProcessCallbacks(plan, c, batch, tail), StopsBefore(plan, c, |batch|))
    decreases |batch|
  {
    if batch == [] {
      DisconnectDid(plan, if tail.Fail? then c.(cerr := tail.code) else c.(queue := []));
    } else {
      var e := Consume(plan, c, Some(batch[0]));
      AfterOne(plan, c, Some(batch[0]));
      if StopsAt(plan, c, 0) {
        FreeDelivers(plan, e);
      } else {
        BatchEnded(plan, e, batch[1..], tail);
        StopsBeforeShift(plan, c, e, |batch| - 1);
      }
    }
  }

  /** A batch no longer than the queue: the pending callbacks get the replies in order, each its own,
      error replies included, up to the first that has the context freed; those after it get NULL. */
  lemma RepliesDelivered(plan: Plan, c: Ctx, batch: seq<Reply>, tail: Tail)
    requires c.cerr == 0 && (tail.Fail? ==> tail.code != 0) && |batch| <= |c.queue|
    ensures var d := ProcessCallbacks(plan, c, batch, tail);
            && (forall j :: 0 <= j < |batch| ==> Delivered(plan, c, batch, d, j))
            && BatchEnds(c, batch, tail, d, StopsBefore(plan, c, |batch|))
  {
    forall j | 0 <= j < |batch| ensures Delivered(plan, c, batch, ProcessCallbacks(plan, c, batch, tail), j) {
      ReplyDelivered(plan, c, batch, tail, j);
    }
    BatchEnded(plan, c, batch, tail);
  }

  /** A reply that nothing is waiting for: an error reply closes the context, any other trips the
      subscription assertion. */
  lemma StrayReply(plan: Plan, c: Ctx, batch: seq<Reply>, tail: Tail)
    requires batch != [] && c.queue == []
    ensures var d := ProcessCallbacks(plan, c, batch, tail);
            if batch[0].error then ClosedByError(c, d, 2) else d == c.(phase := Unsolicited)
  {
    if batch[0].error { ErrorCloses(plan, c.(cerr := ERR_OTHER)); }
  }

  /** How the replies are cut into batches makes no difference, as long as the context is open in between. */
  lemma {:induction false} BatchesJoin(plan: Plan, c: Ctx, batch: seq<Reply>, more: seq<Reply>, tail: Tail)
    requires c.cerr == 0 && c.err == 0
    requires var e := ProcessCallbacks(plan, c, batch, NoMore); e.phase.Open? && e.cerr == 0
    ensures ProcessCallbacks(plan, c, batch + more, tail)
         == ProcessCallbacks(plan, ProcessCallbacks(plan, c, batch, NoMore), more, tail)
    decreases |batch|
  {
    if batch == [] {
      assert batch + more == more;
    } else if c.queue == [] {
      DisconnectDid(plan, c.(cerr := ERR_OTHER));
    } else {
      ConsumeOne(plan, c, Some(batch[0]));
      assert (batch + more)[1..] == batch[1..] + more;
      BatchesJoin(plan, Consume(plan, c, Some(batch[0])), batch[1..], more, tail);
    }
  }
}
