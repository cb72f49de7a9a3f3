/**
 * Collecting the responses to a set of requests (common/include/requests.hpp:22-82).
 * The socket is a finite stream of messages and timeouts; a stream that is used up
 * without a verdict leaves the caller waiting.
 */
module Requests {
  import opened Basics

  datatype Response = Response(id: string, body: string)

  datatype Event = Message(response: Response) | Timeout

  datatype Verdict = Complete | GaveUp | Waiting

  // ---------------------------------------------------------------- what a stream answers

  /** The ids that the first n events answer. */
  function AnsweredBy(stream: seq<Event>, n: nat): set<string>
    requires n <= |stream|
  {
    if n == 0 then {}
    else if stream[n - 1].Message? then AnsweredBy(stream, n - 1) + {stream[n - 1].response.id}
    else AnsweredBy(stream, n - 1)
  }

  function Timeouts(stream: seq<Event>, n: nat): nat
    requires n <= |stream|
  {
    if n == 0 then 0 else Timeouts(stream, n - 1) + (if stream[n - 1].Timeout? then 1 else 0)
  }

  lemma {:induction false} AnsweredIff(stream: seq<Event>, n: nat, id: string)
    requires n <= |stream|
    ensures id in AnsweredBy(stream, n) <==> exists m :: 0 <= m < n && stream[m].Message? && stream[m].response.id == id
  {
    if n > 0 { AnsweredIff(stream, n - 1, id); }
  }

  lemma {:induction false} TimeoutsCount(stream: seq<Event>, n: nat)
    requires n <= |stream|
    ensures Timeouts(stream, n) == |set m | 0 <= m < n && stream[m].Timeout?|
  {
    if n > 0 {
      TimeoutsCount(stream, n - 1);
      var before, after := set m | 0 <= m < n - 1 && stream[m].Timeout?, set m | 0 <= m < n && stream[m].Timeout?;
      assert after == if stream[n - 1].Timeout? then before + {n - 1} else before;
    }
  }

  /** How many timeouts end the wait: as many as there are ids, in 32-bit arithmetic. */
  function Patience(ids: set<string>): (t: nat)
    ensures 1 <= t <= UINT32
  {
    if |ids| % UINT32 == 0 then UINT32 else |ids| % UINT32
  }

  /** That is the number of ids itself, unless there are none or 2^32 of them. */
  lemma PatienceIs(ids: set<string>)
    ensures 1 <= |ids| <= UINT32 ==> Patience(ids) == |ids|
    ensures ids == {} ==> Patience(ids) == UINT32
  {
    if 1 <= |ids| < UINT32 { BelowModulus(|ids|, UINT32); }
  }

  /** The 32-bit counter when t more timeouts will end the wait. */
  function Left(t: nat): nat
    requires t <= UINT32
  {
    if t == UINT32 then 0 else t
  }

  function Decremented(limit: nat): nat
    requires limit < UINT32
  {
    if limit == 0 then UINT32 - 1 else limit - 1
  }

  lemma CountDown(t: nat)
    requires 1 <= t <= UINT32
    ensures Left(t) < UINT32 && Decremented(Left(t)) == Left(t - 1)
    ensures Decremented(Left(t)) == 0 <==> t == 1
  {
  }

  /** Event n - 1 is a message that leaves no id unanswered, in time. */
  predicate CompletesAt(ids: set<string>, patience: nat, stream: seq<Event>, n: nat)
    requires 1 <= n <= |stream|
  {
    stream[n - 1].Message? && ids <= AnsweredBy(stream, n) && Timeouts(stream, n) < patience
  }

  ghost predicate Completes(ids: set<string>, patience: nat, stream: seq<Event>) {
    exists n :: 1 <= n <= |stream| && CompletesAt(ids, patience, stream, n)
  }

  /** The wait is over with the answer to the last id, if fewer than so many timeouts came before
      it, and with that timeout otherwise. */
  ghost predicate Decides(verdict: Verdict, ids: set<string>, patience: nat, stream: seq<Event>) {
    && (verdict == Complete <==> Completes(ids, patience, stream))
    && (verdict == GaveUp <==> !Completes(ids, patience, stream) && Timeouts(stream, |stream|) >= patience)
  }

  ghost predicate NotComplete(ids: set<string>, patience: nat, stream: seq<Event>, from: nat, to: nat)
    requires to <= |stream|
  {
    forall n :: 1 <= n && from <= n <= to ==> !CompletesAt(ids, patience, stream, n)
  }

  /** Event m is the first answer to a requested id. */
  predicate Keeps(ids: set<string>, stream: seq<Event>, m: nat)
    requires m < |stream|
  {
    stream[m].Message? && stream[m].response.id in ids && stream[m].response.id !in AnsweredBy(stream, m)
  }

  /** The responses that are kept: the first message for each id. */
  function Kept(ids: set<string>, stream: seq<Event>, n: nat): seq<Response>
    requires n <= |stream|
  {
    if n == 0 then []
    else if Keeps(ids, stream, n - 1) then Kept(ids, stream, n - 1) + [stream[n - 1].response]
    else Kept(ids, stream, n - 1)
  }

  ghost function Ids(responses: seq<Response>): set<string> {
    set r | r in responses :: r.id
  }

  ghost predicate DistinctIds(responses: seq<Response>) {
    forall i, j :: 0 <= i < j < |responses| ==> responses[i].id != responses[j].id
  }

  lemma IdsGrow(responses: seq<Response>, r: Response)
    ensures Ids(responses + [r]) == Ids(responses) + {r.id}
  {
    assert forall x :: x in responses + [r] <==> x in responses || x == r;
  }

  lemma DistinctGrow(responses: seq<Response>, r: Response)
    requires DistinctIds(responses) && r.id !in Ids(responses)
    ensures DistinctIds(responses + [r])
  {
    assert forall i :: 0 <= i < |responses| ==> responses[i] in responses;
  }

  lemma KeepOne(kept: seq<Response>, r: Response, answered: set<string>)
    requires Ids(kept) == answered && |kept| == |answered| && DistinctIds(kept) && r.id !in answered
    ensures Ids(kept + [r]) == answered + {r.id} && |kept + [r]| == |answered + {r.id}| && DistinctIds(kept + [r])
  {
    IdsGrow(kept, r);
    DistinctGrow(kept, r);
  }

  /** One response for each requested id that was answered, and nothing else. */
  lemma {:induction false} OnePerId(ids: set<string>, stream: seq<Event>, n: nat)
    requires n <= |stream|
    ensures Ids(Kept(ids, stream, n)) == ids * AnsweredBy(stream, n)
    ensures |Kept(ids, stream, n)| == |ids * AnsweredBy(stream, n)|
    ensures DistinctIds(Kept(ids, stream, n))
  {
    if n > 0 {
      OnePerId(ids, stream, n - 1);
      if stream[n - 1].Message? {
        AnswerOne(ids, AnsweredBy(stream, n - 1), stream[n - 1].response.id);
      }
      if Keeps(ids, stream, n - 1) {
        KeepOne(Kept(ids, stream, n - 1), stream[n - 1].response, ids * AnsweredBy(stream, n - 1));
      }
    }
  }

  lemma AnswerOne(ids: set<string>, answered: set<string>, id: string)
    ensures id in ids - answered ==>
              ids * (answered + {id}) == ids * answered + {id} && |ids * (answered + {id})| == |ids * answered| + 1
    ensures id !in ids - answered ==> ids * (answered + {id}) == ids * answered
    ensures ids - (answered + {id}) == ids - answered - {id}
  {
    if id in ids - answered { assert ids * (answered + {id}) == ids * answered + {id}; }
  }

  /** A kept response is the first of the stream with its id. */
  lemma {:induction false} KeptIsFirst(ids: set<string>, stream: seq<Event>, n: nat, i: nat) returns (m: nat)
    requires n <= |stream| && i < |Kept(ids, stream, n)|
    ensures m < n && Keeps(ids, stream, m) && stream[m].response == Kept(ids, stream, n)[i]
  {
    if i < |Kept(ids, stream, n - 1)| {
      m := KeptIsFirst(ids, stream, n - 1, i);
    } else {
      m := n - 1;
    }
  }

  /** They are kept in the order in which they came. */
  lemma {:induction false} KeptInOrder(ids: set<string>, stream: seq<Event>, n: nat, i: nat, j: nat) returns (a: nat, b: nat)
    requires n <= |stream| && i < j < |Kept(ids, stream, n)|
    ensures a < b < n && stream[a] == Message(Kept(ids, stream, n)[i]) && stream[b] == Message(Kept(ids, stream, n)[j])
  {
    if j < |Kept(ids, stream, n - 1)| {
      a, b := KeptInOrder(ids, stream, n - 1, i, j);
    } else {
      a := KeptIsFirst(ids, stream, n - 1, i);
      b := n - 1;
    }
  }

  lemma {:induction false} Monotone(stream: seq<Event>, m: nat, n: nat)
    requires m <= n <= |stream|
    ensures AnsweredBy(stream, m) <= AnsweredBy(stream, n) && Timeouts(stream, m) <= Timeouts(stream, n)
    decreases n - m
  {
    if m < n { Monotone(stream, m, n - 1); }
  }

  /** Nothing is read beyond the event that decides. */
  ghost predicate EndsAt(verdict: Verdict, ids: set<string>, patience: nat, stream: seq<Event>, used: nat) {
    && used <= |stream|
    && (if verdict == Waiting then used == |stream| && Timeouts(stream, used) < patience
        else && 1 <= used && NotComplete(ids, patience, stream, 1, used - 1)
             && (if verdict == Complete then CompletesAt(ids, patience, stream, used)
                 else stream[used - 1].Timeout? && Timeouts(stream, used) == patience))
  }

  // ---------------------------------------------------------------- the loop

  /** Collects responses until every id is answered or the timeouts run out.  `used` is
      the number of events consumed. */
  method Receive(stream: seq<Event>, requestIds: set<string>, responsesIn: seq<Response>)
    returns (verdict: Verdict, open: set<string>, responses: seq<Response>, used: nat)
    ensures 1 <= |requestIds| <= UINT32 ==> Decides(verdict, requestIds, |requestIds|, stream)
    ensures requestIds == {} ==> Decides(verdict, requestIds, UINT32, stream)
    ensures Decides(verdict, requestIds, Patience(requestIds), stream)
    ensures EndsAt(verdict, requestIds, Patience(requestIds), stream, used)
    ensures used <= |stream| && open == requestIds - AnsweredBy(stream, used)
    ensures responses == if verdict == GaveUp then [] else responsesIn + Kept(requestIds, stream, used)
    ensures verdict == Complete ==> open == {}
  {
    PatienceIs(requestIds);
    verdict, open, responses, used :=
      Collect(stream, requestIds, responsesIn, |requestIds| % UINT32, Patience(requestIds));
    if verdict == GaveUp {
      responses := [];
      NoLaterCompletion(requestIds, Patience(requestIds), stream, used);
    }
  }

  /** What the loop's variables hold after a number of events without a verdict. */
  ghost predicate InLoop(ids: set<string>, patience: nat, stream: seq<Event>, used: nat, open: set<string>, limit: nat) {
    && used <= |stream| && open == ids - AnsweredBy(stream, used)
    && Timeouts(stream, used) < patience <= UINT32 && limit == Left(patience - Timeouts(stream, used))
    && NotComplete(ids, patience, stream, 1, used)
  }

  lemma AfterMessage(ids: set<string>, patience: nat, stream: seq<Event>, used: nat, open: set<string>, limit: nat)
    requires InLoop(ids, patience, stream, used, open, limit) && used < |stream| && stream[used].Message?
    ensures var left := open - {stream[used].response.id};
            && left == ids - AnsweredBy(stream, used + 1)
            && (if left == {} then CompletesAt(ids, patience, stream, used + 1)
                else InLoop(ids, patience, stream, used + 1, left, limit))
    ensures Keeps(ids, stream, used) <==> stream[used].response.id in open
    ensures stream[used].response.id !in open ==> open - {stream[used].response.id} == open
  {
    AnswerOne(ids, AnsweredBy(stream, used), stream[used].response.id);
  }

  lemma AfterTimeout(ids: set<string>, patience: nat, stream: seq<Event>, used: nat, open: set<string>, limit: nat)
    requires InLoop(ids, patience, stream, used, open, limit) && used < |stream| && stream[used].Timeout?
    ensures limit < UINT32
    ensures if Decremented(limit) == 0 then Timeouts(stream, used + 1) == patience
            else InLoop(ids, patience, stream, used + 1, open, Decremented(limit))
    ensures open == ids - AnsweredBy(stream, used + 1) && NotComplete(ids, patience, stream, 1, used + 1)
    ensures !Keeps(ids, stream, used)
  {
    CountDown(patience - Timeouts(stream, used));
  }

  /** The loop, with the counter that it decrements. */
  method Collect(stream: seq<Event>, requestIds: set<string>, responsesIn: seq<Response>,
                 timeoutLimit: nat, ghost patience: nat)
    returns (verdict: Verdict, open: set<string>, responses: seq<Response>, used: nat)
    requires 1 <= patience <= UINT32 && timeoutLimit == Left(patience)
    ensures used <= |stream| && open == requestIds - AnsweredBy(stream, used)
    ensures responses == responsesIn + Kept(requestIds, stream, used)
    ensures EndsAt(verdict, requestIds, patience, stream, used)
    ensures if verdict == Complete then open == {} else NotComplete(requestIds, patience, stream, 1, used)
  {
    var limit := timeoutLimit;
    open, responses, used := requestIds, responsesIn, 0;
    while used < |stream|
      invariant InLoop(requestIds, patience, stream, used, open, limit)
      invariant responses == responsesIn + Kept(requestIds, stream, used)
    {
      var event := stream[used];
      if event.Message? {
        AfterMessage(requestIds, patience, stream, used, open, limit);
        if event.response.id in open {
          open := open - {event.response.id};
          responses := responses + [event.response];
        }
        used := used + 1;
        if |open| == 0 { return Complete, open, responses, used; }
      } else {
        AfterTimeout(requestIds, patience, stream, used, open, limit);
        used := used + 1;
        limit := Decremented(limit);
        if limit == 0 { return GaveUp, open, responses, used; }
      }
    }
    verdict := Waiting;
  }

  /** Once the timeouts have run out, no later message counts. */
  lemma NoLaterCompletion(ids: set<string>, patience: nat, stream: seq<Event>, used: nat)
    requires 1 <= used <= |stream| && Timeouts(stream, used) >= patience
    ensures Timeouts(stream, |stream|) >= patience
    ensures NotComplete(ids, patience, stream, used, |stream|)
  {
    forall n | used <= n <= |stream| ensures Timeouts(stream, n) >= patience {
      Monotone(stream, used, n);
    }
  }

  // ---------------------------------------------------------------- one request

  predicate AnswersAt(stream: seq<Event>, id: string, n: nat)
    requires n < |stream|
  {
    stream[n].Message? && stream[n].response.id == id
  }

  /** Neither an answer nor a timeout among the first n events. */
  ghost predicate Quiet(stream: seq<Event>, id: string, n: nat) {
    n <= |stream| && forall m :: 0 <= m < n ==> !AnswersAt(stream, id, m) && !stream[m].Timeout?
  }

  lemma {:induction false} QuietSoFar(stream: seq<Event>, id: string, n: nat)
    requires n <= |stream|
    ensures Quiet(stream, id, n) <==> id !in AnsweredBy(stream, n) && Timeouts(stream, n) == 0
  {
    if n > 0 { QuietSoFar(stream, id, n - 1); }
  }

  /** What decides about one request is the first answer or timeout. */
  lemma FirstDecides(stream: seq<Event>, id: string, n: nat)
    requires n < |stream| && Quiet(stream, id, n)
    ensures AnswersAt(stream, id, n) ==> Completes({id}, 1, stream)
    ensures stream[n].Timeout? ==> !Completes({id}, 1, stream) && Timeouts(stream, |stream|) >= 1
  {
    QuietSoFar(stream, id, n);
    if AnswersAt(stream, id, n) { assert CompletesAt({id}, 1, stream, n + 1); }
    if stream[n].Timeout? {
      NoLaterCompletion({id}, 1, stream, n + 1);
      forall m | 1 <= m <= n ensures !CompletesAt({id}, 1, stream, m) { Monotone(stream, m, n); }
    }
  }

  /** The event at which the wait for one id ends is the first of them. */
  lemma EndsAtFirst(verdict: Verdict, stream: seq<Event>, id: string, used: nat)
    requires EndsAt(verdict, {id}, 1, stream, used) && verdict != Waiting
    ensures Quiet(stream, id, used - 1)
    ensures if verdict == Complete then AnswersAt(stream, id, used - 1) else stream[used - 1].Timeout?
  {
    var n := used - 1;
    QuietSoFar(stream, id, n);
    assert Timeouts(stream, n) == 0;
    if id in AnsweredBy(stream, n) { EarlierAnswer(stream, id, n); }
  }

  lemma EarlierAnswer(stream: seq<Event>, id: string, n: nat)
    requires n <= |stream| && id in AnsweredBy(stream, n) && Timeouts(stream, n) == 0
    ensures exists m :: 1 <= m <= n && CompletesAt({id}, 1, stream, m)
  {
    AnsweredIff(stream, n, id);
    var m :| 0 <= m < n && stream[m].Message? && stream[m].response.id == id;
    Monotone(stream, m + 1, n);
    assert CompletesAt({id}, 1, stream, m + 1);
  }

  lemma SingleAnswer(stream: seq<Event>, id: string, used: nat)
    requires 1 <= used <= |stream| && Quiet(stream, id, used - 1) && AnswersAt(stream, id, used - 1)
    ensures Kept({id}, stream, used) == [stream[used - 1].response]
  {
    QuietSoFar(stream, id, used - 1);
    OnePerId({id}, stream, used - 1);
    assert {id} * AnsweredBy(stream, used - 1) == {};
    assert Kept({id}, stream, used - 1) == [];
  }

  /** One request and its response: it succeeds exactly when an answer comes before the first
      timeout, and gives up exactly when a timeout comes before the first answer; the response is
      the first answer. */
  method MakeRequest(stream: seq<Event>, requestId: string, default: Response)
    returns (verdict: Verdict, response: Response)
    ensures verdict == Complete
       <==> exists n :: 0 <= n < |stream| && Quiet(stream, requestId, n) && AnswersAt(stream, requestId, n)
    ensures verdict == GaveUp
       <==> exists n :: 0 <= n < |stream| && Quiet(stream, requestId, n) && stream[n].Timeout?
    ensures verdict == Complete ==> response.id == requestId
    ensures verdict == Complete ==>
              exists n :: 0 <= n < |stream| && Quiet(stream, requestId, n) && stream[n] == Message(response)
    ensures verdict != Complete ==> response == default
  {
    var open, responses, used;
    verdict, open, responses, used := Receive(stream, {requestId}, []);
    PatienceIs({requestId});
    if verdict != Waiting { EndsAtFirst(verdict, stream, requestId, used); }
    forall n | 0 <= n < |stream| && Quiet(stream, requestId, n) && (AnswersAt(stream, requestId, n) || stream[n].Timeout?)
      ensures verdict == if stream[n].Timeout? then GaveUp else Complete
    {
      FirstDecides(stream, requestId, n);
    }
    if verdict == Complete {
      SingleAnswer(stream, requestId, used);
      response := responses[0];
    } else {
      response := default;
    }
  }
}
