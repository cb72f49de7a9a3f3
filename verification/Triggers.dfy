/**
 * What the triggers of common/include/trigger.hpp share: objects arrive in sessions,
 * sessions are cleared, and each arrival may yield function invocations.
 */
module TriggerEvents {
  type Session = string
  type Key = string
  type Object = (Session, Key)

  datatype Event = Arrive(session: Session, key: Key) | Clear(session: Session)

  datatype Action = Action(target: string, objects: seq<Object>)

  /** The sequence lists the elements of the set, each one once, in some order. */
  ghost predicate EachOnce<T(!new)>(list: seq<T>, elements: set<T>) {
    && (forall x :: x in list <==> x in elements)
    && (forall i, j :: 0 <= i < j < |list| ==> list[i] != list[j])
  }

  /** Iteration over an unordered container. */
  method ListOf<T(==, !new)>(elements: set<T>) returns (list: seq<T>)
    ensures EachOnce(list, elements)
  {
    var rest := elements;
    list := [];
    while rest != {}
      invariant rest <= elements && EachOnce(list, elements - rest)
      decreases rest
    {
      var x :| x in rest;
      list := list + [x];
      rest := rest - {x};
    }
  }

  /** The objects for a list of keys that all carry one session. */
  function InSession(session: Session, keys: seq<Key>): (objects: seq<Object>)
    ensures |objects| == |keys|
    ensures forall i :: 0 <= i < |keys| ==> objects[i] == (session, keys[i])
  {
    seq(|keys|, i requires 0 <= i < |keys| => (session, keys[i]))
  }

  lemma {:induction false} SubsetOfSameSize<T>(a: set<T>, b: set<T>)
    requires a <= b
    ensures |a| == |b| <==> a == b
  {
    if a != b {
      var x :| x in b && x !in a;
      SubsetSmaller(a, b - {x});
    }
  }

  lemma {:induction false} SubsetSmaller<T>(a: set<T>, b: set<T>)
    requires a <= b
    ensures |a| <= |b|
    decreases |a|
  {
    if a != {} {
      var x :| x in a;
      SubsetSmaller(a - {x}, b - {x});
    }
  }
}

/** The trigger that fires for a session when all keys of a set have arrived in it. */
module BySet {
  import opened TriggerEvents

  type State = map<Session, set<Key>>

  function Prepared(st: State, s: Session): set<Key> {
    if s in st then st[s] else {}
  }

  predicate Fires(keySet: set<Key>, st: State, ev: Event) {
    ev.Arrive? && ev.key in keySet && |Prepared(st, ev.session) + {ev.key}| == |keySet|
  }

  function Next(keySet: set<Key>, st: State, ev: Event): State {
    match ev
    case Clear(s) => st - {s}
    case Arrive(s, k) =>
      if k !in keySet then st
      else if Fires(keySet, st, ev) then st - {s}
      else st[s := Prepared(st, s) + {k}]
  }

  /** The state after the first n events of a history. */
  function After(keySet: set<Key>, h: seq<Event>, n: nat): State
    requires n <= |h|
  {
    if n == 0 then map[] else Next(keySet, After(keySet, h, n - 1), h[n - 1])
  }

  predicate FiresAt(keySet: set<Key>, h: seq<Event>, i: nat)
    requires i < |h|
  {
    Fires(keySet, After(keySet, h, i), h[i])
  }

  /** Event i ends a round of session s: it clears the session or fires for it. */
  ghost predicate EndsRound(keySet: set<Key>, h: seq<Event>, i: nat, s: Session)
    requires i < |h|
  {
    h[i].session == s && (h[i].Clear? || FiresAt(keySet, h, i))
  }

  ghost predicate NoEnd(keySet: set<Key>, h: seq<Event>, from: nat, to: nat, s: Session)
    requires to <= |h|
  {
    forall m :: from <= m < to ==> !EndsRound(keySet, h, m, s)
  }

  /** Key q arrived in session s among the first n events, and its round is still open. */
  ghost predicate ArrivedThisRound(keySet: set<Key>, h: seq<Event>, n: nat, s: Session, q: Key)
    requires n <= |h|
  {
    exists j :: 0 <= j < n && h[j] == Arrive(s, q) && NoEnd(keySet, h, j, n, s)
  }

  lemma RoundStep(keySet: set<Key>, h: seq<Event>, n: nat, s: Session, q: Key)
    requires n < |h|
    ensures ArrivedThisRound(keySet, h, n + 1, s, q)
       <==> !EndsRound(keySet, h, n, s) && (h[n] == Arrive(s, q) || ArrivedThisRound(keySet, h, n, s, q))
  {
    if ArrivedThisRound(keySet, h, n + 1, s, q) {
      var j :| 0 <= j < n + 1 && h[j] == Arrive(s, q) && NoEnd(keySet, h, j, n + 1, s);
      assert !EndsRound(keySet, h, n, s);
      assert j < n ==> NoEnd(keySet, h, j, n, s);
    }
    if !EndsRound(keySet, h, n, s) {
      if h[n] == Arrive(s, q) { assert NoEnd(keySet, h, n, n + 1, s); }
      if ArrivedThisRound(keySet, h, n, s, q) {
        var j :| 0 <= j < n && h[j] == Arrive(s, q) && NoEnd(keySet, h, j, n, s);
        assert NoEnd(keySet, h, j, n + 1, s);
      }
    }
  }

  lemma {:induction false} PreparedSubset(keySet: set<Key>, h: seq<Event>, n: nat, s: Session)
    requires n <= |h|
    ensures Prepared(After(keySet, h, n), s) <= keySet
  {
    if n > 0 { PreparedSubset(keySet, h, n - 1, s); PreparedSubset(keySet, h, n - 1, h[n - 1].session); }
  }

  /** The incremental buffer holds exactly the keys of the set seen in the open round. */
  lemma {:induction false} PreparedIsRound(keySet: set<Key>, h: seq<Event>, n: nat, s: Session, q: Key)
    requires n <= |h|
    ensures q in Prepared(After(keySet, h, n), s) <==> q in keySet && ArrivedThisRound(keySet, h, n, s, q)
  {
    if n > 0 {
      PreparedIsRound(keySet, h, n - 1, s, q);
      RoundStep(keySet, h, n - 1, s, q);
    }
  }

  /** An event fires exactly when it completes its session's set in the open round. */
  lemma FiresIff(keySet: set<Key>, h: seq<Event>, i: nat)
    requires i < |h|
    ensures FiresAt(keySet, h, i)
       <==> h[i].Arrive? && h[i].key in keySet
            && forall q :: q in keySet ==> q == h[i].key || ArrivedThisRound(keySet, h, i, h[i].session, q)
  {
    var s, st := h[i].session, After(keySet, h, i);
    PreparedSubset(keySet, h, i, s);
    forall q ensures q in Prepared(st, s) <==> q in keySet && ArrivedThisRound(keySet, h, i, s, q) {
      PreparedIsRound(keySet, h, i, s, q);
    }
    if h[i].Arrive? && h[i].key in keySet {
      SubsetOfSameSize(Prepared(st, s) + {h[i].key}, keySet);
    }
  }

  // ---------------------------------------------------------------- sessions do not interfere

  /** The events of one session among the first n. */
  ghost function Only(h: seq<Event>, n: nat, s: Session): seq<Event>
    requires n <= |h|
  {
    if n == 0 then [] else Only(h, n - 1, s) + (if h[n - 1].session == s then [h[n - 1]] else [])
  }

  /** Which of one session's events fire, in order. */
  ghost function Firings(keySet: set<Key>, h: seq<Event>, n: nat, s: Session): seq<bool>
    requires n <= |h|
  {
    if n == 0 then []
    else Firings(keySet, h, n - 1, s) + (if h[n - 1].session == s then [FiresAt(keySet, h, n - 1)] else [])
  }

  lemma {:induction false} PrefixDecides(keySet: set<Key>, h: seq<Event>, ev: Event, n: nat, s: Session)
    requires n <= |h|
    ensures After(keySet, h + [ev], n) == After(keySet, h, n)
    ensures Firings(keySet, h + [ev], n, s) == Firings(keySet, h, n, s)
  {
    if n > 0 { PrefixDecides(keySet, h, ev, n - 1, s); }
  }

  lemma NextLocal(keySet: set<Key>, a: State, b: State, ev: Event, s: Session)
    requires ev.session == s && Prepared(a, s) == Prepared(b, s)
    ensures Fires(keySet, a, ev) == Fires(keySet, b, ev)
    ensures Prepared(Next(keySet, a, ev), s) == Prepared(Next(keySet, b, ev), s)
  {
  }

  /** A session's firings are those of a run in which no other session exists. */
  lemma {:induction false} SessionsIndependent(keySet: set<Key>, h: seq<Event>, n: nat, s: Session)
    requires n <= |h|
    ensures var p := Only(h, n, s);
            && Prepared(After(keySet, h, n), s) == Prepared(After(keySet, p, |p|), s)
            && Firings(keySet, h, n, s) == Firings(keySet, p, |p|, s)
  {
    if n > 0 {
      SessionsIndependent(keySet, h, n - 1, s);
      var p, ev := Only(h, n - 1, s), h[n - 1];
      if ev.session == s {
        PrefixDecides(keySet, p, ev, |p|, s);
        NextLocal(keySet, After(keySet, h, n - 1), After(keySet, p, |p|), ev, s);
        assert (p + [ev])[|p|] == ev;
        assert Only(h, n, s) == p + [ev];
      } else {
        assert Only(h, n, s) == p;
      }
    }
  }

  /** The answer to an event: nothing, or one action listing every key of the set once. */
  ghost predicate Answers(actions: seq<Action>, target: string, keySet: set<Key>, session: Session, fires: bool) {
    if !fires then actions == []
    else exists keys: seq<Key> :: EachOnce(keys, keySet) && actions == [Action(target, InSession(session, keys))]
  }

  class Trigger {
    const target: string
    const keySet: set<Key>
    var prepared: map<Session, set<Key>>

    constructor (target: string, keySet: set<Key>)
      ensures this.target == target && this.keySet == keySet && prepared == map[]
    {
      this.target, this.keySet, prepared := target, keySet, map[];
    }

    method ActionForNewObject(session: Session, key: Key) returns (actions: seq<Action>)
      modifies this
      ensures prepared == Next(keySet, old(prepared), Arrive(session, key))
      ensures Answers(actions, target, keySet, session, Fires(keySet, old(prepared), Arrive(session, key)))
    {
      actions := [];
      if key in keySet {
        var arrived := Prepared(prepared, session) + {key};
        prepared := prepared[session := arrived];
        if |arrived| == |keySet| {
          var keys := ListOf(keySet);
          actions := [Action(target, InSession(session, keys))];
          prepared := prepared - {session};
        }
      }
    }

    method ClearSession(session: Session)
      modifies this
      ensures prepared == Next(keySet, old(prepared), Clear(session))
    {
      prepared := prepared - {session};
    }

    method Handle(ev: Event) returns (actions: seq<Action>)
      modifies this
      ensures prepared == Next(keySet, old(prepared), ev)
      ensures Answers(actions, target, keySet, ev.session, Fires(keySet, old(prepared), ev))
    {
      actions := [];
      match ev {
        case Arrive(s, k) => actions := ActionForNewObject(s, k);
        case Clear(s) => ClearSession(s);
      }
    }
  }

  ghost predicate AnswersAt(actions: seq<Action>, target: string, keySet: set<Key>, h: seq<Event>, i: nat)
    requires i < |h|
  {
    Answers(actions, target, keySet, h[i].session, FiresAt(keySet, h, i))
  }

  /** Any history on a new trigger: event i is answered as FiresAt says. */
  method Replay(target: string, keySet: set<Key>, h: seq<Event>) returns (answers: seq<seq<Action>>)
    ensures |answers| == |h|
    ensures forall i :: 0 <= i < |h| ==> AnswersAt(answers[i], target, keySet, h, i)
  {
    var t := new Trigger(target, keySet);
    answers := [];
    for n := 0 to |h|
      invariant fresh(t) && t.target == target && t.keySet == keySet && t.prepared == After(keySet, h, n)
      invariant |answers| == n
      invariant forall i :: 0 <= i < n ==> AnswersAt(answers[i], target, keySet, h, i)
    {
      var actions := t.Handle(h[n]);
      assert AnswersAt(actions, target, keySet, h, n);
      answers := answers + [actions];
    }
  }
}
