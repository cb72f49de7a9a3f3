/**
 * The trigger that collects data keys by group and invokes its function once per group
 * when a round's control keys are complete (common/include/trigger.hpp:284-345).
 */
module DynamicGroup {
  import opened TriggerEvents

  const CONTROL := "ctrl"

  /** The part of a key before its first colon, or the whole key. */
  function Group(key: Key): (g: string)
    ensures g <= key && ':' !in g && (g == key || key[|g|] == ':')
  {
    if key == "" || key[0] == ':' then "" else [key[0]] + Group(key[1..])
  }

  /** The keys of each data group, and the control keys of the round. */
  datatype State = State(groups: map<string, set<Key>>, control: set<Key>)

  const EMPTY := State(map[], {})

  function GroupKeys(st: State, g: string): set<Key> {
    if g in st.groups then st.groups[g] else {}
  }

  function Counted(control: set<Key>, st: State, key: Key): set<Key> {
    if key in control then st.control + {key} else st.control
  }

  predicate Fires(control: set<Key>, st: State, ev: Event) {
    ev.Arrive? && Group(ev.key) == CONTROL && |Counted(control, st, ev.key)| == |control|
  }

  function Next(control: set<Key>, st: State, ev: Event): State {
    if ev.Clear? || Fires(control, st, ev) then EMPTY
    else if Group(ev.key) == CONTROL then st.(control := Counted(control, st, ev.key))
    else st.(groups := st.groups[Group(ev.key) := GroupKeys(st, Group(ev.key)) + {ev.key}])
  }

  function After(control: set<Key>, h: seq<Event>, n: nat): State
    requires n <= |h|
  {
    if n == 0 then EMPTY else Next(control, After(control, h, n - 1), h[n - 1])
  }

  predicate FiresAt(control: set<Key>, h: seq<Event>, i: nat)
    requires i < |h|
  {
    Fires(control, After(control, h, i), h[i])
  }

  // ---------------------------------------------------------------- rounds

  /** Event m ends a round: it clears the buffers or fires. */
  ghost predicate EndsRound(control: set<Key>, h: seq<Event>, m: nat)
    requires m < |h|
  {
    h[m].Clear? || FiresAt(control, h, m)
  }

  ghost predicate SameRound(control: set<Key>, h: seq<Event>, from: nat, to: nat)
    requires to <= |h|
  {
    forall m :: from <= m < to ==> !EndsRound(control, h, m)
  }

  /** Key q arrived among the first n events, in the round that is still open. */
  ghost predicate InRound(control: set<Key>, h: seq<Event>, n: nat, q: Key)
    requires n <= |h|
  {
    exists j :: 0 <= j < n && h[j].Arrive? && h[j].key == q && SameRound(control, h, j, n)
  }

  lemma RoundStep(control: set<Key>, h: seq<Event>, n: nat, q: Key)
    requires n < |h|
    ensures InRound(control, h, n + 1, q)
       <==> !EndsRound(control, h, n) && (h[n].key == q || InRound(control, h, n, q))
  {
    if InRound(control, h, n + 1, q) {
      var j :| 0 <= j < n + 1 && h[j].Arrive? && h[j].key == q && SameRound(control, h, j, n + 1);
      assert !EndsRound(control, h, n) && SameRound(control, h, j, n);
    }
    if !EndsRound(control, h, n) {
      if h[n].key == q { assert SameRound(control, h, n, n + 1); }
      if InRound(control, h, n, q) {
        var j :| 0 <= j < n && h[j].Arrive? && h[j].key == q && SameRound(control, h, j, n);
        assert SameRound(control, h, j, n + 1);
      }
    }
  }

  lemma GroupKeysNext(control: set<Key>, st: State, ev: Event, g: string, q: Key)
    ensures q in GroupKeys(Next(control, st, ev), g)
       <==> && !ev.Clear? && !Fires(control, st, ev)
            && (q in GroupKeys(st, g) || (g == Group(q) != CONTROL && ev.key == q))
  {
  }

  /** The data buffer holds exactly the data keys of the open round, under their prefix. */
  lemma {:induction false} GroupsAreRound(control: set<Key>, h: seq<Event>, n: nat, g: string, q: Key)
    requires n <= |h|
    ensures q in GroupKeys(After(control, h, n), g) <==> g == Group(q) != CONTROL && InRound(control, h, n, q)
  {
    if n > 0 {
      GroupsAreRound(control, h, n - 1, g, q);
      GroupKeysNext(control, After(control, h, n - 1), h[n - 1], g, q);
      RoundStep(control, h, n - 1, q);
    }
  }

  /** The control buffer holds exactly the keys of the control group seen in the open round. */
  lemma {:induction false} ControlIsRound(control: set<Key>, h: seq<Event>, n: nat, q: Key)
    requires n <= |h|
    ensures q in After(control, h, n).control
       <==> q in control && Group(q) == CONTROL && InRound(control, h, n, q)
  {
    if n > 0 {
      ControlIsRound(control, h, n - 1, q);
      RoundStep(control, h, n - 1, q);
    }
  }

  lemma {:induction false} GroupsNonEmpty(control: set<Key>, h: seq<Event>, n: nat, g: string)
    requires n <= |h|
    ensures After(control, h, n).control <= control
    ensures g in After(control, h, n).groups ==> After(control, h, n).groups[g] != {}
  {
    if n > 0 { GroupsNonEmpty(control, h, n - 1, g); }
  }

  /** An event fires exactly when it is a control key and the round's control keys,
      counting it, are the whole control group. */
  lemma FiresIff(control: set<Key>, h: seq<Event>, i: nat)
    requires i < |h|
    ensures FiresAt(control, h, i)
       <==> h[i].Arrive? && Group(h[i].key) == "ctrl"
            && forall q :: q in control ==> q == h[i].key || (Group(q) == CONTROL && InRound(control, h, i, q))
  {
    var st := After(control, h, i);
    GroupsNonEmpty(control, h, i, "");
    forall q ensures q in st.control <==> q in control && Group(q) == CONTROL && InRound(control, h, i, q) {
      ControlIsRound(control, h, i, q);
    }
    if h[i].Arrive? {
      SubsetOfSameSize(Counted(control, st, h[i].key), control);
    }
  }

  /** With a control group to wait for, only one of its own keys can complete it; with
      none, every key of the control prefix fires. */
  lemma {:induction false} OnlyControlKeysFire(control: set<Key>, h: seq<Event>, i: nat)
    requires i < |h| && FiresAt(control, h, i)
    ensures control == {} || h[i].key in control
  {
    if control != {} && h[i].key !in control {
      Incomplete(control, h, i);
      assert false;
    }
  }

  lemma {:induction false} Incomplete(control: set<Key>, h: seq<Event>, n: nat)
    requires n <= |h| && control != {}
    ensures |After(control, h, n).control| < |control|
  {
    if n == 0 {
      SubsetOfSameSize({}, control);
    } else {
      Incomplete(control, h, n - 1);
      GroupsNonEmpty(control, h, n, "");
      SubsetSmaller(After(control, h, n).control, control);
      SubsetOfSameSize({}, control);
    }
  }

  // ---------------------------------------------------------------- the actions of a round

  /** One action per data group, naming each of the group's keys once. */
  ghost predicate OnePerGroup(actions: seq<Action>, target: string, session: Session,
                              groups: map<string, set<Key>>, names: seq<string>) {
    && EachOnce(names, groups.Keys) && |actions| == |names|
    && forall i :: 0 <= i < |names| ==> names[i] in groups && Lists(actions[i], target, session, groups[names[i]])
  }

  ghost predicate Lists(action: Action, target: string, session: Session, keys: set<Key>) {
    exists list: seq<Key> :: EachOnce(list, keys) && action == Action(target, InSession(session, list))
  }

  ghost predicate Answers(actions: seq<Action>, target: string, session: Session, st: State, fires: bool) {
    if !fires then actions == []
    else exists names: seq<string> :: OnePerGroup(actions, target, session, st.groups, names)
  }

  /** The action for one group of the round that event i ends: it lists exactly the round's
      keys with that prefix, each one once and with the firing event's session. */
  ghost predicate DeliversGroup(control: set<Key>, h: seq<Event>, i: nat, action: Action, target: string, g: string)
    requires i < |h|
  {
    && action.target == target && action.objects != [] && g != CONTROL
    && (forall o :: o in action.objects <==>
          o.0 == h[i].session && Group(o.1) == g && InRound(control, h, i, o.1))
    && (forall x, y :: 0 <= x < y < |action.objects| ==> action.objects[x] != action.objects[y])
  }

  /** The actions for the round: one for each prefix of a data key, and no others. */
  ghost predicate DeliversRound(control: set<Key>, h: seq<Event>, i: nat, actions: seq<Action>, target: string,
                                names: seq<string>)
    requires i < |h|
  {
    && |actions| == |names|
    && (forall a, b :: 0 <= a < b < |names| ==> names[a] != names[b])
    && (forall a :: 0 <= a < |names| ==> DeliversGroup(control, h, i, actions[a], target, names[a]))
    && (forall q :: Group(q) != CONTROL && InRound(control, h, i, q) ==> Group(q) in names)
  }

  lemma ListedObjects(action: Action, target: string, session: Session, keys: set<Key>)
    requires Lists(action, target, session, keys)
    ensures action.target == target && (keys != {} ==> action.objects != [])
    ensures forall o :: o in action.objects <==> o.0 == session && o.1 in keys
    ensures forall x, y :: 0 <= x < y < |action.objects| ==> action.objects[x] != action.objects[y]
  {
    var list :| EachOnce(list, keys) && action == Action(target, InSession(session, list));
    forall o: Object | o.0 == session && o.1 in keys ensures o in action.objects {
      var i :| 0 <= i < |list| && list[i] == o.1;
      assert action.objects[i] == o;
    }
    if keys != {} {
      var q :| q in keys;
      assert (session, q) in action.objects;
    }
  }

  lemma GroupDelivered(control: set<Key>, h: seq<Event>, i: nat, action: Action, target: string, g: string)
    requires i < |h| && g in After(control, h, i).groups
    requires Lists(action, target, h[i].session, After(control, h, i).groups[g])
    ensures DeliversGroup(control, h, i, action, target, g)
  {
    var keys := After(control, h, i).groups[g];
    ListedObjects(action, target, h[i].session, keys);
    GroupsNonEmpty(control, h, i, g);
    forall q ensures q in keys <==> g == Group(q) != CONTROL && InRound(control, h, i, q) {
      GroupsAreRound(control, h, i, g, q);
    }
    var q :| q in keys;
  }

  /** When event i fires, there is one action for each prefix of a data key of the round; it
      lists exactly the keys with that prefix, each once, and nothing of an earlier round. */
  lemma RoundDelivered(control: set<Key>, h: seq<Event>, i: nat, actions: seq<Action>, target: string)
    returns (names: seq<string>)
    requires i < |h| && FiresAt(control, h, i)
    requires Answers(actions, target, h[i].session, After(control, h, i), true)
    ensures DeliversRound(control, h, i, actions, target, names)
  {
    var st := After(control, h, i);
    names :| OnePerGroup(actions, target, h[i].session, st.groups, names);
    forall a | 0 <= a < |names| ensures DeliversGroup(control, h, i, actions[a], target, names[a]) {
      GroupDelivered(control, h, i, actions[a], target, names[a]);
    }
    forall q | Group(q) != CONTROL && InRound(control, h, i, q) ensures Group(q) in names {
      GroupsAreRound(control, h, i, Group(q), q);
    }
  }

  /** So a key of the round occurs in exactly one action, the one for its prefix. */
  lemma OneActionPerKey(control: set<Key>, h: seq<Event>, i: nat, actions: seq<Action>, target: string,
                        names: seq<string>, q: Key) returns (a: nat)
    requires i < |h| && DeliversRound(control, h, i, actions, target, names)
    requires Group(q) != CONTROL && InRound(control, h, i, q)
    ensures a < |actions| && names[a] == Group(q)
    ensures forall b :: 0 <= b < |actions| ==> ((h[i].session, q) in actions[b].objects <==> b == a)
  {
    a :| 0 <= a < |names| && names[a] == Group(q);
    forall b | 0 <= b < |actions| ensures (h[i].session, q) in actions[b].objects <==> b == a {
      assert DeliversGroup(control, h, i, actions[b], target, names[b]);
    }
  }

  class Trigger {
    const target: string
    const control: set<Key>
    var groups: map<string, set<Key>>
    var current: set<Key>

    ghost function View(): State
      reads this
    {
      State(groups, current)
    }

    constructor (target: string, control: set<Key>)
      ensures this.target == target && this.control == control && View() == EMPTY
    {
      this.target, this.control, groups, current := target, control, map[], {};
    }

    method ActionForNewObject(session: Session, key: Key) returns (actions: seq<Action>)
      modifies this
      ensures View() == Next(control, old(View()), Arrive(session, key))
      ensures Answers(actions, target, session, old(View()), Fires(control, old(View()), Arrive(session, key)))
    {
      actions := [];
      var group := Group(key);
      if group == CONTROL {
        if key in control { current := current + {key}; }
        if |current| == |control| {
          actions := ActionPerGroup(session);
          groups, current := map[], {};
        }
      } else {
        groups := groups[group := (if group in groups then groups[group] else {}) + {key}];
      }
    }

    method ActionPerGroup(session: Session) returns (actions: seq<Action>)
      ensures exists names: seq<string> :: OnePerGroup(actions, target, session, groups, names)
    {
      var order := ListOf(groups.Keys);
      actions := [];
      for i := 0 to |order|
        invariant |actions| == i
        invariant forall j :: 0 <= j < i ==> Lists(actions[j], target, session, groups[order[j]])
      {
        var keys := ListOf(groups[order[i]]);
        actions := actions + [Action(target, InSession(session, keys))];
      }
      assert OnePerGroup(actions, target, session, groups, order);
    }

    method ClearAll(session: Session)
      modifies this
      ensures View() == Next(control, old(View()), Clear(session))
    {
      groups, current := map[], {};
    }

    method Handle(ev: Event) returns (actions: seq<Action>)
      modifies this
      ensures View() == Next(control, old(View()), ev)
      ensures Answers(actions, target, ev.session, old(View()), Fires(control, old(View()), ev))
    {
      actions := [];
      match ev {
        case Arrive(s, k) => actions := ActionForNewObject(s, k);
        case Clear(s) => ClearAll(s);
      }
    }
  }

  ghost predicate AnswersAt(actions: seq<Action>, target: string, control: set<Key>, h: seq<Event>, i: nat)
    requires i < |h|
  {
    Answers(actions, target, h[i].session, After(control, h, i), FiresAt(control, h, i))
  }

  /** Any history on a new trigger: event i is answered as FiresAt says. */
  method Replay(target: string, control: set<Key>, h: seq<Event>) returns (answers: seq<seq<Action>>)
    ensures |answers| == |h|
    ensures forall i :: 0 <= i < |h| ==> AnswersAt(answers[i], target, control, h, i)
  {
    var t := new Trigger(target, control);
    answers := [];
    for n := 0 to |h|
      invariant fresh(t) && t.target == target && t.control == control && t.View() == After(control, h, n)
      invariant |answers| == n
      invariant forall i :: 0 <= i < n ==> AnswersAt(answers[i], target, control, h, i)
    {
      var actions := t.Handle(h[n]);
      assert AnswersAt(actions, target, control, h, n);
      answers := answers + [actions];
    }
  }
}
