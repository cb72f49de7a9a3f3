/** Iteration over the hash table with `dictNext`, and runs of the table as a whole. */
module DictIterator {
  import opened Basics
  import opened TableSizes
  import opened DictChains
  import opened HashTable

  /** Conversion of an `unsigned long` to `int`. */
  function Signed(size: nat): int { ToInt32(size % UINT32) }

  /** From 2^31 slots on, the size is not positive as an `int`. */
  lemma SignedSize(size: nat)
    requires SizeOk(size)
    ensures if size < INT_RANGE then Signed(size) == size else Signed(size) <= 0
  {
    LargePowers();
    if size < UINT32 {
      BelowModulus(size, UINT32);
    } else {
      PowerDivides(size, UINT32);
    }
  }

  /** `next` is entry `a` of chain `i`, and it and all that follows is to come. */
  ghost predicate StandsAt<K, V>(cs: seq<Chain<K, V>>, i: int, a: nat, next: Entry?<K, V>, todo: Chain<K, V>) {
    0 <= i < |cs| && a <= |cs[i]| && next == At(cs[i], a) && todo == cs[i][a..] + Rest(cs, i + 1)
  }

  ghost predicate StandsIn<K, V>(cs: seq<Chain<K, V>>, i: int, next: Entry?<K, V>, todo: Chain<K, V>) {
    exists a: nat :: StandsAt(cs, i, a, next, todo)
  }

  /** One call of `dictNext`: the first of what was to come, and the rest; or null. */
  ghost predicate Advanced<K, V>(before: Chain<K, V>, e: Entry?<K, V>, after: Chain<K, V>) {
    if before == [] then e == null && after == [] else e == before[0] && after == before[1..]
  }

  lemma EnterChain<K, V>(cs: seq<Chain<K, V>>, i: nat, todo: Chain<K, V>)
    requires i < |cs| && todo == Rest(cs, i)
    ensures StandsIn(cs, i, At(cs[i], 0), todo)
  {
    RestStep(cs, i);
    assert cs[i][0..] == cs[i];
    assert StandsAt(cs, i, 0, At(cs[i], 0), todo);
  }

  lemma TakeOne<K, V>(cs: seq<Chain<K, V>>, i: nat, a: nat, next: Entry<K, V>, todo: Chain<K, V>)
    requires StandsAt(cs, i, a, next, todo)
    ensures a < |cs[i]| && todo != [] && Advanced(todo, next, todo[1..]) && StandsIn(cs, i, At(cs[i], a + 1), todo[1..])
  {
    assert todo[1..] == cs[i][a + 1..] + Rest(cs, i + 1);
    assert StandsAt(cs, i, a + 1, At(cs[i], a + 1), todo[1..]);
  }

  lemma LeaveChain<K, V>(cs: seq<Chain<K, V>>, i: nat, todo: Chain<K, V>)
    requires StandsIn(cs, i, null, todo)
    ensures todo == Rest(cs, i + 1)
  {
    var a: nat :| StandsAt(cs, i, a, null, todo);
    assert cs[i][a..] == [];
  }

  /** Removing a key that is not still to come moves the iterator's place but not what is to come. */
  lemma StandsAfterRemoval<K, V>(cs: seq<Chain<K, V>>, cs': seq<Chain<K, V>>, i: int, next: Entry?<K, V>, todo: Chain<K, V>, k: K)
    requires StandsIn(cs, i, next, todo) && NoKey(todo, k)
    requires |cs'| == |cs| && (forall j :: 0 <= j < |cs| ==> cs'[j] == Without(cs[j], k))
    ensures StandsIn(cs', i, next, todo)
  {
    var a: nat :| StandsAt(cs, i, a, next, todo);
    NoKeySplit(cs[i][a..], Rest(cs, i + 1), k);
    RestWithout(cs, cs', i + 1, k);
    SuffixKept(cs[i], a, k);
    StandsElsewhere(cs, cs', i, a, |Without(cs[i][..a], k)|, next, todo);
  }

  lemma StandsElsewhere<K, V>(cs: seq<Chain<K, V>>, cs': seq<Chain<K, V>>, i: nat, a: nat, a': nat,
                              next: Entry?<K, V>, todo: Chain<K, V>)
    requires StandsAt(cs, i, a, next, todo) && i < |cs'| && a' <= |cs'[i]|
    requires cs'[i][a'..] == cs[i][a..] && At(cs'[i], a') == At(cs[i], a) && Rest(cs', i + 1) == Rest(cs, i + 1)
    ensures StandsIn(cs', i, next, todo)
  {
    assert StandsAt(cs', i, a', next, todo);
  }

  lemma SuffixKept<K, V>(c: Chain<K, V>, a: nat, k: K)
    requires a <= |c| && NoKey(c[a..], k)
    ensures var c', a' := Without(c, k), |Without(c[..a], k)|;
            a' <= |c'| && c'[a'..] == c[a..] && At(c', a') == At(c, a)
  {
    assert c == c[..a] + c[a..];
    WithoutTail(c[..a], c[a..], k);
    assert a < |c| ==> c[a] == c[a..][0];
  }

  /** What an iterator's fields say about the entries still to come. */
  ghost predicate Tracking<K, V>(cs: seq<Chain<K, V>>, index: int, entry: Entry?<K, V>, next: Entry?<K, V>, todo: Chain<K, V>) {
    && -1 <= index && (|cs| >= INT_RANGE ==> entry == null)
    && if entry == null then todo == Rest(cs, index + 1) else StandsIn(cs, index, next, todo)
  }

  lemma TrackingAfterRemoval<K, V>(cs: seq<Chain<K, V>>, cs': seq<Chain<K, V>>, index: int, entry: Entry?<K, V>,
                                   next: Entry?<K, V>, todo: Chain<K, V>, k: K)
    requires Tracking(cs, index, entry, next, todo) && NoKey(todo, k)
    requires |cs'| == |cs| && (forall j :: 0 <= j < |cs| ==> cs'[j] == Without(cs[j], k))
    ensures Tracking(cs', index, entry, next, todo)
  {
    if entry != null {
      StandsAfterRemoval(cs, cs', index, next, todo, k);
    } else if index + 1 <= |cs| {
      RestWithout(cs, cs', index + 1, k);
    }
  }

  /** What a search from the entries `before` has found: the first of them, or the end. */
  ghost predicate Reached<K, V>(cs: seq<Chain<K, V>>, i: int, e: Entry?<K, V>, rest: Chain<K, V>, before: Chain<K, V>) {
    && -1 <= i
    && if e != null then |cs| < INT_RANGE && rest == before && StandsIn(cs, i, e, rest)
       else rest == Rest(cs, i + 1) && (|cs| < INT_RANGE ==> rest == before == [])
  }

  class Iterator<K(==, !new), V> {
    const ht: Dict<K, V>
    var index: int
    var entry: Entry?<K, V>
    var nextEntry: Entry?<K, V>
    ghost var todo: Chain<K, V>   // the entries still to be returned, in order

    ghost predicate Tracks()
      reads this, ht
    {
      Tracking(ht.chains, index, entry, nextEntry, todo)
    }

    constructor (ht: Dict<K, V>)
      ensures this.ht == ht && Tracks() && entry == null && index == -1 && todo == Flat(ht.chains)
    {
      this.ht := ht;
      index, entry, nextEntry := -1, null, null;
      todo := Flat(ht.chains);
      new;
      assert ht.chains[0..] == ht.chains;
    }

    /** The next entry, or null when all have been returned. A table of 2^31 slots or more, whose
        size is not positive as an `int`, looks empty to the iterator. */
    method Next() returns (e: Entry?<K, V>)
      requires ht.Shape() && Tracks()
      modifies this
      ensures Tracks() && e == entry && ht.Valid() == old(ht.Valid())
      ensures ht.size >= INT_RANGE ==> e == null
      ensures ht.size < INT_RANGE ==> Advanced(old(todo), e, todo)
    {
      var i;
      ghost var rest;
      i, e, rest := Search();
      if e != null {
        TakeNext(i, e, rest);
        Settle(i, e, e.next, rest[1..]);
      } else {
        Settle(i, null, nextEntry, rest);
      }
    }

    /** The entry that the iterator stands on is the next one, and its successor comes after. */
    lemma TakeNext(i: nat, e: Entry<K, V>, rest: Chain<K, V>)
      requires ht.Shape() && StandsIn(ht.chains, i, e, rest)
      ensures e in ht.entries && rest != [] && Advanced(rest, e, rest[1..]) && StandsIn(ht.chains, i, e.next, rest[1..])
    {
      var a: nat :| StandsAt(ht.chains, i, a, e, rest);
      TakeOne(ht.chains, i, a, e, rest);
      ht.Links(i, a);
    }

    lemma EnterBucket(i: nat, rest: Chain<K, V>)
      requires ht.Shape() && i < |ht.chains| && rest == Rest(ht.chains, i)
      ensures StandsIn(ht.chains, i, ht.table[i], rest)
    {
      EnterChain(ht.chains, i, rest);
      assert Linked(ht.table[i], ht.chains[i]);
    }

    /** The search through the buckets: the head of the next chain that is not empty. */
    method NextBucket(start: int, ghost before: Chain<K, V>) returns (i: int, e: Entry?<K, V>, ghost rest: Chain<K, V>)
      requires ht.Shape() && -1 <= start && before == Rest(ht.chains, start + 1)
      ensures Reached(ht.chains, i, e, rest, before) && ht.Valid() == old(ht.Valid())
    {
      SignedSize(ht.size);
      i, e, rest := start, null, before;
      while e == null
        invariant start <= i && rest == before
        invariant e == null ==> rest == Rest(ht.chains, i + 1)
        invariant e != null ==> ht.size < INT_RANGE && StandsIn(ht.chains, i, e, rest)
        decreases e == null, ht.size - i
      {
        i := i + 1;
        if i >= Signed(ht.size) {
          rest := Rest(ht.chains, i + 1);
          break;
        }
        e := ht.table[i];
        EnterBucket(i, rest);
        if e == null { LeaveChain(ht.chains, i, rest); }
      }
    }

    /** The place in the current chain: the successor, or the end of the chain. */
    lemma InChain()
      requires Tracks() && entry != null
      ensures nextEntry != null ==> Reached(ht.chains, index, nextEntry, todo, todo)
      ensures nextEntry == null ==> todo == Rest(ht.chains, index + 1)
    {
      if nextEntry == null { LeaveChain(ht.chains, index, todo); }
    }

    /** The search of `dictNext`: through the current chain, then through the buckets. */
    method Search() returns (i: int, e: Entry?<K, V>, ghost rest: Chain<K, V>)
      requires ht.Shape() && Tracks()
      ensures Reached(ht.chains, i, e, rest, todo) && ht.Valid() == old(ht.Valid())
    {
      i, e, rest := index, null, todo;
      if entry != null {
        InChain();
        e := nextEntry;
      }
      if e == null { i, e, rest := NextBucket(i, rest); }
    }

    /** Deleting an entry that is not still to come, such as the one just returned, does not
        disturb the iteration. */
    method DeleteVisited(k: K) returns (ok: bool)
      requires ht.Valid() && Tracks() && NoKey(todo, k)
      modifies ht, ht.table, ht.entries`next
      ensures ht.Valid() && Tracks() && todo == old(todo)
      ensures ht.model == old(ht.model) - {k}
      ensures ht.size == old(ht.size) && ht.table == old(ht.table) && ht.entries == old(ht.entries)
    {
      ghost var before := ht.chains;
      ok := ht.Delete(k);
      TrackingAfterRemoval(before, ht.chains, index, entry, nextEntry, todo, k);
    }

    method Settle(i: int, en: Entry?<K, V>, next: Entry?<K, V>, ghost rest: Chain<K, V>)
      requires Tracking(ht.chains, i, en, next, rest)
      modifies this
      ensures Tracks() && entry == en && todo == rest && ht.Valid() == old(ht.Valid())
    {
      index, entry, nextEntry, todo := i, en, next, rest;
    }
  }

  function KeysOf<K, V>(c: Chain<K, V>): (ks: seq<K>)
    ensures |ks| == |c| && forall x :: 0 <= x < |c| ==> ks[x] == c[x].key
  {
    if c == [] then [] else [c[0].key] + KeysOf(c[1..])
  }

  ghost predicate NoRepeats<K>(ks: seq<K>) { forall x, y :: 0 <= x < y < |ks| ==> ks[x] != ks[y] }

  /** The map without those of the visited keys that are doomed. */
  ghost function Survivors<K, V>(m: map<K, V>, visited: seq<K>, doomed: K -> bool): map<K, V> {
    map k | k in m && !(k in visited && doomed(k)) :: m[k]
  }

  lemma SurvivorsStep<K, V>(m: map<K, V>, visited: seq<K>, doomed: K -> bool, k: K)
    ensures Survivors(m, visited + [k], doomed) ==
            if doomed(k) then Survivors(m, visited, doomed) - {k} else Survivors(m, visited, doomed)
  {
  }

  lemma SurvivorsStart<K, V>(m: map<K, V>, doomed: K -> bool)
    ensures Survivors(m, [], doomed) == m
  {
  }

  lemma AllKeys<K, V>(m: map<K, V>, all: Chain<K, V>)
    requires (forall x :: 0 <= x < |all| ==> all[x].key in m) && (forall k :: k in m ==> HasKey(all, k))
    ensures forall k :: k in KeysOf(all) <==> k in m
  {
    forall k | k in m ensures k in KeysOf(all) {
      var x :| 0 <= x < |all| && all[x].key == k;
      assert KeysOf(all)[x] == k;
    }
  }

  /** All keys visited: the survivors are those not doomed. */
  lemma SurvivorsEnd<K, V>(m: map<K, V>, visited: seq<K>, doomed: K -> bool)
    requires forall k :: k in visited <==> k in m
    ensures Survivors(m, visited, doomed) == map k | k in m && !doomed(k) :: m[k]
  {
  }

  /** `seen` are the keys of the entries before `e`, and `todo` comes after it. */
  ghost predicate Visiting<K, V>(all: Chain<K, V>, seen: seq<K>, e: Entry?<K, V>, todo: Chain<K, V>) {
    && NoKeyTwice(all) && |seen| <= |all| && seen == KeysOf(all[..|seen|])
    && if e == null then |seen| == |all| else |seen| < |all| && e == all[|seen|] && todo == all[|seen| + 1..]
  }

  lemma VisitingStarts<K, V>(all: Chain<K, V>, e: Entry?<K, V>, todo: Chain<K, V>)
    requires NoKeyTwice(all) && Advanced(all, e, todo)
    ensures Visiting(all, [], e, todo)
  {
    assert all[..0] == [];
  }

  lemma VisitingSkips<K, V>(all: Chain<K, V>, seen: seq<K>, e: Entry<K, V>, todo: Chain<K, V>)
    requires Visiting(all, seen, e, todo)
    ensures NoKey(todo, e.key)
  {
  }

  lemma VisitingStep<K, V>(all: Chain<K, V>, seen: seq<K>, e: Entry<K, V>, todo: Chain<K, V>, e': Entry?<K, V>, todo': Chain<K, V>)
    requires Visiting(all, seen, e, todo)
    requires Advanced(todo, e', todo')
    ensures |seen| < |all| && Visiting(all, seen + [e.key], e', todo')
  {
    var n := |seen|;
    assert KeysOf(all[..n + 1]) == KeysOf(all[..n]) + [all[n].key];
  }

  lemma VisitingEnds<K, V>(all: Chain<K, V>, seen: seq<K>, todo: Chain<K, V>)
    requires Visiting(all, seen, null, todo)
    ensures seen == KeysOf(all) && NoRepeats(seen)
  {
    assert all[..|all|] == all;
  }

  /** Where a sweep stands: over a table of fewer than 2^31 slots it visits entry by entry; a
      larger one looks empty. */
  ghost predicate Sweeping<K, V>(size: nat, m: map<K, V>, now: map<K, V>, all: Chain<K, V>, seen: seq<K>,
                                 e: Entry?<K, V>, todo: Chain<K, V>, doomed: K -> bool) {
    && now == Survivors(m, seen, doomed)
    && (size < INT_RANGE ==> Visiting(all, seen, e, todo))
    && (size >= INT_RANGE ==> e == null && seen == [])
  }

  lemma SweepStarts<K, V>(size: nat, m: map<K, V>, all: Chain<K, V>, e: Entry?<K, V>, todo: Chain<K, V>, doomed: K -> bool)
    requires NoKeyTwice(all)
    requires if size < INT_RANGE then Advanced(all, e, todo) else e == null
    ensures Sweeping(size, m, m, all, [], e, todo, doomed)
  {
    SurvivorsStart(m, doomed);
    if size < INT_RANGE { VisitingStarts(all, e, todo); }
  }

  lemma SweepStep<K, V>(size: nat, m: map<K, V>, now: map<K, V>, all: Chain<K, V>, seen: seq<K>,
                        e: Entry<K, V>, todo: Chain<K, V>, e': Entry?<K, V>, todo': Chain<K, V>, doomed: K -> bool)
    requires Sweeping(size, m, now, all, seen, e, todo, doomed) && Advanced(todo, e', todo')
    ensures |seen| < |all|
    ensures Sweeping(size, m, if doomed(e.key) then now - {e.key} else now, all, seen + [e.key], e', todo', doomed)
  {
    SurvivorsStep(m, seen, doomed, e.key);
    VisitingStep(all, seen, e, todo, e', todo');
  }

  lemma SweepEnds<K, V>(size: nat, m: map<K, V>, now: map<K, V>, all: Chain<K, V>, seen: seq<K>,
                        todo: Chain<K, V>, doomed: K -> bool)
    requires Sweeping(size, m, now, all, seen, null, todo, doomed)
    requires (forall x :: 0 <= x < |all| ==> all[x].key in m) && (forall k :: k in m ==> HasKey(all, k))
    ensures size < INT_RANGE ==> seen == KeysOf(all)
    ensures size < INT_RANGE ==>
              NoRepeats(seen) && (forall k :: k in seen <==> k in m) && now == map k | k in m && !doomed(k) :: m[k]
    ensures size >= INT_RANGE ==> seen == [] && now == m
  {
    if size < INT_RANGE {
      VisitingEnds(all, seen, todo);
      AllKeys(m, all);
      SurvivorsEnd(m, seen, doomed);
    } else {
      SurvivorsStart(m, doomed);
    }
  }

  /** Visit every entry, deleting the doomed ones just after they are returned: each key present
      at the start is visited once, nothing else is, and exactly the doomed ones are gone. */
  method Sweep<K(==, !new), V>(d: Dict<K, V>, doomed: K -> bool) returns (seen: seq<K>)
    requires d.Valid()
    modifies d, d.table, d.entries`next
    ensures d.Valid() && d.size == old(d.size)
    ensures old(d.size) < INT_RANGE ==> seen == KeysOf(Flat(old(d.chains)))
    ensures old(d.size) < INT_RANGE ==> NoRepeats(seen) && (forall k :: k in seen <==> k in old(d.model))
    ensures old(d.size) < INT_RANGE ==> d.model == map k | k in old(d.model) && !doomed(k) :: old(d.model)[k]
    ensures old(d.size) >= INT_RANGE ==> seen == [] && d.model == old(d.model)
  {
    seen := [];
    var it := new Iterator(d);
    ghost var all, m := Flat(d.chains), d.model;
    d.EntriesAreModel();
    var e := it.Next();
    SweepStarts(d.size, m, all, e, it.todo, doomed);
    while e != null
      invariant d.Valid() && it.ht == d && it.Tracks() && d.size == old(d.size)
      invariant d.table == old(d.table) && d.entries == old(d.entries)
      invariant Sweeping(d.size, m, d.model, all, seen, e, it.todo, doomed)
      decreases |all| - |seen|
    {
      ghost var todo, now := it.todo, d.model;
      VisitingSkips(all, seen, e, todo);
      var k := e.key;
      if doomed(k) {
        var ok := it.DeleteVisited(k);
      }
      var e' := it.Next();
      SweepStep(d.size, m, now, all, seen, e, todo, e', it.todo, doomed);
      seen, e := seen + [k], e';
    }
    SweepEnds(d.size, m, d.model, all, seen, it.todo, doomed);
  }

  /** An empty table of the given size. */
  method Sized<K(==, !new), V>(hash: K -> uint32, sz: nat) returns (d: Dict<K, V>)
    requires SizeOk(sz) && sz > 0
    ensures d.Valid() && d.hash == hash && d.size == sz && d.model == map[] && d.used == 0
    ensures fresh(d) && fresh(d.table) && fresh(d.entries)
  {
    d := new Dict<K, V>(hash);
    assert PowerOfTwo(sz);
    var ok := d.Expand(sz);
  }

  /** The same with at most one key. */
  method Prepared<K(==, !new), V>(hash: K -> uint32, sz: nat, k: K, v: V) returns (d: Dict<K, V>, added: bool)
    requires SizeOk(sz) && sz > 0
    requires Bucket(hash, k, sz) < INT_RANGE || Bucket(hash, k, sz) == UINT32 - 1
    ensures d.Valid() && d.size == sz && fresh(d) && fresh(d.table) && fresh(d.entries)
    ensures added == (Bucket(hash, k, sz) < INT_RANGE) && d.model == if added then map[k := v] else map[]
  {
    d := Sized(hash, sz);
    assert Grown(sz, 0) == sz;
    added := d.Add(k, v);
  }

  /** A key can be in the table and not be seen: a table of 2^31 slots with one entry. */
  method UnseenEntry<K(==, !new), V>(hash: K -> uint32, k: K, v: V) returns (d: Dict<K, V>, seen: seq<K>)
    requires hash(k) == 0
    ensures d.Valid() && k in d.model && seen == []
  {
    LargePowers();
    BelowModulus(0, INT_RANGE);
    assert Bucket(hash, k, INT_RANGE) == 0;
    var added;
    d, added := Prepared(hash, INT_RANGE, k, v);
    seen := Sweep(d, x => false);
  }

  /** A new key can be refused by a table with room: 2^32 slots, none of them used. */
  method RefusedEntry<K(==, !new), V>(hash: K -> uint32, k: K, v: V) returns (d: Dict<K, V>, added: bool)
    requires hash(k) == UINT32 - 1
    ensures d.Valid() && !added && d.model == map[] && d.used < d.size
  {
    LargePowers();
    BelowModulus(UINT32 - 1, UINT32);
    assert Bucket(hash, k, UINT32) == UINT32 - 1;
    d, added := Prepared(hash, UINT32, k, v);
  }

  // ---------------------------------------------------------------- whole runs

  datatype Op<K, V> = OpAdd(k: K, v: V) | OpReplace(k: K, v: V) | OpDelete(k: K) | OpFind(k: K)

  datatype Reply<V> = Flag(b: bool) | Missing | Found(v: V)

  /** What a finite map answers, and what becomes of it. */
  function MapAfter<K, V>(m: map<K, V>, op: Op<K, V>): map<K, V> {
    match op
    case OpAdd(k, v) => if k in m then m else m[k := v]
    case OpReplace(k, v) => m[k := v]
    case OpDelete(k) => m - {k}
    case OpFind(_) => m
  }

  function MapReply<K, V>(m: map<K, V>, op: Op<K, V>): Reply<V> {
    match op
    case OpAdd(k, _) => Flag(k !in m)
    case OpReplace(k, _) => Flag(k !in m)
    case OpDelete(k) => Flag(k in m)
    case OpFind(k) => if k in m then Found(m[k]) else Missing
  }

  function MapReplies<K, V>(m: map<K, V>, ops: seq<Op<K, V>>): (rs: seq<Reply<V>>)
    ensures |rs| == |ops|
    decreases |ops|
  {
    if ops == [] then [] else [MapReply(m, ops[0])] + MapReplies(MapAfter(m, ops[0]), ops[1..])
  }

  /** An operation that the table performs as a finite map does. */
  ghost predicate Manageable<K, V>(hash: K -> uint32, m: map<K, V>, size: nat, op: Op<K, V>) {
    op.OpAdd? || op.OpReplace? ==> op.k in m || Accepts(hash, op.k, size, |m|)
  }

  function SizeAfter<K, V>(m: map<K, V>, size: nat, op: Op<K, V>): nat {
    if op.OpAdd? || op.OpReplace? then Grown(size, |m|) else size
  }

  /** Every operation of a run finds its new key's bucket number within the range of an `int`. */
  ghost predicate Fits<K, V>(hash: K -> uint32, m: map<K, V>, size: nat, ops: seq<Op<K, V>>)
    decreases |ops|
  {
    ops == [] || (Manageable(hash, m, size, ops[0])
                  && Fits(hash, MapAfter(m, ops[0]), SizeAfter(m, size, ops[0]), ops[1..]))
  }

  /** Every add or replace meets fewer than 2^31 keys. */
  ghost predicate Few<K, V>(m: map<K, V>, ops: seq<Op<K, V>>)
    decreases |ops|
  {
    ops == [] || ((ops[0].OpAdd? || ops[0].OpReplace? ==> |m| < INT_RANGE) && Few(MapAfter(m, ops[0]), ops[1..]))
  }

  lemma GrownFits(size: nat, used: nat)
    requires SizeOk(size) && size <= INT_RANGE && used <= size && used < INT_RANGE
    ensures SizeOk(Grown(size, used)) && used < Grown(size, used) <= INT_RANGE
  {
    LargePowers();
    if size != 0 && used == size { PowerBelow(size, INT_RANGE); }
  }

  lemma UpdatedSize<K, V>(m: map<K, V>, k: K, v: V)
    ensures |m[k := v]| <= |m| + 1
  {
    assert m[k := v].Keys == m.Keys + {k};
    assert |m[k := v].Keys| <= |m.Keys| + 1;
  }

  lemma RemovedSize<K, V>(m: map<K, V>, k: K)
    ensures |m - {k}| <= |m|
  {
    assert (m - {k}).Keys == m.Keys - {k};
    assert |m.Keys - {k}| <= |m.Keys|;
  }

  lemma MapAfterSize<K, V>(m: map<K, V>, op: Op<K, V>)
    ensures |MapAfter(m, op)| <= |m| + (if op.OpAdd? || op.OpReplace? then 1 else 0)
  {
    if op.OpAdd? || op.OpReplace? {
      UpdatedSize(m, op.k, op.v);
    } else {
      RemovedSize(m, op.k);
    }
  }

  /** Runs that stay below 2^31 keys fit, however long they are. */
  lemma {:induction false} FewFit<K, V>(hash: K -> uint32, m: map<K, V>, size: nat, ops: seq<Op<K, V>>)
    requires SizeOk(size) && |m| <= size <= INT_RANGE && Few(m, ops)
    ensures Fits(hash, m, size, ops)
    decreases |ops|
  {
    if ops != [] {
      var op := ops[0];
      MapAfterSize(m, op);
      if op.OpAdd? || op.OpReplace? { GrownFits(size, |m|); }
      FewFit(hash, MapAfter(m, op), SizeAfter(m, size, op), ops[1..]);
    }
  }

  // ---------------------------------------------------------------- how large the table gets

  /** The least power of two that is at least 4 and at least `need`; no table before the first need. */
  ghost predicate LeastSize(size: nat, need: nat) {
    if need == 0 then size == 0
    else PowerOfTwo(size) && size >= 4 && size >= need && forall q: nat :: PowerOfTwo(q) && q >= 4 && q >= need ==> size <= q
  }

  /** The size after a run, and the most keys that an add or replace of it had to make room for:
      those before it and one more, whether its key is new or not. */
  ghost function RunSize<K, V>(hash: K -> uint32, m: map<K, V>, size: nat, ops: seq<Op<K, V>>): nat
    decreases |ops|
  {
    if ops == [] then size
    else RunSize(hash, TableAfter(hash, m, size, ops[0]), SizeAfter(m, size, ops[0]), ops[1..])
  }

  ghost function Peak<K, V>(hash: K -> uint32, m: map<K, V>, size: nat, ops: seq<Op<K, V>>, need: nat): nat
    decreases |ops|
  {
    if ops == [] then need
    else Peak(hash, TableAfter(hash, m, size, ops[0]), SizeAfter(m, size, ops[0]), ops[1..],
              if (ops[0].OpAdd? || ops[0].OpReplace?) && |m| + 1 > need then |m| + 1 else need)
  }

  lemma {:induction false} PeakGrows<K, V>(hash: K -> uint32, m: map<K, V>, size: nat, ops: seq<Op<K, V>>, need: nat)
    ensures Peak(hash, m, size, ops, need) >= need
    decreases |ops|
  {
    if ops != [] {
      PeakGrows(hash, TableAfter(hash, m, size, ops[0]), SizeAfter(m, size, ops[0]), ops[1..],
                if (ops[0].OpAdd? || ops[0].OpReplace?) && |m| + 1 > need then |m| + 1 else need);
    }
  }

  lemma LeastGrown(size: nat, need: nat, used: nat)
    requires LeastSize(size, need) && used <= size && used < 0x1000_0000_0000_0000
    ensures LeastSize(Grown(size, used), if used + 1 > need then used + 1 else need) && used < Grown(size, used)
  {
    if size == 0 {
      assert PowerOfTwo(4);
    } else if used == size {
      LargePowers();
      PowerBelow(size, 0x1000_0000_0000_0000);
      forall q: nat | PowerOfTwo(q) && q >= 4 && q >= used + 1 ensures 2 * size <= q { PowerBelow(size, q); }
    }
  }

  /** Over every run below 2^60 keys, the table has the least number of slots that is a power of two, at
      least 4, and enough for all keys at once that an add or replace met and one more. */
  lemma {:induction false} SizeIsLeast<K, V>(hash: K -> uint32, m: map<K, V>, size: nat, ops: seq<Op<K, V>>, need: nat)
    requires LeastSize(size, need) && |m| <= size && Peak(hash, m, size, ops, need) <= 0x1000_0000_0000_0000
    ensures LeastSize(RunSize(hash, m, size, ops), Peak(hash, m, size, ops, need))
    decreases |ops|
  {
    if ops != [] {
      var op := ops[0];
      var m', size' := TableAfter(hash, m, size, op), SizeAfter(m, size, op);
      var need' := if (op.OpAdd? || op.OpReplace?) && |m| + 1 > need then |m| + 1 else need;
      PeakGrows(hash, m', size', ops[1..], need');
      MapAfterSize(m, op);
      if op.OpAdd? || op.OpReplace? { LeastGrown(size, need, |m|); }
      SizeIsLeast(hash, m', size', ops[1..], need');
    }
  }

  // ---------------------------------------------------------------- what the table answers

  /** What the table answers, and what becomes of its map: a new key may be refused. */
  ghost function TableAfter<K, V>(hash: K -> uint32, m: map<K, V>, size: nat, op: Op<K, V>): map<K, V> {
    if Manageable(hash, m, size, op) then MapAfter(m, op) else m
  }

  ghost function TableReply<K, V>(hash: K -> uint32, m: map<K, V>, size: nat, op: Op<K, V>): Reply<V> {
    if Manageable(hash, m, size, op) then MapReply(m, op) else Flag(false)
  }

  ghost function TableReplies<K, V>(hash: K -> uint32, m: map<K, V>, size: nat, ops: seq<Op<K, V>>): (rs: seq<Reply<V>>)
    ensures |rs| == |ops|
    decreases |ops|
  {
    if ops == [] then []
    else
      var rest := TableReplies(hash, TableAfter(hash, m, size, ops[0]), SizeAfter(m, size, ops[0]), ops[1..]);
      [TableReply(hash, m, size, ops[0])] + rest
  }

  /** No operation of the run makes the code index outside the table. */
  ghost predicate Defined<K, V>(hash: K -> uint32, m: map<K, V>, size: nat, ops: seq<Op<K, V>>)
    decreases |ops|
  {
    ops == [] || ((Manageable(hash, m, size, ops[0]) || Refuses(hash, ops[0].k, size, |m|))
                  && Defined(hash, TableAfter(hash, m, size, ops[0]), SizeAfter(m, size, ops[0]), ops[1..]))
  }

  /** The table answers as the finite map exactly when every new key is accepted. */
  lemma {:induction false} AnswersIffFits<K, V>(hash: K -> uint32, m: map<K, V>, size: nat, ops: seq<Op<K, V>>)
    ensures TableReplies(hash, m, size, ops) == MapReplies(m, ops) <==> Fits(hash, m, size, ops)
    decreases |ops|
  {
    if ops != [] {
      var op := ops[0];
      AnswersIffFits(hash, MapAfter(m, op), SizeAfter(m, size, op), ops[1..]);
      var t, r := TableReplies(hash, m, size, ops), MapReplies(m, ops);
      assert t[0] == TableReply(hash, m, size, op) && r[0] == MapReply(m, op);
      assert t[1..] == TableReplies(hash, TableAfter(hash, m, size, op), SizeAfter(m, size, op), ops[1..]);
      assert r[1..] == MapReplies(MapAfter(m, op), ops[1..]);
      assert t == [t[0]] + t[1..] && r == [r[0]] + r[1..];
    }
  }

  /** Every run on a new table that the code defines gets these answers, and they are those of
      the finite map exactly when the run fits. */
  method Replay<K(==, !new), V>(hash: K -> uint32, ops: seq<Op<K, V>>) returns (rs: seq<Reply<V>>, size: nat)
    requires Defined(hash, map[], 0, ops)
    ensures rs == TableReplies(hash, map[], 0, ops)
    ensures rs == MapReplies(map[], ops) <==> Fits(hash, map[], 0, ops)
    ensures var peak := Peak(hash, map[], 0, ops, 0); peak <= 0x1000_0000_0000_0000 ==> LeastSize(size, peak)
  {
    rs, size := PerformAll(hash, ops);
    AnswersIffFits(hash, map[], 0, ops);
    if Peak(hash, map[], 0, ops, 0) <= 0x1000_0000_0000_0000 { SizeIsLeast(hash, map[], 0, ops, 0); }
  }

  method PerformAll<K(==, !new), V>(hash: K -> uint32, ops: seq<Op<K, V>>) returns (rs: seq<Reply<V>>, size: nat)
    requires Defined(hash, map[], 0, ops)
    ensures rs == TableReplies(hash, map[], 0, ops) && size == RunSize(hash, map[], 0, ops)
  {
    var d := new Dict<K, V>(hash);
    rs := [];
    assert ops[0..] == ops;
    for n := 0 to |ops|
      invariant d.Valid() && d.hash == hash && fresh(d) && fresh(d.table) && fresh(d.entries)
      invariant Defined(hash, d.model, d.size, ops[n..])
      invariant TableReplies(hash, map[], 0, ops) == rs + TableReplies(hash, d.model, d.size, ops[n..])
      invariant RunSize(hash, map[], 0, ops) == RunSize(hash, d.model, d.size, ops[n..])
    {
      RepliesStep(hash, d.model, d.size, ops, n, rs);
      var r := Perform(d, ops[n]);
      rs := rs + [r];
    }
    size := d.size;
  }

  lemma RepliesStep<K, V>(hash: K -> uint32, m: map<K, V>, size: nat, ops: seq<Op<K, V>>, n: nat, rs: seq<Reply<V>>)
    requires n < |ops|
    ensures ops[n..][0] == ops[n] && ops[n..][1..] == ops[n + 1..]
    ensures rs + TableReplies(hash, m, size, ops[n..])
         == rs + [TableReply(hash, m, size, ops[n])]
            + TableReplies(hash, TableAfter(hash, m, size, ops[n]), SizeAfter(m, size, ops[n]), ops[n + 1..])
  {
    assert ops[n..][1..] == ops[n + 1..];
  }

  // ---------------------------------------------------------------- a run that does not fit

  /** Keys n, n + 1 and so on up to end, each added once. */
  ghost function Adds(n: nat, end: nat): seq<Op<nat, nat>>
    requires n <= end
    decreases end - n
  {
    if n == end then [] else [OpAdd(n, 0)] + Adds(n + 1, end)
  }

  lemma SmallBucket(hash: nat -> uint32, k: nat, size: nat)
    requires 0 < size <= INT_RANGE
    ensures Bucket(hash, k, size) < INT_RANGE
  {
  }

  lemma LastBucket(hash: nat -> uint32, k: nat)
    requires hash(k) == UINT32 - 1
    ensures Bucket(hash, k, UINT32) == UINT32 - 1
  {
    BelowModulus(UINT32 - 1, UINT32);
  }

  lemma AddStep(n: nat, end: nat)
    requires n < end
    ensures Adds(n, end) != [] && Adds(n, end)[0] == OpAdd(n, 0) && Adds(n, end)[1..] == Adds(n + 1, end)
  {
  }

  lemma AcceptedStep(hash: nat -> uint32, m: map<nat, nat>, size: nat, n: nat, end: nat)
    requires n < end && n !in m && Accepts(hash, n, size, |m|)
    requires Defined(hash, m[n := 0], Grown(size, |m|), Adds(n + 1, end))
    requires !Fits(hash, m[n := 0], Grown(size, |m|), Adds(n + 1, end))
    ensures Defined(hash, m, size, Adds(n, end)) && !Fits(hash, m, size, Adds(n, end))
  {
    AddStep(n, end);
    assert MapAfter(m, OpAdd(n, 0)) == m[n := 0];
  }

  lemma RefusedStep(hash: nat -> uint32, m: map<nat, nat>, size: nat, n: nat)
    requires n !in m && Refuses(hash, n, size, |m|) && !Accepts(hash, n, size, |m|)
    ensures Defined(hash, m, size, Adds(n, n + 1)) && !Fits(hash, m, size, Adds(n, n + 1))
  {
    AddStep(n, n + 1);
    assert Adds(n + 1, n + 1) == [];
  }

  lemma NextAccepted(hash: nat -> uint32, size: nat, n: nat)
    requires SizeOk(size) && n <= size <= INT_RANGE && n < INT_RANGE
    ensures Accepts(hash, n, size, n) && SizeOk(Grown(size, n)) && n + 1 <= Grown(size, n) <= INT_RANGE
  {
    GrownFits(size, n);
    SmallBucket(hash, n, Grown(size, n));
  }

  lemma NextRefused(hash: nat -> uint32, n: nat)
    requires hash(n) == UINT32 - 1 && n == INT_RANGE
    ensures Refuses(hash, n, n, n) && !Accepts(hash, n, n, n)
  {
    LastBucket(hash, n);
  }

  /** The keys are the numbers below n. */
  ghost predicate KeysBelow(m: map<nat, nat>, n: nat) {
    |m| == n && forall k: nat :: k in m <==> k < n
  }

  lemma NextKeys(m: map<nat, nat>, m': map<nat, nat>, n: nat)
    requires KeysBelow(m, n) && m' == m[n := 0]
    ensures KeysBelow(m', n + 1)
  {
    assert m'.Keys == m.Keys + {n} && n !in m.Keys;
    assert |m'.Keys| == |m.Keys| + 1;
  }

  /** With every hash at 2^32 - 1, key 2^31 is refused after the 2^31 keys before it. */
  lemma {:induction false} LastIsRefused(hash: nat -> uint32, m: map<nat, nat>, size: nat, n: nat, end: nat)
    requires (forall k :: hash(k) == UINT32 - 1) && end == INT_RANGE && n <= end
    requires KeysBelow(m, n) && SizeOk(size) && n <= size <= INT_RANGE
    ensures Defined(hash, m, size, Adds(n, end + 1)) && !Fits(hash, m, size, Adds(n, end + 1))
    decreases end - n
  {
    if n == end {
      NextRefused(hash, n);
      RefusedStep(hash, m, size, n);
    } else {
      NextAccepted(hash, size, n);
      NextKeys(m, m[n := 0], n);
      LastIsRefused(hash, m[n := 0], Grown(size, n), n + 1, end);
      AcceptedStep(hash, m, size, n, end + 1);
    }
  }

  /** There is a run from a new table in which the table differs from the finite map. */
  lemma RefusalOccurs(hash: nat -> uint32)
    requires forall k :: hash(k) == UINT32 - 1
    ensures Defined(hash, map[], 0, Adds(0, INT_RANGE + 1))
    ensures TableReplies(hash, map[], 0, Adds(0, INT_RANGE + 1)) != MapReplies(map[], Adds(0, INT_RANGE + 1))
  {
    var end := INT_RANGE;
    var none: map<nat, nat> := map[];
    LastIsRefused(hash, none, 0, 0, end);
    AnswersIffFits(hash, map[], 0, Adds(0, end + 1));
  }

  /** `Add` or `Replace`. */
  method Update<K(==, !new), V>(d: Dict<K, V>, k: K, v: V, replace: bool) returns (added: bool)
    requires d.Valid() && d.InReach(k)
    modifies d, d.table, d.entries
    ensures d.Valid() && d.size == Grown(old(d.size), |old(d.model)|)
    ensures (d.table == old(d.table) || fresh(d.table)) && fresh(d.entries - old(d.entries))
    ensures added == (k !in old(d.model) && Accepts(d.hash, k, old(d.size), |old(d.model)|))
    ensures d.model == if added || (replace && k in old(d.model)) then old(d.model)[k := v] else old(d.model)
  {
    if replace {
      added := d.Replace(k, v);
    } else {
      added := d.Add(k, v);
    }
  }

  /** `Delete` or `Find`, which never grow the table. */
  method Consult<K(==, !new), V>(d: Dict<K, V>, op: Op<K, V>) returns (r: Reply<V>)
    requires d.Valid() && (op.OpDelete? || op.OpFind?)
    modifies d, d.table, d.entries
    ensures d.Valid() && d.size == old(d.size) && d.table == old(d.table) && d.entries == old(d.entries)
    ensures d.model == MapAfter(old(d.model), op) && r == MapReply(old(d.model), op)
  {
    if op.OpDelete? {
      var ok := d.Delete(op.k);
      r := Flag(ok);
    } else {
      var e := d.Find(op.k);
      r := if e == null then Missing else Found(e.val);
    }
  }

  method Perform<K(==, !new), V>(d: Dict<K, V>, op: Op<K, V>) returns (r: Reply<V>)
    requires d.Valid()
    requires Manageable(d.hash, d.model, d.size, op) || Refuses(d.hash, op.k, d.size, |d.model|)
    modifies d, d.table, d.entries
    ensures d.Valid() && d.size == SizeAfter(old(d.model), old(d.size), op)
    ensures (d.table == old(d.table) || fresh(d.table)) && fresh(d.entries - old(d.entries))
    ensures d.model == TableAfter(d.hash, old(d.model), old(d.size), op)
    ensures r == TableReply(d.hash, old(d.model), old(d.size), op)
  {
    if op.OpAdd? || op.OpReplace? {
      var added := Update(d, op.k, op.v, op.OpReplace?);
      r := Flag(added);
    } else {
      r := Consult(d, op);
    }
  }
}
