/** The chained hash table `dict.c`: heap-linked chains that refine a finite map. */
module HashTable {
  import opened Basics
  import opened TableSizes
  import opened DictChains

  const SLOT_BYTES := 8
  const MAX_SLOTS := 0x1000_0000_0000_0000   // the largest power of two whose pointers' bytes can be counted
  const INT_RANGE := 0x8000_0000             // from here on a bucket number does not fit the `int` that carries it

  ghost predicate SizeOk(size: nat) {
    size == 0 || (PowerOfTwo(size) && INITIAL_SIZE <= size <= MAX_SLOTS)
  }

  /** The size of a table that has been asked to make room for one more entry. */
  function Grown(size: nat, used: nat): nat {
    if size == 0 then INITIAL_SIZE
    else if used == size && size < MAX_SLOTS then 2 * size
    else size
  }

  /** There is room for the key, and its bucket number is not negative as an `int`. */
  ghost predicate Accepts<K>(hash: K -> uint32, k: K, size: nat, used: nat) {
    used < Grown(size, used) && Bucket(hash, k, Grown(size, used)) < INT_RANGE
  }

  /** There is no room, or the bucket number is -1 as an `int` and taken for a refusal. */
  ghost predicate Refuses<K>(hash: K -> uint32, k: K, size: nat, used: nat) {
    used >= Grown(size, used) || Bucket(hash, k, Grown(size, used)) == UINT32 - 1
  }

  function At<K, V>(c: Chain<K, V>, a: nat): Entry?<K, V> {
    if a < |c| then c[a] else null
  }

  /** The nodes from `head` on are the chain, in order. */
  ghost predicate Linked<K, V>(head: Entry?<K, V>, c: Chain<K, V>)
    reads c
  {
    && head == At(c, 0)
    && forall a {:trigger c[a]} :: 0 <= a < |c| ==> c[a].next == At(c, a + 1)
  }

  /** All nodes of the chains are among the given ones. */
  ghost predicate Within<K, V>(cs: seq<Chain<K, V>>, es: set<Entry<K, V>>) {
    forall i, a :: 0 <= i < |cs| && 0 <= a < |cs[i]| ==> cs[i][a] in es
  }

  ghost predicate LinkedAll<K, V>(t: array<Entry?<K, V>>, cs: seq<Chain<K, V>>, es: set<Entry<K, V>>)
    requires Within(cs, es)
    reads t, es
  {
    t.Length == |cs| && forall i :: 0 <= i < |cs| ==> Linked(t[i], cs[i])
  }

  /** The entries of the chains carry exactly the pairs of the map. */
  ghost predicate Agrees<K, V>(hash: K -> uint32, cs: seq<Chain<K, V>>, m: map<K, V>, es: set<Entry<K, V>>)
    requires Within(cs, es)
    reads es
  {
    && (forall i, a {:trigger cs[i][a].key} {:trigger cs[i][a].val} ::
          0 <= i < |cs| && 0 <= a < |cs[i]| ==> cs[i][a].key in m && m[cs[i][a].key] == cs[i][a].val)
    && (forall k {:trigger Stored(hash, cs, k)} :: k in m ==> Stored(hash, cs, k))
  }

  ghost predicate Stored<K, V>(hash: K -> uint32, cs: seq<Chain<K, V>>, k: K) {
    cs != [] && HasKey(cs[Bucket(hash, k, |cs|)], k)
  }

  ghost predicate HasKey<K, V>(c: Chain<K, V>, k: K) {
    exists a :: 0 <= a < |c| && c[a].key == k
  }

  /** Put an entry in front of its chain. */
  method LinkFront<K, V>(t: array<Entry?<K, V>>, ghost cs: seq<Chain<K, V>>, h: nat, e: Entry<K, V>, ghost es: set<Entry<K, V>>)
    requires Within(cs, es) && LinkedAll(t, cs, es) && h < |cs| && e in es
    requires forall i, a :: 0 <= i < |cs| && 0 <= a < |cs[i]| ==> cs[i][a] != e
    modifies t, e`next
    ensures Within(cs[h := [e] + cs[h]], es) && LinkedAll(t, cs[h := [e] + cs[h]], es)
  {
    e.next := t[h];
    t[h] := e;
    ghost var cs' := cs[h := [e] + cs[h]];
    forall i | 0 <= i < |cs'| ensures Linked(t[i], cs'[i]) {
      assert Linked(old(t[i]), cs[i]) by { assert forall a :: 0 <= a < |cs[i]| ==> cs[i][a].next == old(cs[i][a].next); }
      if i == h {
        LinkedFront(e, old(t[h]), cs[h]);
      } else {
        assert cs'[i] == cs[i] && t[i] == old(t[i]);
      }
    }
  }

  lemma LinkedFront<K, V>(e: Entry<K, V>, head: Entry?<K, V>, c: Chain<K, V>)
    requires Linked(head, c) && e.next == head
    ensures Linked(e, [e] + c)
  {
    var c' := [e] + c;
    forall a | 0 <= a < |c'| ensures c'[a].next == At(c', a + 1) {
      if a > 0 { assert c'[a] == c[a - 1]; }
    }
  }

  /** Make the predecessor of the entry at place `(h, a)`, or the table, point past it. */
  method LinkPast<K, V>(ghost hash: K -> uint32, t: array<Entry?<K, V>>, ghost cs: seq<Chain<K, V>>, h: nat, ghost a: nat,
                        de: Entry<K, V>, prevde: Entry?<K, V>, ghost es: set<Entry<K, V>>)
    requires Within(cs, es) && LinkedAll(t, cs, es) && h < |cs| && a < |cs[h]| && de == cs[h][a]
    requires prevde == if a == 0 then null else cs[h][a - 1]
    requires WellPlaced(hash, cs)
    modifies t, (if prevde == null then {} else {prevde})`next
    ensures Within(Removed(cs, h, a), es) && LinkedAll(t, Removed(cs, h, a), es)
  {
    if prevde != null {
      Elsewhere(hash, cs, h, a - 1);
      prevde.next := de.next;
    } else {
      t[h] := de.next;
    }
    ghost var cs', c, c' := Removed(cs, h, a), cs[h], Removed(cs, h, a)[h];
    assert forall b :: 0 <= b < |c'| ==> c'[b] == c[if b < a then b else b + 1];
    forall i | 0 <= i < |cs'| ensures Linked(t[i], cs'[i]) {
      assert Linked(old(t[i]), cs[i]) || i == h by {
        if i != h { assert forall b :: 0 <= b < |cs[i]| ==> cs[i][b].next == old(cs[i][b].next); }
      }
      if i == h {
        forall b | 0 <= b < |c'| ensures c'[b].next == At(c', b + 1) {
          assert b != a - 1 ==> c'[b].next == old(c'[b].next);
        }
      }
    }
  }

  /** `hi_calloc` refuses an allocation whose size in bytes would overflow. */
  predicate Allocates(n: nat) { n <= (UINT64 - 1) / SLOT_BYTES }

  /** A new table has a legal size exactly when the allocation is not refused. */
  lemma AllocatedSize(sz: nat, n: nat)
    requires sz >= LONG_MAX ==> n == LONG_MAX
    requires sz < LONG_MAX ==> PowerOfTwo(n) && n >= sz && n >= INITIAL_SIZE
    requires sz < LONG_MAX ==> forall q: nat :: PowerOfTwo(q) && q >= sz && q >= INITIAL_SIZE ==> n <= q
    ensures Allocates(n) <==> sz <= MAX_SLOTS
    ensures Allocates(n) ==> SizeOk(n) && n >= INITIAL_SIZE && n >= sz
  {
    LargePowers();
    if sz < LONG_MAX && Allocates(n) { PowerGap(n, MAX_SLOTS); }
  }

  method Masked(x: nat, ghost size: nat, sizemask: nat) returns (h: nat)
    requires PowerOfTwo(size) && size > 0 && sizemask == size - 1
    ensures h == x % size
  {
    MaskIsRemainder(x, size);
    h := BitAnd(x, sizemask);
  }

  class Dict<K(==, !new), V> {
    const hash: K -> uint32
    var table: array<Entry?<K, V>>
    var size: nat
    var sizemask: nat
    var used: nat
    ghost var chains: seq<Chain<K, V>>
    ghost var entries: set<Entry<K, V>>   // every node ever linked into a chain
    ghost var model: map<K, V>            // the finite map that the table stands for

    /** The heap side: the table and the nodes form the chains. */
    ghost predicate Shape()
      reads this, table, entries
    {
      && table.Length == size == |chains| && SizeOk(size)
      && Within(chains, entries)
      && LinkedAll(table, chains, entries)
    }

    ghost predicate Valid()
      reads this, table, entries
    {
      && Shape()
      && sizemask == (if size == 0 then 0 else size - 1)
      && used == |Flat(chains)| == |model| && used <= size
      && WellPlaced(hash, chains)
      && Agrees(hash, chains, model, entries)
    }

    constructor (hash: K -> uint32)
      ensures Valid() && model == map[] && size == 0 && this.hash == hash && entries == {} && fresh(table)
    {
      this.hash := hash;
      table := new Entry?<K, V>[0];
      size, sizemask, used := 0, 0, 0;
      chains, entries, model := [], {}, map[];
    }

    /** The slot of a key: masking the hash picks its bucket. */
    method Index(k: K) returns (h: nat)
      requires Valid() && size > 0
      ensures h == Bucket(hash, k, size)
    {
      h := Masked(hash(k), size, sizemask);
    }

    lemma Links(i: nat, a: nat)
      requires Shape() && i < |chains| && a < |chains[i]|
      ensures chains[i][a].next == At(chains[i], a + 1)
    {
      assert Linked(table[i], chains[i]);
    }

    /** The entries of the chains, one after the other, have the keys of the map, each once. */
    lemma EntriesAreModel()
      requires Valid()
      ensures NoKeyTwice(Flat(chains))
      ensures forall x :: 0 <= x < |Flat(chains)| ==> Flat(chains)[x].key in model
      ensures forall k :: k in model ==> HasKey(Flat(chains), k)
    {
      FlatNoKeyTwice(hash, chains, 0);
      assert chains[0..] == chains;
      forall x | 0 <= x < |Flat(chains)| ensures Flat(chains)[x].key in model {
        FlatIn(chains, Flat(chains)[x]);
        var i :| 0 <= i < |chains| && Flat(chains)[x] in chains[i];
        var a :| 0 <= a < |chains[i]| && chains[i][a] == Flat(chains)[x];
      }
      forall k | k in model ensures HasKey(Flat(chains), k) {
        assert Stored(hash, chains, k);
        var i := Bucket(hash, k, |chains|);
        var a :| 0 <= a < |chains[i]| && chains[i][a].key == k;
        FlatAt(chains, i, a);
      }
    }

    method Find(k: K) returns (he: Entry?<K, V>)
      requires Valid()
      ensures he == null <==> k !in model
      ensures he != null ==> he in entries && he.key == k && he.val == model[k]
      ensures he != null ==> size > 0 && he in chains[Bucket(hash, k, size)]
    {
      if size == 0 { return null; }
      var h := Index(k);
      he := InChain(h, k);
    }

    /** Midway through rehashing: what is built is linked into the new table, and the chains
        from `i` on, the first one from `a` on, are as they were. */
    ghost predicate Rehashing(t: array<Entry?<K, V>>, cs: seq<Chain<K, V>>, i: nat, a: nat)
      reads this, table, entries, t
    {
      && table.Length == |chains|
      && Within(chains, entries) && Within(cs, entries)
      && Midway(hash, chains, t.Length, cs, i, a)
      && used == |Flat(chains)| - Position(chains, i, a)
      && LinkedAll(t, cs, entries)
      && (forall b :: i < |chains| && a <= b < |chains[i]| ==> chains[i][b].next == At(chains[i], b + 1))
      && (forall j :: i < j < |chains| ==> Linked(table[j], chains[j]))
    }

    /** Move one entry to the front of its new chain. */
    method MoveEntry(t: array<Entry?<K, V>>, h: nat, ghost cs: seq<Chain<K, V>>, ghost i: nat, ghost a: nat, he: Entry<K, V>)
      requires Rehashing(t, cs, i, a) && t != table && i < |chains| && a < |chains[i]| && he == chains[i][a]
      requires h == Bucket(hash, he.key, t.Length)
      modifies this`used, t, entries`next
      ensures Rehashing(t, Pushed(hash, cs, he), i, a + 1)
    {
      MidwayStep(hash, chains, t.Length, cs, i, a);
      LinkFront(t, cs, h, he, entries);
      used := used - 1;
    }

    /** Move a whole chain. */
    method MoveChain(t: array<Entry?<K, V>>, mask: nat, ghost cs: seq<Chain<K, V>>, i: nat) returns (ghost cs': seq<Chain<K, V>>)
      requires i < |chains| && Rehashing(t, cs, i, 0) && Linked(table[i], chains[i]) && t != table
      requires PowerOfTwo(t.Length) && mask == t.Length - 1
      modifies this`used, t, entries`next
      ensures Rehashing(t, cs', i + 1, 0)
      ensures i + 1 < |chains| ==> Linked(table[i + 1], chains[i + 1])
    {
      var he := table[i];
      ghost var c, a := chains[i], 0;
      cs' := cs;
      while he != null
        invariant a <= |c| && he == At(c, a)
        invariant Rehashing(t, cs', i, a)
        decreases |c| - a
      {
        var nextHe := he.next;
        var h := Masked(hash(he.key), t.Length, mask);
        MoveEntry(t, h, cs', i, a, he);
        cs' := Pushed(hash, cs', he);
        he, a := nextHe, a + 1;
      }
      assert a == |c|;
      MidwayNext(hash, chains, t.Length, cs', i);
    }

    lemma RehashingStarts(t: array<Entry?<K, V>>)
      requires Valid() && t.Length > 0 && forall i :: 0 <= i < t.Length ==> t[i] == null
      ensures Rehashing(t, PushedAll(hash, t.Length, []), 0, 0)
      ensures 0 < |chains| ==> Linked(table[0], chains[0])
    {
      MidwayStart(hash, chains, t.Length);
    }

    /** Move all chains; the loop stops early when no entry is left, and none is when it stops. */
    method MoveAll(t: array<Entry?<K, V>>, mask: nat) returns (ghost cs: seq<Chain<K, V>>)
      requires t.Length > 0 && Rehashing(t, PushedAll(hash, t.Length, []), 0, 0) && t != table
      requires size == |chains| && (0 < |chains| ==> Linked(table[0], chains[0]))
      requires PowerOfTwo(t.Length) && mask == t.Length - 1
      modifies this`used, t, entries`next
      ensures used == 0
      ensures |cs| == t.Length && WellPlaced(hash, cs) && |Flat(cs)| == |Flat(chains)|
      ensures Within(cs, entries) && LinkedAll(t, cs, entries) && Holds(hash, cs, Flat(chains))
      ensures cs == PushedAll(hash, t.Length, Flat(chains))
    {
      cs := PushedAll(hash, t.Length, []);
      var i := 0;
      while i < size && used > 0
        invariant 0 <= i <= size == |chains|
        invariant Rehashing(t, cs, i, 0)
        invariant i < |chains| ==> Linked(table[i], chains[i])
      {
        cs := MoveChain(t, mask, cs, i);
        i := i + 1;
      }
      MidwayEnd(hash, chains, t.Length, cs, i);
    }

    /** Rebuild the table with at least `sz` slots. The chains are relinked in place. */
    method Expand(sz: nat) returns (ok: bool)
      requires Valid() && sz < UINT64
      modifies this, entries`next
      ensures Valid() && model == old(model) && entries == old(entries)
      ensures ok <==> old(used) <= sz <= MAX_SLOTS
      ensures ok ==> INITIAL_SIZE <= size && sz <= size && fresh(table) && chains == PushedAll(hash, size, old(Flat(chains)))
      ensures ok ==> forall q: nat :: PowerOfTwo(q) && q >= sz && q >= INITIAL_SIZE ==> size <= q
      ensures !ok ==> unchanged(this)
    {
      var realsize := NextPower(sz);
      AllocatedSize(sz, realsize);
      if used > sz { return false; }
      if !Allocates(realsize) { return false; }
      Rebuild(realsize);
      return true;
    }

    /** Move everything to a table of the given size. */
    method Rebuild(realsize: nat)
      requires Valid() && SizeOk(realsize) && used <= realsize && realsize > 0
      modifies this, entries`next
      ensures Valid() && model == old(model) && entries == old(entries)
      ensures size == realsize && fresh(table) && chains == PushedAll(hash, size, old(Flat(chains)))
    {
      var t := new Entry?<K, V>[realsize](_ => null);
      var nUsed := used;
      RehashingStarts(t);
      ghost var cs := MoveAll(t, realsize - 1);
      assert used == 0;
      AgreesRehashed(hash, chains, cs, model, entries);
      Install(t, realsize, nUsed, cs, entries, model);
    }

    /** A consistent set of new fields takes the place of the old. */
    method Install(t: array<Entry?<K, V>>, n: nat, nUsed: nat, ghost cs: seq<Chain<K, V>>,
                   ghost es: set<Entry<K, V>>, ghost m: map<K, V>)
      requires SizeOk(n) && n > 0 && t.Length == n == |cs| && nUsed == |Flat(cs)| == |m| && nUsed <= n
      requires Within(cs, es) && WellPlaced(hash, cs) && LinkedAll(t, cs, es) && Agrees(hash, cs, m, es)
      modifies this
      ensures Valid() && table == t && size == n && chains == cs && entries == es && model == m
    {
      table, size, sizemask, used := t, n, n - 1, nUsed;
      chains, entries, model := cs, es, m;
    }

    /** Make room for one more entry: the first table, or a table of twice the size. */
    method ExpandIfNeeded() returns (ok: bool)
      requires Valid()
      modifies this, entries`next
      ensures Valid() && model == old(model) && entries == old(entries)
      ensures ok <==> used < size
      ensures size == Grown(old(size), old(used)) && (table == old(table) || fresh(table))
    {
      ok := true;
      if size == 0 {
        assert PowerOfTwo(INITIAL_SIZE);
        ok := Expand(INITIAL_SIZE);
      } else if used == size {
        DoubledSize(size);
        ghost var doubled := 2 * size;
        ok := Expand(size * 2);
        assert PowerOfTwo(doubled);
      }
    }

    /** The first entry of a chain with the key, or null. */
    method InChain(h: nat, k: K) returns (he: Entry?<K, V>)
      requires Valid() && size > 0 && h == Bucket(hash, k, size)
      ensures he == null <==> k !in model
      ensures he != null ==> he in entries && he.key == k && he.val == model[k] && he in chains[h]
    {
      he := table[h];
      ghost var c, a := chains[h], 0;
      while he != null
        invariant a <= |c| && he == At(c, a)
        invariant forall b :: 0 <= b < a ==> c[b].key != k
        decreases |c| - a
      {
        if k == he.key { return; }
        he, a := he.next, a + 1;
      }
      assert !HasKey(c, k);
      assert !Stored(hash, chains, k);
    }

    /** The bucket for a new key as an `int`, or -1 if the key is there or there is no room for
        it. The table may be rebuilt. */
    method KeyIndex(k: K) returns (index: int)
      requires Valid()
      modifies this, entries`next
      ensures Valid() && model == old(model) && entries == old(entries)
      ensures size == Grown(old(size), old(used)) && (table == old(table) || fresh(table))
      ensures index == if k in model || used == size then -1 else ToInt32(Bucket(hash, k, size))
    {
      var ok := ExpandIfNeeded();
      if !ok { return -1; }
      var h := Index(k);
      var he := InChain(h, k);
      if he != null { return -1; }
      return ToInt32(h);
    }

    /** Link a new entry into its bucket. */
    method Insert(index: nat, k: K, v: V)
      requires Valid() && used < size && k !in model && index == Bucket(hash, k, size)
      modifies this, table
      ensures Valid() && table == old(table) && old(entries) <= entries && fresh(entries - old(entries))
      ensures model == old(model)[k := v] && size == old(size)
      ensures chains[index] != [] && chains[index][0].key == k
      ensures chains == old(chains)[index := [chains[index][0]] + old(chains[index])]
    {
      var entry := new Entry(k, v, null);
      ghost var es := entries + {entry};
      PushedPlaced(hash, chains, entry);
      LinkFront(table, chains, index, entry, es);
      AgreesPushed(hash, chains, model, entry, es);
      Install(table, size, used + 1, Pushed(hash, chains, entry), es, model[k := v]);
    }

    /** What the caller of `Add` and `Replace` must respect: a new key whose bucket number is
        negative as an `int`, other than -1, would be written outside the table. */
    ghost predicate InReach(k: K)
      reads this
    {
      k in model || Accepts(hash, k, size, used) || Refuses(hash, k, size, used)
    }

    method Add(k: K, v: V) returns (ok: bool)
      requires Valid() && InReach(k)
      modifies this, table, entries`next
      ensures Valid() && old(entries) <= entries && fresh(entries - old(entries))
      ensures (table == old(table) || fresh(table)) && size == Grown(old(size), old(used))
      ensures ok <==> k !in old(model) && Accepts(hash, k, old(size), old(used))
      ensures model == if ok then old(model)[k := v] else old(model)
      ensures ok ==> size > 0 && var c := chains[Bucket(hash, k, size)]; c != [] && c[0].key == k
    {
      var index := KeyIndex(k);
      if index == -1 { return false; }
      Insert(index, k, v);
      return true;
    }

    /** Add the pair, or give the key its new value if it is there. */
    method Replace(k: K, v: V) returns (added: bool)
      requires Valid() && InReach(k)
      modifies this, table, entries
      ensures Valid() && old(entries) <= entries && fresh(entries - old(entries))
      ensures (table == old(table) || fresh(table)) && size == Grown(old(size), old(used))
      ensures added <==> k !in old(model) && Accepts(hash, k, old(size), old(used))
      ensures model == if added || k in old(model) then old(model)[k := v] else old(model)
    {
      var ok := Add(k, v);
      if ok { return true; }
      var entry := Find(k);
      if entry == null { return false; }
      SetVal(entry, v);
      return false;
    }

    method SetVal(entry: Entry<K, V>, v: V)
      requires Valid() && size > 0 && entry in chains[Bucket(hash, entry.key, size)]
      modifies this, entry`val
      ensures Valid() && model == old(model)[entry.key := v]
      ensures table == old(table) && entries == old(entries) && size == old(size)
    {
      ghost var h := Bucket(hash, entry.key, size);
      ghost var a :| 0 <= a < |chains[h]| && chains[h][a] == entry;
      Elsewhere(hash, chains, h, a);
      entry.val := v;
      AgreesSet(hash, chains, model, h, a, entries);
      Install(table, size, used, chains, entries, model[entry.key := v]);
    }

    method Delete(k: K) returns (ok: bool)
      requires Valid()
      modifies this, table, entries`next
      ensures Valid() && table == old(table) && size == old(size) && entries == old(entries)
      ensures ok <==> k in old(model)
      ensures model == old(model) - {k}
      ensures |chains| == |old(chains)| && forall i :: 0 <= i < |chains| ==> chains[i] == Without(old(chains)[i], k)
    {
      if size == 0 { return false; }
      var h := Index(k);
      var de := table[h];
      var prevde: Entry?<K, V> := null;
      ghost var c, a := chains[h], 0;
      while de != null
        invariant a <= |c| && de == At(c, a) && prevde == if a == 0 then null else c[a - 1]
        invariant forall b :: 0 <= b < a ==> c[b].key != k
        decreases |c| - a
      {
        if k == de.key {
          RemovedWithout(hash, chains, h, a);
          Unlink(h, a, de, prevde);
          return true;
        }
        prevde, de, a := de, de.next, a + 1;
      }
      assert !Stored(hash, chains, k);
      AbsentEverywhere(k);
      return false;
    }

    lemma AbsentEverywhere(k: K)
      requires Valid() && k !in model
      ensures forall i :: 0 <= i < |chains| ==> chains[i] == Without(chains[i], k)
    {
      forall i | 0 <= i < |chains| ensures chains[i] == Without(chains[i], k) {
        WithoutAbsent(chains[i], k);
      }
    }

    /** Take the entry at place `(h, a)` out of its chain. */
    method Unlink(h: nat, ghost a: nat, de: Entry<K, V>, prevde: Entry?<K, V>)
      requires Valid() && h < size && a < |chains[h]| && de == chains[h][a]
      requires prevde == if a == 0 then null else chains[h][a - 1]
      modifies this, table, entries`next
      ensures Valid() && table == old(table) && size == old(size) && entries == old(entries)
      ensures de.key in old(model) && model == old(model) - {de.key}
      ensures chains == Removed(old(chains), h, a)
    {
      RemovedPlaced(hash, chains, h, a);
      LinkPast(hash, table, chains, h, a, de, prevde, entries);
      AgreesRemoved(hash, chains, model, h, a, entries);
      Install(table, size, used - 1, Removed(chains, h, a), entries, model - {de.key});
    }
  }

  lemma AgreesRehashed<K, V>(hash: K -> uint32, cs: seq<Chain<K, V>>, cs': seq<Chain<K, V>>, m: map<K, V>, es: set<Entry<K, V>>)
    requires Within(cs, es) && Within(cs', es) && Agrees(hash, cs, m, es)
    requires cs' != [] && Holds(hash, cs', Flat(cs))
    ensures Agrees(hash, cs', m, es)
  {
    forall i, a | 0 <= i < |cs'| && 0 <= a < |cs'[i]|
      ensures cs'[i][a].key in m && m[cs'[i][a].key] == cs'[i][a].val
    {
      FlatIn(cs, cs'[i][a]);
      var j :| 0 <= j < |cs| && cs'[i][a] in cs[j];
      var b :| 0 <= b < |cs[j]| && cs[j][b] == cs'[i][a];
    }
    forall k | k in m ensures Stored(hash, cs', k) {
      assert Stored(hash, cs, k);
      var c := cs[Bucket(hash, k, |cs|)];
      var a :| 0 <= a < |c| && c[a].key == k;
      FlatIn(cs, c[a]);
      var x :| 0 <= x < |Flat(cs)| && Flat(cs)[x] == c[a];
      assert Flat(cs)[x] in cs'[Bucket(hash, k, |cs'|)];
    }
  }

  lemma DoubledSize(size: nat)
    requires PowerOfTwo(size) && INITIAL_SIZE <= size <= MAX_SLOTS
    ensures PowerOfTwo(2 * size) && 2 * size < UINT64 && (2 * size <= MAX_SLOTS <==> size < MAX_SLOTS)
  {
    LargePowers();
    assert (2 * size) / 2 == size;
    if size < MAX_SLOTS { PowerBelow(size, MAX_SLOTS); }
  }

  /** Conversion of an `unsigned int` to `int`. */
  function ToInt32(x: nat): int { if x < INT_RANGE then x else x - UINT32 }

  lemma AgreesPushed<K, V>(hash: K -> uint32, cs: seq<Chain<K, V>>, m: map<K, V>, e: Entry<K, V>, es: set<Entry<K, V>>)
    requires cs != [] && Within(cs, es) && e in es && Agrees(hash, cs, m, es) && e.key !in m
    ensures Within(Pushed(hash, cs, e), es) && Agrees(hash, Pushed(hash, cs, e), m[e.key := e.val], es)
  {
    var cs', m' := Pushed(hash, cs, e), m[e.key := e.val];
    forall k | k in m' ensures Stored(hash, cs', k) {
      var c, c' := cs[Bucket(hash, k, |cs|)], cs'[Bucket(hash, k, |cs|)];
      if k == e.key {
        assert c'[0].key == k;
      } else {
        assert Stored(hash, cs, k);
        var a :| 0 <= a < |c| && c[a].key == k;
        assert c'[if c' == c then a else a + 1] == c[a];
      }
    }
  }

  lemma AgreesSet<K, V>(hash: K -> uint32, cs: seq<Chain<K, V>>, m: map<K, V>, h: nat, a: nat, es: set<Entry<K, V>>)
    requires Within(cs, es) && WellPlaced(hash, cs) && h < |cs| && a < |cs[h]| && cs[h][a].key in m
    requires forall i, b :: 0 <= i < |cs| && 0 <= b < |cs[i]| && (i != h || b != a) ==>
               cs[i][b].key in m && m[cs[i][b].key] == cs[i][b].val
    requires forall k {:trigger Stored(hash, cs, k)} :: k in m ==> Stored(hash, cs, k)
    ensures Agrees(hash, cs, m[cs[h][a].key := cs[h][a].val], es)
    ensures |m[cs[h][a].key := cs[h][a].val]| == |m|
  {
    var m' := m[cs[h][a].key := cs[h][a].val];
    assert m'.Keys == m.Keys;
    forall i, b | 0 <= i < |cs| && 0 <= b < |cs[i]| ensures cs[i][b].key in m' && m'[cs[i][b].key] == cs[i][b].val {
      OnePlace(hash, cs, i, b, h, a);
    }
    forall k | k in m' ensures Stored(hash, cs, k) { assert k in m.Keys; }
  }

  lemma AgreesRemoved<K, V>(hash: K -> uint32, cs: seq<Chain<K, V>>, m: map<K, V>, h: nat, a: nat, es: set<Entry<K, V>>)
    requires Within(cs, es) && WellPlaced(hash, cs) && Agrees(hash, cs, m, es) && h < |cs| && a < |cs[h]|
    ensures Within(Removed(cs, h, a), es) && Agrees(hash, Removed(cs, h, a), m - {cs[h][a].key}, es)
    ensures |m - {cs[h][a].key}| == |m| - 1
  {
    var k0 := cs[h][a].key;
    var cs': seq<Chain<K, V>> := Removed(cs, h, a);
    var m', c, c' := m - {k0}, cs[h], cs'[h];
    assert m'.Keys == m.Keys - {k0};
    assert forall b :: 0 <= b < |c'| ==> c'[b] == c[if b < a then b else b + 1];
    forall i, b | 0 <= i < |cs'| && 0 <= b < |cs'[i]| ensures cs'[i][b].key in m' && m'[cs'[i][b].key] == cs'[i][b].val {
      OnePlace(hash, cs, i, if i == h && b >= a then b + 1 else b, h, a);
    }
    forall k | k in m' ensures Stored(hash, cs', k) {
      assert Stored(hash, cs, k);
      var i := Bucket(hash, k, |cs|);
      var b :| 0 <= b < |cs[i]| && cs[i][b].key == k;
      if i == h { assert c'[if b < a then b else b - 1].key == k; }
    }
  }
}
