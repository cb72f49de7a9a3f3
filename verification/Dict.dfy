/** Powers of two and masks, as the hash table's sizes use them. */
module TableSizes {
  import opened Basics

  const INITIAL_SIZE := 4                         // DICT_HT_INITIAL_SIZE
  const LONG_MAX := 0x7fff_ffff_ffff_ffff         // unsigned long is 64 bits wide

  predicate PowerOfTwo(n: nat) { n == 1 || (n > 1 && n % 2 == 0 && PowerOfTwo(n / 2)) }

  /** Powers of two are at least a factor of two apart. */
  lemma {:induction false} PowerGap(p: nat, q: nat)
    requires PowerOfTwo(p) && PowerOfTwo(q) && p < 2 * q
    ensures p <= q
    decreases p
  {
    if p > 1 && q > 1 { PowerGap(p / 2, q / 2); }
  }

  lemma {:induction false} PowerProduct(p: nat, q: nat)
    requires PowerOfTwo(p) && PowerOfTwo(q)
    ensures PowerOfTwo(p * q)
    decreases p
  {
    if p > 1 {
      PowerProduct(p / 2, q);
      assert p * q == 2 * (p / 2 * q);
    }
  }

  lemma LargePowers()
    ensures PowerOfTwo(0x8000_0000) && PowerOfTwo(0x1_0000_0000)
    ensures PowerOfTwo(0x1000_0000_0000_0000) && PowerOfTwo(0x8000_0000_0000_0000)
  {
    PowerProduct(0x100, 0x80);
    PowerProduct(0x1_0000, 0x8000);
    PowerProduct(0x8000_0000, 2);
    PowerProduct(0x8000_0000, 0x2000_0000);
    PowerProduct(0x1000_0000_0000_0000, 8);
  }

  /** Bitwise `&` of two non-negative integers. */
  function BitAnd(x: nat, y: nat): nat {
    if x == 0 || y == 0 then 0
    else (if x % 2 == 1 && y % 2 == 1 then 1 else 0) + 2 * BitAnd(x / 2, y / 2)
  }

  lemma HalfModulus(x: nat, p: nat)
    requires p > 0
    ensures x % (2 * p) == x % 2 + 2 * ((x / 2) % p)
  {
    var q, r := (x / 2) / p, (x / 2) % p;
    assert x / 2 == q * p + r;
    assert 2 * (q * p) == q * (2 * p);
    Division(x, q, 2 * p, x % 2 + 2 * r);
  }

  /** Masking with one less than a power of two is the remainder. */
  lemma {:induction false} MaskIsRemainder(x: nat, n: nat)
    requires PowerOfTwo(n)
    ensures BitAnd(x, n - 1) == x % n
    decreases n
  {
    if n > 1 {
      MaskIsRemainder(x / 2, n / 2);
      HalfModulus(x, n / 2);
      assert (n - 1) % 2 == 1 && (n - 1) / 2 == n / 2 - 1;
    }
  }

  /** A power of two divides every larger one. */
  lemma {:induction false} PowerDivides(p: nat, q: nat)
    requires PowerOfTwo(p) && PowerOfTwo(q) && q <= p
    ensures p % q == 0
    decreases q
  {
    if q > 1 {
      PowerDivides(p / 2, q / 2);
      HalfModulus(p, q / 2);
    }
  }

  /** `_dictNextPower`: the least power of two that is at least the size and the initial size. */
  method NextPower(size: nat) returns (p: nat)
    requires size < UINT64
    ensures size >= LONG_MAX ==> p == LONG_MAX
    ensures size < LONG_MAX ==> PowerOfTwo(p) && p >= size && p >= 4 && p < UINT64
    ensures size < LONG_MAX ==> forall q: nat :: PowerOfTwo(q) && q >= size && q >= INITIAL_SIZE ==> p <= q
  {
    var i := INITIAL_SIZE;
    if size >= LONG_MAX { return LONG_MAX; }
    while i < size
      invariant PowerOfTwo(i) && INITIAL_SIZE <= i < UINT64 && (i > INITIAL_SIZE ==> i / 2 < size)
      decreases 2 * size - i
    {
      DoublingFits(i);
      i := Doubled(i);
    }
    p := i;
    forall q: nat | PowerOfTwo(q) && q >= size && q >= INITIAL_SIZE ensures p <= q { PowerGap(p, q); }
  }

  /** `unsigned long` multiplication by two. */
  function Doubled(i: nat): nat { i * 2 % UINT64 }

  lemma PowerBelow(i: nat, q: nat)
    requires PowerOfTwo(i) && PowerOfTwo(q) && i < q
    ensures PowerOfTwo(2 * i) && 2 * i <= q
  {
    assert (2 * i) / 2 == i;
    PowerGap(2 * i, q);
  }

  lemma DoublingBelow(i: nat, q: nat)
    requires PowerOfTwo(i) && PowerOfTwo(q) && i < q < UINT64
    ensures PowerOfTwo(2 * i) && 2 * i < UINT64 && Doubled(i) == 2 * i
  {
    PowerBelow(i, q);
    BelowModulus(2 * i, UINT64);
  }

  lemma DoublingFits(i: nat)
    requires PowerOfTwo(i) && i < LONG_MAX
    ensures PowerOfTwo(2 * i) && 2 * i < UINT64 && Doubled(i) == 2 * i
  {
    LargePowers();
    DoublingBelow(i, LONG_MAX + 1);
  }
}

/** The chains of the table, as sequences of entries: what does not depend on the heap. */
module DictChains {
  import opened Basics

  /** A node of a chain. The key is set once, when the entry is made. */
  class Entry<K, V> {
    const key: K
    var val: V
    var next: Entry?<K, V>

    constructor (key: K, val: V, next: Entry?<K, V>)
      ensures this.key == key && this.val == val && this.next == next
    {
      this.key, this.val, this.next := key, val, next;
    }
  }

  type Chain<K, V> = seq<Entry<K, V>>

  function Bucket<K>(hash: K -> uint32, k: K, n: nat): (b: nat)
    requires n > 0
    ensures b < n
  {
    hash(k) % n
  }

  /** Every entry is in the bucket of its hash, and no chain has a key twice. */
  ghost predicate WellPlaced<K, V>(hash: K -> uint32, cs: seq<Chain<K, V>>) {
    && (forall i, a {:trigger cs[i][a].key} :: 0 <= i < |cs| && 0 <= a < |cs[i]| ==> Bucket(hash, cs[i][a].key, |cs|) == i)
    && (forall i, a, b {:trigger cs[i][a].key, cs[i][b].key} ::
          0 <= i < |cs| && 0 <= a < b < |cs[i]| ==> cs[i][a].key != cs[i][b].key)
  }

  /** An entry is in the table exactly if it is in one of the chains. */
  lemma {:induction false} FlatIn<K, V>(cs: seq<Chain<K, V>>, e: Entry<K, V>)
    ensures e in Flat(cs) <==> exists i :: 0 <= i < |cs| && e in cs[i]
  {
    if cs != [] {
      FlatIn(cs[1..], e);
      if e in Flat(cs[1..]) {
        var i :| 0 <= i < |cs[1..]| && e in cs[1..][i];
        assert e in cs[i + 1];
      }
      if i :| 0 < i < |cs| && e in cs[i] { assert e in cs[1..][i - 1]; }
    }
  }

  /** Two places with the same key are the same place. */
  lemma OnePlace<K, V>(hash: K -> uint32, cs: seq<Chain<K, V>>, i: nat, a: nat, j: nat, b: nat)
    requires WellPlaced(hash, cs) && i < |cs| && a < |cs[i]| && j < |cs| && b < |cs[j]|
    ensures cs[i][a].key == cs[j][b].key ==> i == j && a == b
  {
  }

  // ---------------------------------------------------------------- putting entries in front

  function Pushed<K, V>(hash: K -> uint32, cs: seq<Chain<K, V>>, e: Entry<K, V>): (r: seq<Chain<K, V>>)
    requires cs != []
    ensures |r| == |cs|
  {
    var h := Bucket(hash, e.key, |cs|);
    cs[h := [e] + cs[h]]
  }

  /** `n` empty chains with the entries put in front one after the other: what rehashing builds. */
  function PushedAll<K, V>(hash: K -> uint32, n: nat, es: Chain<K, V>): (r: seq<Chain<K, V>>)
    requires n > 0
    ensures |r| == n
  {
    if es == [] then seq(n, _ => []) else Pushed(hash, PushedAll(hash, n, es[..|es| - 1]), es[|es| - 1])
  }

  ghost predicate NoKeyTwice<K, V>(es: Chain<K, V>) {
    forall x, y :: 0 <= x < y < |es| ==> es[x].key != es[y].key
  }

  /** The chains hold exactly the listed entries. */
  ghost predicate Holds<K, V>(hash: K -> uint32, cs: seq<Chain<K, V>>, es: Chain<K, V>)
    requires cs != []
  {
    && (forall i, a :: 0 <= i < |cs| && 0 <= a < |cs[i]| ==> cs[i][a] in es)
    && (forall x :: 0 <= x < |es| ==> es[x] in cs[Bucket(hash, es[x].key, |cs|)])
  }

  lemma FlatUpdate<K, V>(cs: seq<Chain<K, V>>, i: nat, c: Chain<K, V>)
    requires i < |cs|
    ensures Flat(cs) == Flat(cs[..i]) + cs[i] + Flat(cs[i + 1..])
    ensures Flat(cs[i := c]) == Flat(cs[..i]) + c + Flat(cs[i + 1..])
  {
    var cs' := cs[i := c];
    FlatSplit(cs, i);
    FlatSplit(cs', i);
    assert cs'[..i] == cs[..i];
    assert cs[i..][1..] == cs[i + 1..] && cs'[i..][1..] == cs[i + 1..];
  }

  lemma PushedPlaced<K, V>(hash: K -> uint32, cs: seq<Chain<K, V>>, e: Entry<K, V>)
    requires cs != [] && WellPlaced(hash, cs)
    requires var c := cs[Bucket(hash, e.key, |cs|)]; forall a :: 0 <= a < |c| ==> c[a].key != e.key
    ensures WellPlaced(hash, Pushed(hash, cs, e))
    ensures |Flat(Pushed(hash, cs, e))| == |Flat(cs)| + 1
  {
    var h := Bucket(hash, e.key, |cs|);
    FlatUpdate(cs, h, [e] + cs[h]);
  }

  lemma PushedHolds<K, V>(hash: K -> uint32, cs: seq<Chain<K, V>>, es: Chain<K, V>, e: Entry<K, V>)
    requires cs != [] && Holds(hash, cs, es)
    ensures Holds(hash, Pushed(hash, cs, e), es + [e])
  {
    var cs', es' := Pushed(hash, cs, e), es + [e];
    var h := Bucket(hash, e.key, |cs|);
    forall x | 0 <= x < |es'| ensures es'[x] in cs'[Bucket(hash, es'[x].key, |cs|)] {
      if x == |es| { assert cs'[h][0] == e; }
      else { assert es[x] in cs[Bucket(hash, es[x].key, |cs|)]; }
    }
    forall i, a | 0 <= i < |cs'| && 0 <= a < |cs'[i]| ensures cs'[i][a] in es' {
      if i == h && a > 0 { assert cs'[i][a] == cs[i][a - 1]; }
    }
  }

  /** The chains hold the listed entries, each once and in its place. */
  ghost predicate Filled<K, V>(hash: K -> uint32, cs: seq<Chain<K, V>>, es: Chain<K, V>)
    requires cs != []
  {
    WellPlaced(hash, cs) && Holds(hash, cs, es) && |Flat(cs)| == |es|
  }

  lemma FilledMore<K, V>(hash: K -> uint32, cs: seq<Chain<K, V>>, es: Chain<K, V>, e: Entry<K, V>)
    requires cs != [] && Filled(hash, cs, es) && forall x :: 0 <= x < |es| ==> es[x].key != e.key
    ensures Filled(hash, Pushed(hash, cs, e), es + [e])
  {
    var h := Bucket(hash, e.key, |cs|);
    forall a | 0 <= a < |cs[h]| ensures cs[h][a].key != e.key {
      var x :| 0 <= x < |es| && es[x] == cs[h][a];
    }
    PushedPlaced(hash, cs, e);
    PushedHolds(hash, cs, es, e);
  }

  /** Rehashing keeps every entry, once, and in its new place. */
  lemma {:induction false} PushedAllPlaced<K, V>(hash: K -> uint32, n: nat, es: Chain<K, V>)
    requires n > 0 && NoKeyTwice(es)
    ensures WellPlaced(hash, PushedAll(hash, n, es)) && Holds(hash, PushedAll(hash, n, es), es)
    ensures |Flat(PushedAll(hash, n, es))| == |es|
    decreases |es|
  {
    if es == [] {
      FlatOfEmpty(PushedAll(hash, n, es));
    } else {
      var init: Chain<K, V>, e: Entry<K, V> := es[..|es| - 1], es[|es| - 1];
      PushedAllPlaced(hash, n, init);
      assert forall x :: 0 <= x < |init| ==> es[x] == init[x];
      FilledMore(hash, PushedAll(hash, n, init), init, e);
      assert init + [e] == es;
    }
  }

  lemma {:induction false} FlatNoKeyTwice<K, V>(hash: K -> uint32, cs: seq<Chain<K, V>>, i: nat)
    requires WellPlaced(hash, cs) && i <= |cs|
    ensures NoKeyTwice(Flat(cs[i..]))
    decreases |cs| - i
  {
    if i < |cs| {
      var rest := Flat(cs[i + 1..]);
      FlatNoKeyTwice(hash, cs, i + 1);
      assert cs[i..][1..] == cs[i + 1..];
      forall a, y | 0 <= a < |cs[i]| && 0 <= y < |rest| ensures cs[i][a].key != rest[y].key {
        FlatIn(cs[i + 1..], rest[y]);
        var j :| 0 <= j < |cs[i + 1..]| && rest[y] in cs[i + 1..][j];
        var b :| 0 <= b < |cs[i + 1 + j]| && cs[i + 1 + j][b] == rest[y];
        assert Bucket(hash, rest[y].key, |cs|) == i + 1 + j;
      }
    }
  }

  ghost predicate NoKey<K, V>(c: Chain<K, V>, k: K) { forall b :: 0 <= b < |c| ==> c[b].key != k }

  /** A chain without the entry for a key. */
  function Without<K(==), V>(c: Chain<K, V>, k: K): Chain<K, V> {
    if c == [] then [] else if c[0].key == k then c[1..] else [c[0]] + Without(c[1..], k)
  }

  lemma {:induction false} WithoutAt<K, V>(c: Chain<K, V>, a: nat)
    requires a < |c| && forall b :: 0 <= b < a ==> c[b].key != c[a].key
    ensures Without(c, c[a].key) == c[..a] + c[a + 1..]
    decreases a
  {
    if a > 0 {
      WithoutAt(c[1..], a - 1);
      assert c[0].key != c[a].key;
      assert [c[0]] + (c[1..][..a - 1] + c[1..][a..]) == c[..a] + c[a + 1..];
    }
  }

  lemma {:induction false} WithoutAbsent<K, V>(c: Chain<K, V>, k: K)
    requires NoKey(c, k)
    ensures Without(c, k) == c
  {
    if c != [] { WithoutAbsent(c[1..], k); }
  }

  /** The chains from `i` on. */
  ghost function Rest<K, V>(cs: seq<Chain<K, V>>, i: int): Chain<K, V> {
    if 0 <= i <= |cs| then Flat(cs[i..]) else []
  }

  lemma RestStep<K, V>(cs: seq<Chain<K, V>>, i: nat)
    requires i < |cs|
    ensures Rest(cs, i) == cs[i] + Rest(cs, i + 1)
  {
    assert cs[i..][1..] == cs[i + 1..];
  }

  lemma {:induction false} WithoutTail<K, V>(x: Chain<K, V>, y: Chain<K, V>, k: K)
    requires NoKey(y, k)
    ensures Without(x + y, k) == Without(x, k) + y
  {
    if x == [] {
      assert x + y == y;
      WithoutAbsent(y, k);
    } else {
      assert (x + y)[0] == x[0] && (x + y)[1..] == x[1..] + y;
      WithoutTail(x[1..], y, k);
    }
  }

  /** Chains that do not hold a key are untouched by its removal. */
  lemma {:induction false} RestWithout<K, V>(cs: seq<Chain<K, V>>, cs': seq<Chain<K, V>>, i: nat, k: K)
    requires |cs'| == |cs| && (forall j :: 0 <= j < |cs| ==> cs'[j] == Without(cs[j], k))
    requires i <= |cs| && NoKey(Rest(cs, i), k)
    ensures Rest(cs', i) == Rest(cs, i)
    decreases |cs| - i
  {
    if i < |cs| {
      RestStep(cs, i);
      RestStep(cs', i);
      NoKeySplit(cs[i], Rest(cs, i + 1), k);
      WithoutAbsent(cs[i], k);
      RestWithout(cs, cs', i + 1, k);
    }
  }

  lemma NoKeySplit<K, V>(x: Chain<K, V>, y: Chain<K, V>, k: K)
    requires NoKey(x + y, k)
    ensures NoKey(x, k) && NoKey(y, k)
  {
    forall b | 0 <= b < |x| ensures x[b].key != k { assert (x + y)[b] == x[b]; }
    forall b | 0 <= b < |y| ensures y[b].key != k { assert (x + y)[|x| + b] == y[b]; }
  }

  function Removed<K, V>(cs: seq<Chain<K, V>>, h: nat, a: nat): seq<Chain<K, V>>
    requires h < |cs| && a < |cs[h]|
  {
    cs[h := cs[h][..a] + cs[h][a + 1..]]
  }

  /** Taking the entry for a key out of its chain, seen from all chains. */
  lemma RemovedWithout<K, V>(hash: K -> uint32, cs: seq<Chain<K, V>>, h: nat, a: nat)
    requires WellPlaced(hash, cs) && h < |cs| && a < |cs[h]|
    ensures forall i :: 0 <= i < |cs| ==> Removed(cs, h, a)[i] == Without(cs[i], cs[h][a].key)
  {
    forall i | 0 <= i < |cs| ensures Removed(cs, h, a)[i] == Without(cs[i], cs[h][a].key) {
      if i == h {
        WithoutAt(cs[h], a);
      } else {
        forall b | 0 <= b < |cs[i]| ensures cs[i][b].key != cs[h][a].key { OnePlace(hash, cs, i, b, h, a); }
        WithoutAbsent(cs[i], cs[h][a].key);
      }
    }
  }

  /** Taking one entry out of its chain leaves the rest in place. */
  lemma RemovedPlaced<K, V>(hash: K -> uint32, cs: seq<Chain<K, V>>, h: nat, a: nat)
    requires WellPlaced(hash, cs) && h < |cs| && a < |cs[h]|
    ensures WellPlaced(hash, Removed(cs, h, a)) && |Flat(Removed(cs, h, a))| == |Flat(cs)| - 1
  {
    var c' := cs[h][..a] + cs[h][a + 1..];
    FlatUpdate(cs, h, c');
    assert forall b :: 0 <= b < |c'| ==> c'[b] == cs[h][if b < a then b else b + 1];
  }

  /** Where the entry at place `(i, a)` comes in the order of the whole table. */
  lemma FlatAt<K, V>(cs: seq<Chain<K, V>>, i: nat, a: nat)
    requires i < |cs| && a < |cs[i]|
    ensures var n := |Flat(cs[..i])| + a; n < |Flat(cs)| && Flat(cs)[n] == cs[i][a]
  {
    FlatUpdate(cs, i, cs[i]);
  }

  lemma FlatStep<K, V>(cs: seq<Chain<K, V>>, i: nat)
    requires i < |cs|
    ensures |Flat(cs[..i + 1])| == |Flat(cs[..i])| + |cs[i]| <= |Flat(cs)|
  {
    FlatSplit(cs[..i + 1], i);
    assert cs[..i + 1][..i] == cs[..i] && cs[..i + 1][i..] == [cs[i]];
    assert Flat([cs[i]]) == cs[i];
    FlatSplit(cs, i + 1);
  }

  lemma Elsewhere<K, V>(hash: K -> uint32, cs: seq<Chain<K, V>>, i: nat, a: nat)
    requires WellPlaced(hash, cs) && i < |cs| && a < |cs[i]|
    ensures forall j, b :: 0 <= j < |cs| && 0 <= b < |cs[j]| && (j != i || b != a) ==> cs[j][b] != cs[i][a]
  {
    forall j, b | 0 <= j < |cs| && 0 <= b < |cs[j]| && (j != i || b != a) ensures cs[j][b] != cs[i][a] {
      OnePlace(hash, cs, i, a, j, b);
    }
  }

  lemma NotYetMoved<K, V>(hash: K -> uint32, n: nat, es: Chain<K, V>, done: nat)
    requires n > 0 && NoKeyTwice(es) && done < |es|
    ensures var cs := PushedAll(hash, n, es[..done]);
            forall i, a :: 0 <= i < |cs| && 0 <= a < |cs[i]| ==> cs[i][a] != es[done]
    ensures PushedAll(hash, n, es[..done + 1]) == Pushed(hash, PushedAll(hash, n, es[..done]), es[done])
  {
    PushedAllPlaced(hash, n, es[..done]);
    assert es[..done + 1][..done] == es[..done];
  }

  /** Rehashing the chains into `n` slots has come to entry `a` of chain `i`: `cs` is built so far. */
  ghost predicate Midway<K, V>(hash: K -> uint32, chains: seq<Chain<K, V>>, n: nat, cs: seq<Chain<K, V>>, i: nat, a: nat) {
    && n > 0 && WellPlaced(hash, chains)
    && i <= |chains| && (if i < |chains| then a <= |chains[i]| else a == 0)
    && Position(chains, i, a) <= |Flat(chains)|
    && cs == PushedAll(hash, n, Flat(chains)[..Position(chains, i, a)])
  }

  /** How many entries come before entry `a` of chain `i`. */
  ghost function Position<K, V>(chains: seq<Chain<K, V>>, i: nat, a: nat): nat
    requires i <= |chains|
  {
    |Flat(chains[..i])| + a
  }

  lemma MidwayStart<K, V>(hash: K -> uint32, chains: seq<Chain<K, V>>, n: nat)
    requires n > 0 && WellPlaced(hash, chains)
    ensures Midway(hash, chains, n, PushedAll(hash, n, []), 0, 0) && Position(chains, 0, 0) == 0
  {
    assert chains[..0] == [] && Flat(chains)[..0] == [];
  }

  /** The next entry is not in the new chains yet, nor anywhere else in the old ones. */
  lemma MidwayStep<K, V>(hash: K -> uint32, chains: seq<Chain<K, V>>, n: nat, cs: seq<Chain<K, V>>, i: nat, a: nat)
    requires Midway(hash, chains, n, cs, i, a) && i < |chains| && a < |chains[i]|
    ensures |cs| == n && Midway(hash, chains, n, Pushed(hash, cs, chains[i][a]), i, a + 1)
    ensures forall g, b :: 0 <= g < |cs| && 0 <= b < |cs[g]| ==> cs[g][b] != chains[i][a]
    ensures forall j, b :: 0 <= j < |chains| && 0 <= b < |chains[j]| && (j != i || b != a) ==> chains[j][b] != chains[i][a]
    ensures Position(chains, i, a) < |Flat(chains)|
  {
    FlatNoKeyTwice(hash, chains, 0);
    assert chains[0..] == chains;
    FlatAt(chains, i, a);
    Elsewhere(hash, chains, i, a);
    NotYetMoved(hash, n, Flat(chains), Position(chains, i, a));
  }

  lemma MidwayNext<K, V>(hash: K -> uint32, chains: seq<Chain<K, V>>, n: nat, cs: seq<Chain<K, V>>, i: nat)
    requires i < |chains| && Midway(hash, chains, n, cs, i, |chains[i]|)
    ensures Midway(hash, chains, n, cs, i + 1, 0) && Position(chains, i + 1, 0) == Position(chains, i, |chains[i]|)
  {
    FlatStep(chains, i);
  }

  /** All entries moved: they are all there, once, and in place. */
  lemma MidwayEnd<K, V>(hash: K -> uint32, chains: seq<Chain<K, V>>, n: nat, cs: seq<Chain<K, V>>, i: nat)
    requires Midway(hash, chains, n, cs, i, 0) && (i == |chains| || Position(chains, i, 0) == |Flat(chains)|)
    ensures Position(chains, i, 0) == |Flat(chains)| == |Flat(cs)|
    ensures |cs| == n && WellPlaced(hash, cs) && Holds(hash, cs, Flat(chains))
    ensures cs == PushedAll(hash, n, Flat(chains))
  {
    assert i == |chains| ==> chains[..i] == chains;
    assert Flat(chains)[..|Flat(chains)|] == Flat(chains);
    FlatNoKeyTwice(hash, chains, 0);
    assert chains[0..] == chains;
    PushedAllPlaced(hash, n, Flat(chains));
  }
}
