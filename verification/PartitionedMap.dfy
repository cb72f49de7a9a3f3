/**
 `safe_map_partitioned_t`: a sorted map split over partitions, used as if it were one sorted map.

 A container (`std::map`) is its ascending sequence of pairs.
 */
module SortedContainer {
  import opened Basics

  type Container<V> = seq<(int, V)>

  predicate Ascending<V>(s: Container<V>) {
    forall i, j :: 0 <= i < j < |s| ==> s[i].0 < s[j].0
  }

  predicate AllBelow<V>(s: Container<V>, k: int) { forall i :: 0 <= i < |s| ==> s[i].0 < k }
  predicate AllAbove<V>(s: Container<V>, k: int) { forall i :: 0 <= i < |s| ==> k < s[i].0 }

  /** `lower_bound`: the first position whose key is not below `k`. */
  function Lower<V>(s: Container<V>, k: int): (r: nat)
    ensures r <= |s| && (forall i :: 0 <= i < r ==> s[i].0 < k) && (r < |s| ==> k <= s[r].0)
  {
    if s == [] || k <= s[0].0 then 0 else 1 + Lower(s[1..], k)
  }

  /** `upper_bound`: the first position whose key is above `k`. */
  function Upper<V>(s: Container<V>, k: int): (r: nat)
    ensures r <= |s| && (forall i :: 0 <= i < r ==> s[i].0 <= k) && (r < |s| ==> k < s[r].0)
  {
    if s == [] || k < s[0].0 then 0 else 1 + Upper(s[1..], k)
  }

  /** `emplace`: keeps the old value if the key is there. */
  function Emplaced<V>(s: Container<V>, k: int, v: V): Container<V> {
    var l := Lower(s, k);
    if l < |s| && s[l].0 == k then s else s[..l] + [(k, v)] + s[l..]
  }

  /** An ascending container is a set of pairs, and emplacing adds the pair if its key is new. */
  lemma EmplacedPairs<V(!new)>(s: Container<V>, k: int, v: V)
    requires Ascending(s)
    ensures Ascending(Emplaced(s, k, v))
    ensures forall q :: q in Emplaced(s, k, v) <==> q in s || (q == (k, v) && forall w :: (k, w) !in s)
  {
    var l := Lower(s, k);
    if l < |s| && s[l].0 == k {
      assert (k, s[l].1) in s;
    } else {
      KeyAbsent(s, l, k);
      InsertedPairs(s[..l], (k, v), s[l..], s);
    }
  }

  lemma KeyAbsent<V(!new)>(s: Container<V>, l: nat, k: int)
    requires Ascending(s) && l <= |s| && (forall i :: 0 <= i < l ==> s[i].0 < k) && (l < |s| ==> k < s[l].0)
    ensures AllBelow(s[..l], k) && AllAbove(s[l..], k) && s == s[..l] + s[l..]
    ensures forall w :: (k, w) !in s
  {
    forall i | 0 <= i < |s| ensures s[i].0 != k {}
  }

  lemma InsertedPairs<V(!new)>(a: Container<V>, x: (int, V), b: Container<V>, s: Container<V>)
    requires s == a + b && Ascending(s) && AllBelow(a, x.0) && AllAbove(b, x.0)
    ensures Ascending(a + [x] + b)
    ensures forall q :: q in a + [x] + b <==> q in s || q == x
  {
    assert forall i :: 0 <= i < |a| ==> s[i] == a[i];
    assert forall i :: 0 <= i < |b| ==> s[|a| + i] == b[i];
  }

  // ---------------------------------------------------------------- ranges

  predicate InRange(k: int, low: int, up: int) { low <= k <= up }

  /** What a range query means: the pairs whose key is in the range, in order; and the others. */
  function Inside<V>(s: Container<V>, low: int, up: int): Container<V> {
    if s == [] then [] else (if InRange(s[0].0, low, up) then [s[0]] else []) + Inside(s[1..], low, up)
  }

  function Outside<V>(s: Container<V>, low: int, up: int): Container<V> {
    if s == [] then [] else (if InRange(s[0].0, low, up) then [] else [s[0]]) + Outside(s[1..], low, up)
  }

  lemma ConcatHead<T>(a: seq<T>, b: seq<T>)
    requires a != []
    ensures (a + b)[0] == a[0] && (a + b)[1..] == a[1..] + b
  {
  }

  lemma {:induction false} InsideOfConcat<V>(a: Container<V>, b: Container<V>, low: int, up: int)
    ensures Inside(a + b, low, up) == Inside(a, low, up) + Inside(b, low, up)
  {
    if a == [] {
      assert a + b == b;
    } else {
      ConcatHead(a, b);
      InsideOfConcat(a[1..], b, low, up);
      Regroup(if InRange(a[0].0, low, up) then [a[0]] else [], Inside(a[1..], low, up), Inside(b, low, up));
    }
  }

  lemma {:induction false} OutsideOfConcat<V>(a: Container<V>, b: Container<V>, low: int, up: int)
    ensures Outside(a + b, low, up) == Outside(a, low, up) + Outside(b, low, up)
  {
    if a == [] {
      assert a + b == b;
    } else {
      ConcatHead(a, b);
      OutsideOfConcat(a[1..], b, low, up);
      Regroup(if InRange(a[0].0, low, up) then [] else [a[0]], Outside(a[1..], low, up), Outside(b, low, up));
    }
  }

  lemma {:induction false} NothingInside<V>(s: Container<V>, low: int, up: int)
    requires AllBelow(s, low) || AllAbove(s, up)
    ensures Inside(s, low, up) == [] && Outside(s, low, up) == s
  {
    if s != [] { NothingInside(s[1..], low, up); }
  }

  lemma RangePositions<V>(s: Container<V>, low: int, up: int)
    requires Ascending(s) && low <= up
    ensures Delimits(s, Lower(s, low), Upper(s, up), low, up)
  {
  }

  /** Exactly the positions from `l` to `u` are in the range. */
  predicate Delimits<V>(s: Container<V>, l: nat, u: nat, low: int, up: int) {
    l <= u <= |s| && forall i :: 0 <= i < |s| ==> (l <= i < u <==> InRange(s[i].0, low, up))
  }

  lemma SliceBehindHead<T>(s: seq<T>, l: nat, u: nat)
    requires 0 < l <= u <= |s|
    ensures s[1..][l - 1..u - 1] == s[l..u]
  {
  }

  lemma SliceWithHead<T>(s: seq<T>, u: nat)
    requires 0 < u <= |s|
    ensures [s[0]] + s[1..][0..u - 1] == s[0..u]
  {
  }

  lemma {:induction false} InsideDelimited<V>(s: Container<V>, l: nat, u: nat, low: int, up: int)
    requires Delimits(s, l, u, low, up)
    ensures Inside(s, low, up) == s[l..u]
    decreases |s|
  {
    if s != [] {
      assert InRange(s[0].0, low, up) <==> l == 0 < u;
      if l > 0 {
        InsideDelimited(s[1..], l - 1, u - 1, low, up);
        SliceBehindHead(s, l, u);
      } else if u > 0 {
        InsideDelimited(s[1..], 0, u - 1, low, up);
        SliceWithHead(s, u);
      } else {
        InsideDelimited(s[1..], 0, 0, low, up);
      }
    }
  }

  lemma CutBehindHead<T>(s: seq<T>, l: nat, u: nat)
    requires 0 < l <= u <= |s|
    ensures [s[0]] + (s[1..][..l - 1] + s[1..][u - 1..]) == s[..l] + s[u..]
  {
    assert s[1..][u - 1..] == s[u..];
    assert [s[0]] + s[1..][..l - 1] == s[..l];
    assert [s[0]] + (s[1..][..l - 1] + s[u..]) == [s[0]] + s[1..][..l - 1] + s[u..];
  }

  lemma CutFront<T>(s: seq<T>, u: nat)
    requires 0 < u <= |s|
    ensures s[1..][..0] + s[1..][u - 1..] == s[..0] + s[u..]
  {
    assert s[1..][u - 1..] == s[u..];
  }

  lemma CutNothing<T>(s: seq<T>)
    requires s != []
    ensures [s[0]] + (s[1..][..0] + s[1..][0..]) == s[..0] + s[0..]
  {
  }

  lemma {:induction false} OutsideDelimited<V>(s: Container<V>, l: nat, u: nat, low: int, up: int)
    requires Delimits(s, l, u, low, up)
    ensures Outside(s, low, up) == s[..l] + s[u..]
    decreases |s|
  {
    if s != [] {
      assert InRange(s[0].0, low, up) <==> l == 0 < u;
      if l > 0 {
        OutsideDelimited(s[1..], l - 1, u - 1, low, up);
        CutBehindHead(s, l, u);
      } else if u > 0 {
        OutsideDelimited(s[1..], 0, u - 1, low, up);
        CutFront(s, u);
      } else {
        OutsideDelimited(s[1..], 0, 0, low, up);
        CutNothing(s);
      }
    }
  }

  /** How the code finds them: the positions between two bounds. */
  lemma BoundsDelimitRange<V>(s: Container<V>, low: int, up: int)
    requires Ascending(s) && low <= up
    ensures Lower(s, low) <= Upper(s, up)
    ensures s[Lower(s, low)..Upper(s, up)] == Inside(s, low, up)
    ensures s[..Lower(s, low)] + s[Upper(s, up)..] == Outside(s, low, up)
  {
    RangePositions(s, low, up);
    InsideDelimited(s, Lower(s, low), Upper(s, up), low, up);
    OutsideDelimited(s, Lower(s, low), Upper(s, up), low, up);
  }

  lemma ConsAscending<V(!new)>(q: (int, V), s: Container<V>, t: Container<V>)
    requires Ascending([q] + s) && Ascending(t) && forall x :: x in t ==> x in s
    ensures Ascending([q] + t)
  {
    forall j | 0 <= j < |t| ensures q.0 < t[j].0 {
      assert t[j] in t;
      assert ([q] + s)[0] == q;
      var i :| 0 <= i < |s| && s[i] == t[j];
      assert ([q] + s)[i + 1] == t[j];
    }
  }

  lemma {:induction false} InsidePairs<V(!new)>(s: Container<V>, low: int, up: int)
    requires Ascending(s)
    ensures Ascending(Inside(s, low, up))
    ensures forall q :: q in Inside(s, low, up) <==> q in s && InRange(q.0, low, up)
  {
    if s != [] {
      assert s == [s[0]] + s[1..];
      var t := Inside(s[1..], low, up);
      InsidePairs(s[1..], low, up);
      ConsAscending(s[0], s[1..], t);
    }
  }

  lemma {:induction false} OutsidePairs<V(!new)>(s: Container<V>, low: int, up: int)
    requires Ascending(s)
    ensures Ascending(Outside(s, low, up))
    ensures forall q :: q in Outside(s, low, up) <==> q in s && !InRange(q.0, low, up)
  {
    if s != [] {
      assert s == [s[0]] + s[1..];
      var t := Outside(s[1..], low, up);
      OutsidePairs(s[1..], low, up);
      ConsAscending(s[0], s[1..], t);
    }
  }

  lemma AtMostOne<V(!new)>(s: Container<V>, k: int)
    requires Ascending(s)
    ensures |Inside(s, k, k)| == if exists v :: (k, v) in s then 1 else 0
  {
    InsidePairs(s, k, k);
    SingleKey(Inside(s, k, k), s, k);
  }

  lemma SingleKey<V(!new)>(r: Container<V>, s: Container<V>, k: int)
    requires Ascending(r) && forall q :: q in r <==> q in s && InRange(q.0, k, k)
    ensures |r| == if exists v :: (k, v) in s then 1 else 0
  {
    forall i | 0 <= i < |r| ensures r[i] == (k, r[i].1) && r[i] in s { assert r[i] in r; }
    assert |r| > 1 ==> r[0].0 < r[1].0;
    assert |r| > 0 ==> (k, r[0].1) in s;
    if v :| (k, v) in s { assert (k, v) in r; }
  }

  // ---------------------------------------------------------------- concatenation

  lemma LowerIs<V>(s: Container<V>, k: int, r: nat)
    requires r <= |s| && (forall i :: 0 <= i < r ==> s[i].0 < k) && (r < |s| ==> k <= s[r].0)
    ensures Lower(s, k) == r
  {
  }

  lemma InsertInMiddle<T>(a: seq<T>, b: seq<T>, c: seq<T>, l: nat, x: T)
    requires l <= |b|
    ensures var s := a + b + c; s[..|a| + l] + [x] + s[|a| + l..] == a + (b[..l] + [x] + b[l..]) + c
  {
    var s := a + b + c;
    assert s[..|a| + l] == a + b[..l];
    assert s[|a| + l..] == b[l..] + c;
  }

  lemma LowerInMiddle<V>(a: Container<V>, b: Container<V>, c: Container<V>, k: int)
    requires AllBelow(a, k) && AllAbove(c, k)
    ensures Lower(a + b + c, k) == |a| + Lower(b, k)
  {
    LowerIs(a + b + c, k, |a| + Lower(b, k));
  }

  /** Emplacing into the middle container of a sorted whole that has the key's place in it. */
  lemma EmplacedInMiddle<V>(a: Container<V>, b: Container<V>, c: Container<V>, k: int, v: V)
    requires AllBelow(a, k) && AllAbove(c, k)
    ensures Emplaced(a + b + c, k, v) == a + Emplaced(b, k, v) + c
  {
    var l := Lower(b, k);
    LowerInMiddle(a, b, c, k);
    MiddleAt(a, b, c, l);
    InsertInMiddle(a, b, c, l, (k, v));
  }

  lemma MiddleAt<T>(a: seq<T>, b: seq<T>, c: seq<T>, l: nat)
    requires l <= |b|
    ensures l < |b| ==> (a + b + c)[|a| + l] == b[l]
    ensures l == |b| && c != [] ==> (a + b + c)[|a| + l] == c[0]
  {
  }
}

/** The partitions, and the class over them. */
module PartitionedMap {
  import Basics
  import opened SortedContainer

  /** The partition table is itself a sorted map, from bound to container. */
  type Table<V> = Container<Container<V>>

  /** `part_it`: the first partition whose bound is not below the key, else the last. */
  function PartIt<V>(part: Table<V>, k: int): (p: nat)
    requires part != []
    ensures p < |part|
  {
    var l := Lower(part, k);
    if l == |part| then l - 1 else l
  }

  /** Which partition that is, by the bounds: the key is above all bounds before it, and not above
      its own bound unless it is the last. */
  lemma PartItIff<V>(part: Table<V>, k: int, p: nat)
    requires part != [] && Ascending(part) && p < |part|
    ensures PartIt(part, k) == p
       <==> (forall x :: 0 <= x < p ==> part[x].0 < k) && (k <= part[p].0 || p == |part| - 1)
  {
    var l := Lower(part, k);
    if l < |part| && p > l { assert k <= part[l].0; }
    if p < l { assert part[p].0 < k; }
  }

  /** Containers are sorted, and every key sits in the partition that `part_it` picks for it. */
  ghost predicate Sound<V>(part: Table<V>) {
    && part != [] && Ascending(part)
    && (forall p :: 0 <= p < |part| ==> Ascending(part[p].1))
    && (forall p, i :: 0 <= p < |part| && 0 <= i < |part[p].1| ==> PartIt(part, part[p].1[i].0) == p)
  }

  /** The partitions one after the other. */
  function Flat<V>(part: Table<V>): Container<V> {
    if part == [] then [] else part[0].1 + Flat(part[1..])
  }

  function Containers<V>(part: Table<V>): seq<Container<V>> {
    seq(|part|, i requires 0 <= i < |part| => part[i].1)
  }

  lemma {:induction false} FlatContainers<V>(part: Table<V>)
    ensures Flat(part) == Basics.Flat(Containers(part))
  {
    if part != [] {
      FlatContainers(part[1..]);
      assert Containers(part)[1..] == Containers(part[1..]);
    }
  }

  lemma FlatSplit<V>(part: Table<V>, p: nat)
    requires p <= |part|
    ensures Flat(part) == Flat(part[..p]) + Flat(part[p..])
  {
    FlatContainers(part);
    FlatContainers(part[..p]);
    FlatContainers(part[p..]);
    Basics.FlatSplit(Containers(part), p);
    assert Containers(part)[..p] == Containers(part[..p]);
    assert Containers(part)[p..] == Containers(part[p..]);
  }

  /** Whatever holds of every stored pair of a stretch of partitions holds of their concatenation. */
  lemma {:induction false} FlatMember<V>(part: Table<V>, j: nat) returns (p: nat, i: nat)
    requires j < |Flat(part)|
    ensures p < |part| && i < |part[p].1| && part[p].1[i] == Flat(part)[j]
  {
    if j < |part[0].1| {
      p, i := 0, j;
    } else {
      p, i := FlatMember(part[1..], j - |part[0].1|);
      p := p + 1;
    }
  }

  /** The partitions before that of `k` hold smaller keys, and those after it larger ones. */
  lemma BelowPartition<V>(part: Table<V>, p: nat, k: int)
    requires Sound(part) && p <= PartIt(part, k)
    ensures AllBelow(Flat(part[..p]), k)
  {
    forall j | 0 <= j < |Flat(part[..p])| ensures Flat(part[..p])[j].0 < k {
      var x, i := FlatMember(part[..p], j);
      assert PartIt(part, part[x].1[i].0) == x < PartIt(part, k);
    }
  }

  lemma AbovePartition<V>(part: Table<V>, p: nat, k: int)
    requires Sound(part) && PartIt(part, k) < p <= |part|
    ensures AllAbove(Flat(part[p..]), k)
  {
    forall j | 0 <= j < |Flat(part[p..])| ensures k < Flat(part[p..])[j].0 {
      var x, i := FlatMember(part[p..], j);
      assert PartIt(part, part[p + x].1[i].0) == p + x > PartIt(part, k);
    }
  }

  lemma {:induction false} FlatAscending<V>(part: Table<V>, p: nat)
    requires Sound(part) && p <= |part|
    ensures Ascending(Flat(part[p..]))
    decreases |part| - p
  {
    if p < |part| {
      FlatAscending(part, p + 1);
      assert part[p..][1..] == part[p + 1..];
      forall i | 0 <= i < |part[p].1| ensures AllAbove(Flat(part[p + 1..]), part[p].1[i].0) {
        AbovePartition(part, p + 1, part[p].1[i].0);
      }
    }
  }

  // ---------------------------------------------------------------- updates of one partition

  ghost predicate SameBounds<V>(part: Table<V>, part': Table<V>) {
    |part'| == |part| && forall p :: 0 <= p < |part| ==> part'[p].0 == part[p].0
  }

  function Replaced<V>(part: Table<V>, p: nat, c: Container<V>): Table<V>
    requires p < |part|
  {
    part[p := (part[p].0, c)]
  }

  lemma FlatAround<V>(part: Table<V>, p: nat)
    requires p < |part|
    ensures Flat(part) == Flat(part[..p]) + part[p].1 + Flat(part[p + 1..])
  {
    FlatSplit(part, p);
    assert part[p..][1..] == part[p + 1..];
    assert Flat(part[..p]) + (part[p].1 + Flat(part[p + 1..])) == Flat(part[..p]) + part[p].1 + Flat(part[p + 1..]);
  }

  lemma FlatReplaced<V>(part: Table<V>, p: nat, c: Container<V>)
    requires p < |part|
    ensures Flat(Replaced(part, p, c)) == Flat(part[..p]) + c + Flat(part[p + 1..])
  {
    var part' := Replaced(part, p, c);
    FlatAround(part', p);
    assert part'[..p] == part[..p] && part'[p + 1..] == part[p + 1..];
  }

  lemma LowerSameKeys<U, V>(s: Container<U>, t: Container<V>, k: int)
    requires |s| == |t| && forall i :: 0 <= i < |s| ==> s[i].0 == t[i].0
    ensures Lower(s, k) == Lower(t, k)
  {
    LowerIs(s, k, Lower(t, k));
  }

  /** New containers over the old bounds, each sorted and with keys of its own partition. */
  lemma SoundUpdate<V>(part: Table<V>, part': Table<V>)
    requires Sound(part) && SameBounds(part, part')
    requires forall p :: 0 <= p < |part| ==> Ascending(part'[p].1)
    requires forall p, i :: 0 <= p < |part| && 0 <= i < |part'[p].1| ==> PartIt(part, part'[p].1[i].0) == p
    ensures Sound(part')
  {
    forall k ensures PartIt(part', k) == PartIt(part, k) { LowerSameKeys(part, part', k); }
  }

  lemma StoredWhereDue<V>(part: Table<V>, p: nat, q: (int, V))
    requires Sound(part) && p < |part| && q in part[p].1
    ensures PartIt(part, q.0) == p
  {
  }

  /** Emplacing in the key's partition is emplacing in the one plain map. */
  lemma EmplaceRefines<V(!new)>(part: Table<V>, k: int, v: V)
    requires Sound(part)
    ensures var p := PartIt(part, k);
            var part' := Replaced(part, p, Emplaced(part[p].1, k, v));
            Sound(part') && Flat(part') == Emplaced(Flat(part), k, v)
  {
    var p := PartIt(part, k);
    var c := Emplaced(part[p].1, k, v);
    EmplacedPairs(part[p].1, k, v);
    forall i | 0 <= i < |c| ensures PartIt(part, c[i].0) == p {
      assert c[i] in c;
      if c[i] in part[p].1 { StoredWhereDue(part, p, c[i]); }
    }
    SoundUpdate(part, Replaced(part, p, c));
    FlatAround(part, p);
    FlatReplaced(part, p, c);
    BelowPartition(part, p, k);
    AbovePartition(part, p + 1, k);
    EmplacedInMiddle(Flat(part[..p]), part[p].1, Flat(part[p + 1..]), k, v);
  }

  // ---------------------------------------------------------------- ranges over the partitions

  /** Every container with the range cut out. */
  ghost predicate CutEverywhere<V>(part: Table<V>, part': Table<V>, low: int, up: int) {
    |part'| == |part| &&
    forall p :: 0 <= p < |part| ==> part'[p] == (part[p].0, Outside(part[p].1, low, up))
  }

  lemma {:induction false} CutFlat<V>(part: Table<V>, part': Table<V>, low: int, up: int)
    requires CutEverywhere(part, part', low, up)
    ensures Flat(part') == Outside(Flat(part), low, up)
  {
    if part != [] {
      CutFlat(part[1..], part'[1..], low, up);
      OutsideOfConcat(part[0].1, Flat(part[1..]), low, up);
    }
  }

  lemma CutSound<V(!new)>(part: Table<V>, part': Table<V>, low: int, up: int)
    requires Sound(part) && CutEverywhere(part, part', low, up)
    ensures Sound(part')
  {
    forall p | 0 <= p < |part|
      ensures Ascending(part'[p].1)
      ensures forall i :: 0 <= i < |part'[p].1| ==> PartIt(part, part'[p].1[i].0) == p
    {
      OutsidePairs(part[p].1, low, up);
      forall i | 0 <= i < |part'[p].1| ensures PartIt(part, part'[p].1[i].0) == p {
        assert part'[p].1[i] in part'[p].1;
        StoredWhereDue(part, p, part'[p].1[i]);
      }
    }
    SoundUpdate(part, part');
  }

  /** A partition that the walk from `low` to `up` does not visit has nothing in the range. */
  lemma UnvisitedPartition<V>(part: Table<V>, p: nat, low: int, up: int)
    requires Sound(part) && p < |part| && (p < PartIt(part, low) || PartIt(part, up) < p)
    ensures Inside(part[p].1, low, up) == [] && Outside(part[p].1, low, up) == part[p].1
  {
    var c := part[p].1;
    forall i | 0 <= i < |c| ensures p < PartIt(part, low) ==> c[i].0 < low { StoredWhereDue(part, p, c[i]); }
    forall i | 0 <= i < |c| ensures PartIt(part, up) < p ==> up < c[i].0 { StoredWhereDue(part, p, c[i]); }
    NothingInside(c, low, up);
  }

  /** The range is cut out of the partitions from `start` up to `it`. */
  ghost predicate CutUpTo<V>(part: Table<V>, part': Table<V>, start: nat, it: nat, low: int, up: int) {
    && start <= it <= |part| == |part'|
    && (forall p :: start <= p < it ==> part'[p] == (part[p].0, Outside(part[p].1, low, up)))
    && (forall p :: 0 <= p < |part| && !(start <= p < it) ==> part'[p] == part[p])
  }

  lemma CutOne<V>(part: Table<V>, part': Table<V>, start: nat, it: nat, low: int, up: int)
    requires Sound(part) && CutUpTo(part, part', start, it, low, up) && it < |part| && low <= up
    ensures var c := part'[it].1;
            && Lower(c, low) <= Upper(c, up)
            && CutUpTo(part, Replaced(part', it, c[..Lower(c, low)] + c[Upper(c, up)..]), start, it + 1, low, up)
  {
    BoundsDelimitRange(part[it].1, low, up);
  }

  /** Cutting the range out of the visited partitions cuts it out of all of them. */
  lemma CutByWalk<V(!new)>(part: Table<V>, part': Table<V>, end: nat, low: int, up: int)
    requires Sound(part) && PartIt(part, up) < end && CutUpTo(part, part', PartIt(part, low), end, low, up)
    ensures Sound(part') && Flat(part') == Outside(Flat(part), low, up)
  {
    forall p | 0 <= p < |part| && !(PartIt(part, low) <= p < end)
      ensures part'[p] == (part[p].0, Outside(part[p].1, low, up))
    {
      UnvisitedPartition(part, p, low, up);
    }
    CutFlat(part, part', low, up);
    CutSound(part, part', low, up);
  }

  /** The walk ends one past `upper_bound(up)`, which is past the partition of `up`. */
  function WalkEnd<V>(part: Table<V>, up: int): (e: nat)
    requires part != []
    ensures PartIt(part, up) < e <= |part|
  {
    var u := Upper(part, up);
    WalkReaches(part, up);
    if u == |part| then u else u + 1
  }

  lemma WalkReaches<V>(part: Table<V>, up: int)
    requires part != []
    ensures Lower(part, up) <= Upper(part, up)
  {
  }

  lemma {:induction false} InsideOfStretch<V>(part: Table<V>, a: nat, b: nat, low: int, up: int)
    requires Sound(part) && a <= PartIt(part, low) && PartIt(part, up) < b <= |part| && a <= b
    ensures Inside(Flat(part), low, up) == Inside(Flat(part[a..b]), low, up)
  {
    FlatSplit(part, b);
    FlatSplit(part[..b], a);
    assert part[..b][..a] == part[..a] && part[..b][a..] == part[a..b];
    InsideOfConcat(Flat(part[..b]), Flat(part[b..]), low, up);
    InsideOfConcat(Flat(part[..a]), Flat(part[a..b]), low, up);
    BelowPartition(part, a, low);
    AbovePartition(part, b, up);
    NothingInside(Flat(part[..a]), low, up);
    NothingInside(Flat(part[b..]), low, up);
  }

  lemma StartBeforeEnd<V>(part: Table<V>, low: int, up: int)
    requires part != [] && low <= up
    ensures PartIt(part, low) <= PartIt(part, up)
  {
  }

  lemma StretchGrows<V>(part: Table<V>, a: nat, b: nat, low: int, up: int)
    requires a <= b < |part|
    ensures Inside(Flat(part[a..b + 1]), low, up) ==
            Inside(Flat(part[a..b]), low, up) + Inside(part[b].1, low, up)
  {
    var s := part[a..b + 1];
    FlatSplit(s, b - a);
    assert s[..b - a] == part[a..b] && s[b - a..] == [part[b]];
    assert Flat([part[b]]) == part[b].1;
    InsideOfConcat(Flat(part[a..b]), part[b].1, low, up);
  }

  lemma EqualRefines<V>(part: Table<V>, k: int)
    requires Sound(part)
    ensures var c := part[PartIt(part, k)].1;
            Lower(c, k) <= Upper(c, k) && c[Lower(c, k)..Upper(c, k)] == Inside(Flat(part), k, k)
  {
    var p := PartIt(part, k);
    BoundsDelimitRange(part[p].1, k, k);
    InsideOfStretch(part, p, p + 1, k, k);
    StretchGrows(part, p, p, k, k);
    assert part[p..p] == [];
  }

  lemma EraseRefines<V(!new)>(part: Table<V>, k: int)
    requires Sound(part)
    ensures var p := PartIt(part, k);
            var c := part[p].1;
            var (l, u) := (Lower(c, k), Upper(c, k));
            && l <= u
            && Sound(Replaced(part, p, c[..l] + c[u..]))
            && Flat(Replaced(part, p, c[..l] + c[u..])) == Outside(Flat(part), k, k)
            && u - l == if exists v :: (k, v) in Flat(part) then 1 else 0
  {
    var p := PartIt(part, k);
    var c := part[p].1;
    BoundsDelimitRange(c, k, k);
    var part' := Replaced(part, p, c[..Lower(c, k)] + c[Upper(c, k)..]);
    forall x | 0 <= x < |part| && x != p ensures part'[x] == (part[x].0, Outside(part[x].1, k, k)) {
      UnvisitedPartition(part, x, k, k);
    }
    CutFlat(part, part', k, k);
    CutSound(part, part', k, k);
    EraseCount(part, k);
  }

  lemma EraseCount<V(!new)>(part: Table<V>, k: int)
    requires Sound(part)
    ensures var c := part[PartIt(part, k)].1;
            Upper(c, k) - Lower(c, k) == if exists v :: (k, v) in Flat(part) then 1 else 0
  {
    EqualRefines(part, k);
    FlatAscending(part, 0);
    assert part[0..] == part;
    AtMostOne(Flat(part), k);
  }

  lemma FlatOfEmpty<V>(part: Table<V>)
    requires forall p :: 0 <= p < |part| ==> part[p].1 == []
    ensures Flat(part) == []
  {
    FlatContainers(part);
    Basics.FlatOfEmpty(Containers(part));
  }

  lemma EmplacedLast<V>(s: Container<V>, k: int, v: V)
    requires AllBelow(s, k)
    ensures Emplaced(s, k, v) == s + [(k, v)]
  {
    LowerIs(s, k, |s|);
  }

  /** Empty partitions at `start`, `start + step`, and so on. */
  predicate Progression<V>(part: Table<V>, start: int, step: int) {
    && Ascending(part) && part != [] && part[0].0 == start
    && (forall p :: 0 <= p < |part| ==> part[p].1 == [])
    && (forall p :: 0 < p < |part| ==> part[p].0 == part[p - 1].0 + step)
  }

  lemma ProgressionGrows<V>(part: Table<V>, start: int, step: int, i: int)
    requires step > 0
    requires if part == [] then i == start else Progression(part, start, step) && part[|part| - 1].0 == i - step
    ensures Progression(Emplaced(part, i, []), start, step)
    ensures var part' := Emplaced(part, i, []); part'[|part'| - 1].0 == i
  {
    EmplacedLast(part, i, []);
  }

  lemma EmplacedBound<V(!new)>(part: Table<V>, b: int)
    requires Ascending(part) && forall p :: 0 <= p < |part| ==> part[p].1 == []
    ensures Ascending(Emplaced(part, b, []))
    ensures forall p :: 0 <= p < |Emplaced(part, b, [])| ==> Emplaced(part, b, [])[p].1 == []
    ensures forall x :: (x, []) in Emplaced(part, b, []) <==> x == b || (x, []) in part
  {
    EmplacedPairs(part, b, []);
    if (b, []) !in part {
      forall c ensures (b, c) !in part {}
    }
  }

  /** Empty partitions, with exactly the given bounds. */
  ghost predicate EmptyAt<V>(part: Table<V>, bounds: seq<int>) {
    && Ascending(part) && (part == [] <==> bounds == [])
    && (forall p :: 0 <= p < |part| ==> part[p].1 == [])
    && (forall b :: (b, []) in part <==> b in bounds)
  }

  lemma EmptyAtMore<V(!new)>(part: Table<V>, bounds: seq<int>, b: int)
    requires EmptyAt(part, bounds)
    ensures EmptyAt(Emplaced(part, b, []), bounds + [b])
  {
    EmplacedBound(part, b);
    assert (b, []) in Emplaced(part, b, []);
  }

  lemma EmptyIsSound<V>(part: Table<V>)
    requires Ascending(part) && forall p :: 0 <= p < |part| ==> part[p].1 == []
    ensures part != [] ==> Sound(part)
    ensures Flat(part) == []
  {
    FlatOfEmpty(part);
  }

  // ---------------------------------------------------------------- the class

  /** The stretch of a container from `lower_bound(low)` to `upper_bound(up)`. */
  function Between<V>(c: Container<V>, low: int, up: int): Container<V>
    requires Ascending(c) && low <= up
  {
    RangePositions(c, low, up);
    c[Lower(c, low)..Upper(c, up)]
  }

  ghost predicate AllAscending<V>(part: Table<V>) {
    forall p :: 0 <= p < |part| ==> Ascending(part[p].1)
  }

  /** What a walk over the partitions from `it` to `end` collects. */
  function Walked<V>(part: Table<V>, it: nat, end: nat, low: int, up: int): Container<V>
    requires it <= end <= |part| && low <= up && AllAscending(part)
    decreases end - it
  {
    if it == end then [] else Between(part[it].1, low, up) + Walked(part, it + 1, end, low, up)
  }

  lemma StretchHead<T>(s: seq<T>, a: nat, b: nat)
    requires a < b <= |s|
    ensures s[a..b] != [] && s[a..b][0] == s[a] && s[a..b][1..] == s[a + 1..b]
  {
  }

  lemma {:induction false} WalkedIs<V>(part: Table<V>, it: nat, end: nat, low: int, up: int)
    requires it <= end <= |part| && low <= up && AllAscending(part)
    ensures Walked(part, it, end, low, up) == Inside(Flat(part[it..end]), low, up)
    decreases end - it
  {
    if it < end {
      WalkedIs(part, it + 1, end, low, up);
      StretchHead(part, it, end);
      BoundsDelimitRange(part[it].1, low, up);
      InsideOfConcat(part[it].1, Flat(part[it + 1..end]), low, up);
    } else {
      assert part[it..end] == [];
    }
  }

  lemma SliceGrows<T>(s: seq<T>, a: nat, b: nat)
    requires a <= b < |s|
    ensures s[a..b + 1] == s[a..b] + [s[b]]
  {
  }

  method Copied<V>(c: Container<V>, lower: nat, upper: nat) returns (result: Container<V>)
    requires lower <= upper <= |c|
    ensures result == c[lower..upper]
  {
    result := [];
    var it: nat := lower;
    while it != upper
      invariant lower <= it <= upper && result == c[lower..it]
      decreases upper - it
    {
      SliceGrows(c, lower, it);
      result := result + [c[it]];
      it := it + 1;
    }
  }

  /** The walk over the partitions, from that of `low` to one past `upper_bound(up)`. */
  method WalkRange<V>(part: Table<V>, low: int, up: int) returns (result: Container<V>)
    requires Sound(part) && low <= up
    ensures result == Inside(Flat(part), low, up)
  {
    var end: nat, start: nat := WalkEnd(part, up), PartIt(part, low);
    StartBeforeEnd(part, low, up);
    result := Gather(part, start, end, low, up);
    WalkedIs(part, start, end, low, up);
    InsideOfStretch(part, start, end, low, up);
  }

  method Gather<V>(part: Table<V>, start: nat, end: nat, low: int, up: int) returns (result: Container<V>)
    requires start <= end <= |part| && low <= up && AllAscending(part)
    ensures result == Walked(part, start, end, low, up)
  {
    result := [];
    var it: nat := start;
    while it != end
      invariant start <= it <= end
      invariant result + Walked(part, it, end, low, up) == Walked(part, start, end, low, up)
      decreases end - it
    {
      Basics.Regroup(result, Between(part[it].1, low, up), Walked(part, it + 1, end, low, up));
      result := result + Between(part[it].1, low, up);
      it := it + 1;
    }
    assert result + [] == result;
  }

  class PartitionedMap<V(!new)> {
    var partition: Table<V>

    ghost predicate Valid()
      reads this
    {
      Sound(partition)
    }

    /** The one plain sorted map that the partitions together stand for. */
    ghost function Contents(): (s: Container<V>)
      reads this
      requires Valid()
      ensures Ascending(s)
    {
      FlatAscending(partition, 0);
      assert partition[0..] == partition;
      Flat(partition)
    }

    /** One partition, bounded by the default key. */
    constructor ()
      ensures Valid() && Contents() == [] && partition == [(0, [])]
    {
      partition := [(0, [])];
    }

    /** Partitions at `start`, `start + step`, ... up to `end`; none if `start` is above `end`. */
    constructor Stepped(start: int, end: int, step: int)
      requires start <= end ==> step > 0
      ensures if start > end then partition == [] else
              && Valid() && Contents() == [] && Progression(partition, start, step)
              && partition[|partition| - 1].0 <= end < partition[|partition| - 1].0 + step
    {
      partition := [];
      new;
      var i := start;
      while i <= end
        invariant partition == [] ==> i == start
        invariant partition != [] ==> Progression(partition, start, step) && partition[|partition| - 1].0 == i - step <= end
        invariant partition != [] ==> start <= end
        decreases end - i
      {
        ProgressionGrows(partition, start, step, i);
        partition := Emplaced(partition, i, []);
        i := i + step;
      }
      EmptyIsSound(partition);
    }

    /** A partition for each listed bound, repeated bounds once. */
    constructor Listed(il: seq<int>)
      ensures il == [] ==> partition == []
      ensures il != [] ==> Valid() && Contents() == []
      ensures forall b :: (b, []) in partition <==> b in il
    {
      partition := [];
      new;
      for n := 0 to |il|
        invariant EmptyAt(partition, il[..n])
      {
        EmptyAtMore(partition, il[..n], il[n]);
        SliceGrows(il, 0, n);
        partition := Emplaced(partition, il[n], []);
      }
      assert il[..|il|] == il;
      EmptyIsSound(partition);
    }

    method Emplace(k: int, v: V)
      requires Valid()
      modifies this
      ensures Valid() && Contents() == Emplaced(old(Contents()), k, v) && SameBounds(old(partition), partition)
    {
      var p := PartIt(partition, k);
      EmplaceRefines(partition, k, v);
      partition := Replaced(partition, p, Emplaced(partition[p].1, k, v));
    }

    method Erase(k: int) returns (count: nat)
      requires Valid()
      modifies this
      ensures Valid() && Contents() == Outside(old(Contents()), k, k) && SameBounds(old(partition), partition)
      ensures count == if exists v :: (k, v) in old(Contents()) then 1 else 0
    {
      var p := PartIt(partition, k);
      var c := partition[p].1;
      var l, u := Lower(c, k), Upper(c, k);
      EraseRefines(partition, k);
      partition, count := Replaced(partition, p, c[..l] + c[u..]), u - l;
    }

    method Size() returns (size: nat)
      requires Valid()
      ensures size == |Contents()|
    {
      size := 0;
      var it := 0;
      while it < |partition|
        invariant it <= |partition| && size == |Flat(partition[..it])|
      {
        size := size + |partition[it].1|;
        FlatSplit(partition[..it + 1], it);
        assert partition[..it + 1][..it] == partition[..it] && partition[..it + 1][it..] == [partition[it]];
        it := it + 1;
      }
      assert partition[..it] == partition;
    }

    method Clear()
      requires Valid()
      modifies this
      ensures Valid() && Contents() == [] && SameBounds(old(partition), partition)
    {
      var it := 0;
      while it < |partition|
        invariant it <= |partition| == |old(partition)|
        invariant forall p :: 0 <= p < it ==> partition[p] == (old(partition[p].0), [])
        invariant forall p :: it <= p < |partition| ==> partition[p] == old(partition[p])
      {
        partition := Replaced(partition, it, []);
        it := it + 1;
      }
      SoundUpdate(old(partition), partition);
      FlatOfEmpty(partition);
    }

    method GetRangeEqual(key: int) returns (result: Container<V>)
      requires Valid()
      ensures result == Inside(Contents(), key, key)
    {
      var c := partition[PartIt(partition, key)].1;
      EqualRefines(partition, key);
      result := Copied(c, Lower(c, key), Upper(c, key));
    }

    method GetRangeLowerUpper(low: int, up: int) returns (result: Container<V>)
      requires Valid() && low <= up
      ensures result == Inside(Contents(), low, up)
    {
      result := WalkRange(partition, low, up);
    }

    method EraseLowerUpper(low: int, up: int)
      requires Valid() && low <= up
      modifies this
      ensures Valid() && Contents() == Outside(old(Contents()), low, up) && SameBounds(old(partition), partition)
    {
      var end := WalkEnd(partition, up);
      ghost var start := PartIt(partition, low);
      var it := PartIt(partition, low);
      StartBeforeEnd(partition, low, up);
      while it != end
        invariant start <= it <= end && CutUpTo(old(partition), partition, start, it, low, up)
        decreases end - it
      {
        var c := partition[it].1;
        CutOne(old(partition), partition, start, it, low, up);
        partition := Replaced(partition, it, c[..Lower(c, low)] + c[Upper(c, up)..]);
        it := it + 1;
      }
      CutByWalk(old(partition), partition, end, low, up);
    }

    method Perform(op: Op<V>) returns (answer: Answer<V>)
      requires Valid() && Allowed(op)
      modifies this
      ensures Valid() && Contents() == PlainAfter(old(Contents()), op)
      ensures answer == PlainAnswer(old(Contents()), op)
    {
      answer := Done;
      match op {
        case Emplace(k, v) => Emplace(k, v);
        case Erase(k) => var n := Erase(k); answer := Count(n);
        case Clear => Clear();
        case Size => var n := Size(); answer := Count(n);
        case Equal(k) => var r := GetRangeEqual(k); answer := Pairs(r);
        case Range(low, up) => var r := GetRangeLowerUpper(low, up); answer := Pairs(r);
        case EraseRange(low, up) => EraseLowerUpper(low, up);
      }
    }
  }

  // ---------------------------------------------------------------- whole runs

  datatype Op<V> =
    | Emplace(k: int, v: V) | Erase(k: int) | Clear | Size
    | Equal(k: int) | Range(low: int, up: int) | EraseRange(low: int, up: int)

  datatype Answer<V> = Done | Count(n: nat) | Pairs(pairs: Container<V>)

  predicate Allowed<V>(op: Op<V>) {
    op.Range? || op.EraseRange? ==> op.low <= op.up
  }

  /** What the operations do to one plain sorted map, and what it answers. */
  ghost function PlainAfter<V>(s: Container<V>, op: Op<V>): Container<V> {
    match op
    case Emplace(k, v) => Emplaced(s, k, v)
    case Erase(k) => Outside(s, k, k)
    case EraseRange(low, up) => Outside(s, low, up)
    case Clear => []
    case _ => s
  }

  ghost function PlainAnswer<V(!new)>(s: Container<V>, op: Op<V>): Answer<V> {
    match op
    case Erase(k) => Count(if exists v :: (k, v) in s then 1 else 0)
    case Size => Count(|s|)
    case Equal(k) => Pairs(Inside(s, k, k))
    case Range(low, up) => Pairs(Inside(s, low, up))
    case _ => Done
  }

  ghost function PlainAnswers<V(!new)>(s: Container<V>, ops: seq<Op<V>>): seq<Answer<V>>
    decreases |ops|
  {
    if ops == [] then [] else [PlainAnswer(s, ops[0])] + PlainAnswers(PlainAfter(s, ops[0]), ops[1..])
  }

  lemma AnswersStep<V(!new)>(s: Container<V>, ops: seq<Op<V>>, n: nat, done: seq<Answer<V>>)
    requires n < |ops|
    ensures done + PlainAnswers(s, ops[n..])
         == done + [PlainAnswer(s, ops[n])] + PlainAnswers(PlainAfter(s, ops[n]), ops[n + 1..])
  {
    assert ops[n..][1..] == ops[n + 1..];
  }

  /** Over any run, a map split at any bounds answers as one plain sorted map would, so
      the choice of the bounds never shows. */
  method Replay<V(!new)>(bounds: seq<int>, ops: seq<Op<V>>) returns (answers: seq<Answer<V>>)
    requires bounds != [] && forall i :: 0 <= i < |ops| ==> Allowed(ops[i])
    ensures answers == PlainAnswers([], ops)
  {
    var m := new PartitionedMap<V>.Listed(bounds);
    answers := [];
    for n := 0 to |ops|
      invariant fresh(m) && m.Valid()
      invariant answers + PlainAnswers(m.Contents(), ops[n..]) == PlainAnswers([], ops)
    {
      AnswersStep(m.Contents(), ops, n, answers);
      var answer := m.Perform(ops[n]);
      answers := answers + [answer];
    }
  }
}
