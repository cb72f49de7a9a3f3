/** What several components share: optional values, machine words and division. */
module Basics {
  datatype Option<+T> = None | Some(value: T)

  const UINT32 := 0x1_0000_0000
  const UINT64 := 0x1_0000_0000_0000_0000

  type uint32 = x: int | 0 <= x < 0x1_0000_0000

  lemma Multiple(d: int, p: int)
    requires p > 0
    ensures d >= 1 ==> d * p >= p
    ensures d <= -1 ==> d * p <= -p
  {
    if d >= 1 { assert d * p == p + (d - 1) * p; }
    if d <= -1 { assert d * p == -p + (d + 1) * p; }
  }

  /** Quotient and remainder are unique. */
  lemma Division(n: int, q: int, p: int, r: int)
    requires 0 <= r < p && n == q * p + r
    ensures n / p == q && n % p == r
  {
    var d := n / p - q;
    assert d * p == r - n % p;
    Multiple(d, p);
  }

  lemma BelowModulus(n: nat, p: nat)
    requires n < p
    ensures n % p == n
  {
    Division(n, 0, p, n);
  }

  // ---------------------------------------------------------------- sequences

  lemma Regroup<T>(x: seq<T>, y: seq<T>, z: seq<T>)
    ensures x + (y + z) == x + y + z
  {
  }

  /** Sequences one after the other. */
  function Flat<T>(ss: seq<seq<T>>): seq<T> {
    if ss == [] then [] else ss[0] + Flat(ss[1..])
  }

  lemma {:induction false} FlatSplit<T>(ss: seq<seq<T>>, i: nat)
    requires i <= |ss|
    ensures Flat(ss) == Flat(ss[..i]) + Flat(ss[i..])
  {
    if i == 0 {
      assert ss[..0] == [] && ss[0..] == ss;
    } else {
      FlatSplit(ss[1..], i - 1);
      assert ss[1..][..i - 1] == ss[..i][1..];
      assert ss[1..][i - 1..] == ss[i..];
    }
  }

  lemma {:induction false} FlatOfEmpty<T>(ss: seq<seq<T>>)
    requires forall i :: 0 <= i < |ss| ==> ss[i] == []
    ensures Flat(ss) == []
  {
    if ss != [] { FlatOfEmpty(ss[1..]); }
  }
}
