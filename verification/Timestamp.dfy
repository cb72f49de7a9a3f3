/**
 * Timestamps that carry a thread id in their low digits (common/include/common.hpp:141-146).
 * The multiplier is a 32-bit unsigned number and the result a 64-bit one; both wrap.
 */
module Timestamp {
  import opened Basics
  import opened Congruences

  /** 32-bit multiplication by ten. */
  function TimesTen(p: nat): (q: nat)
    ensures q < UINT32
  {
    p * 10 % UINT32
  }

  lemma SmallTimesTen(p: nat)
    requires p * 10 < UINT32
    ensures TimesTen(p) == p * 10
  {
    BelowModulus(p * 10, UINT32);
  }

  /** The multiplier after j rounds of multiplying by ten. */
  function PowAt(j: nat): nat {
    if j == 0 then 1 else TimesTen(PowAt(j - 1))
  }

  /** The largest value that the multiplier ever takes, and the round that reaches it. */
  const LARGEST := 4135583744
  const LARGEST_AT := 23

  /** The same values in closed form: zero from the 32nd round on. */
  function Table(j: nat): nat {
    match j
    case 0 => 1
    case 1 => 10 case 2 => 100 case 3 => 1000 case 4 => 10000
    case 5 => 100000 case 6 => 1000000 case 7 => 10000000 case 8 => 100000000
    case 9 => 1000000000 case 10 => 1410065408 case 11 => 1215752192 case 12 => 3567587328
    case 13 => 1316134912 case 14 => 276447232 case 15 => 2764472320 case 16 => 1874919424
    case 17 => 1569325056 case 18 => 2808348672 case 19 => 2313682944 case 20 => 1661992960
    case 21 => 3735027712 case 22 => 2990538752 case 23 => 4135583744 case 24 => 2701131776
    case 25 => 1241513984 case 26 => 3825205248 case 27 => 3892314112 case 28 => 268435456
    case 29 => 2684354560 case 30 => 1073741824 case 31 => 2147483648
    case _ => 0
  }

  lemma TableStep(j: nat)
    ensures Table(j + 1) == TimesTen(Table(j))
  {
  }

  lemma {:induction false} PowIsTable(j: nat)
    ensures PowAt(j) == Table(j)
  {
    if j > 0 {
      PowIsTable(j - 1);
      TableStep(j - 1);
    }
  }

  lemma TableBound(j: nat)
    requires j >= 1
    ensures Table(j) <= LARGEST && (j == LARGEST_AT ==> Table(j) == LARGEST)
  {
  }

  lemma PowBound(j: nat)
    requires j >= 1
    ensures PowAt(j) <= LARGEST && (j == LARGEST_AT ==> PowAt(j) == LARGEST)
  {
    PowIsTable(j);
    TableBound(j);
  }

  // ---------------------------------------------------------------- the loop

  /** The loop's condition fails in some round, so the loop ends. */
  ghost predicate Ends(id: nat) {
    exists j: nat :: j >= 1 && id < PowAt(j)
  }

  /** The loop ends exactly for ids below the largest value the multiplier ever takes. */
  lemma EndsIff(id: nat)
    ensures Ends(id) <==> id < 4135583744
  {
    var last := LARGEST_AT;
    PowBound(last);
    if Ends(id) {
      var j: nat :| j >= 1 && id < PowAt(j);
      PowBound(j);
    }
  }

  lemma NotLast(id: nat, j: nat)
    requires PowAt(j) <= id < LARGEST && 1 <= j <= LARGEST_AT
    ensures j < LARGEST_AT
  {
    PowBound(j);
  }

  /** The round in which the loop ends, from round j on. */
  function Round(id: nat, j: nat): (r: nat)
    requires id < LARGEST && 1 <= j <= LARGEST_AT
    ensures j <= r <= LARGEST_AT && id < PowAt(r)
    ensures forall i :: j <= i < r ==> PowAt(i) <= id
    decreases LARGEST_AT - j
  {
    if id < PowAt(j) then j
    else
      NotLast(id, j);
      Round(id, j + 1)
  }

  function Scale(id: nat): nat
    requires id < LARGEST
  {
    PowAt(Round(id, 1))
  }

  method FindScale(id: nat) returns (pow: nat)
    requires id < LARGEST
    ensures pow == Scale(id)
  {
    pow := 10;
    ghost var j := 1;
    assert PowAt(0) == 1;
    SmallTimesTen(1);
    while id >= pow
      invariant 1 <= j <= LARGEST_AT && pow == PowAt(j) && Round(id, j) == Round(id, 1)
      decreases LARGEST_AT - j
    {
      NotLast(id, j);
      pow := TimesTen(pow);
      j := j + 1;
    }
  }

  /** The timestamp before and after it is cut to 64 bits. */
  function Stamp(time: nat, id: nat): int
    requires id < LARGEST
  {
    time * Scale(id) + id
  }

  function Stamp64(time: nat, id: nat): int
    requires id < LARGEST
  {
    Stamp(time, id) % UINT64
  }

  method GenerateTimestamp(time: nat, id: nat) returns (stamp: nat)
    requires time < UINT64 && id < LARGEST
    ensures stamp == Stamp64(time, id)
  {
    var pow := FindScale(id);
    stamp := (time * pow + id) % UINT64;
  }

  // ---------------------------------------------------------------- the multiplier

  function Ten(j: nat): (p: nat)
    ensures p >= 1
  {
    if j == 0 then 1 else 10 * Ten(j - 1)
  }

  lemma {:induction false} TenGrows(i: nat, j: nat)
    requires i <= j
    ensures Ten(i) <= Ten(j)
    decreases j - i
  {
    if i < j { TenGrows(i, j - 1); }
  }

  lemma TenNine()
    ensures Ten(9) == 1000000000
  {
  }

  lemma {:induction false} SmallPowers(j: nat, nine: nat)
    requires j <= nine && Ten(nine) < UINT32
    ensures PowAt(j) == Ten(j)
  {
    if j > 0 {
      TenGrows(j, nine);
      SmallPowers(j - 1, nine);
      SmallTimesTen(Ten(j - 1));
    }
  }

  /** For ids of at most nine digits it is the least power of ten above the id, at least ten. */
  lemma LeastPowerOfTen(id: nat)
    requires id < 1000000000
    ensures var j := Round(id, 1); Scale(id) == Ten(j) && id < Ten(j) && (j > 1 ==> Ten(j - 1) <= id)
  {
    var j, nine := Round(id, 1), 9;
    TenNine();
    SmallPowers(nine, nine);
    assert j <= nine;
    SmallPowers(j, nine);
    if j > 1 { SmallPowers(j - 1, nine); }
  }

  lemma TenfoldModulo(n: nat)
    ensures n % UINT32 * 10 % UINT32 == n * 10 % UINT32
  {
    var q, r := n / UINT32, n % UINT32;
    assert n * 10 == r * 10 + q * 10 * UINT32;
    Division(n * 10, q * 10 + r * 10 / UINT32, UINT32, r * 10 % UINT32);
  }

  lemma {:induction false} PowIsTenModulo(j: nat)
    ensures PowAt(j) == Ten(j) % UINT32
  {
    if j > 0 {
      PowIsTenModulo(j - 1);
      TenfoldModulo(Ten(j - 1));
    }
  }

  /** For every id with which the loop ends: the first of the powers of ten, from ten on and cut to 32
      bits, that is above the id. */
  lemma FirstPowerAbove(id: nat, i: nat)
    requires id < LARGEST
    ensures var j := Round(id, 1);
            && Scale(id) == Ten(j) % 0x1_0000_0000 && id < Scale(id)
            && (1 <= i < j ==> Ten(i) % 0x1_0000_0000 <= id)
  {
    PowIsTenModulo(Round(id, 1));
    PowIsTenModulo(i);
  }

  // ---------------------------------------------------------------- the timestamp

  lemma StampAtLeast(time: nat, id: nat)
    requires id < LARGEST
    ensures 0 <= id < Scale(id) && 0 <= time * Scale(id) <= Stamp(time, id)
  {
    Product(time, Scale(id));
  }

  /** Cutting to 64 bits keeps exactly the numbers that fit, and lowers the others by 2^64 at least. */
  lemma Cut(n: nat)
    ensures n < UINT64 ==> n % UINT64 == n
    ensures n >= UINT64 ==> 0 <= n % UINT64 <= n - UINT64
  {
  }

  /** Time and id can be read back exactly when the timestamp fits 64 bits. */
  lemma SplitsBackIff(time: nat, id: nat)
    requires id < LARGEST
    ensures Stamp64(time, id) / Scale(id) == time && Stamp64(time, id) % Scale(id) == id
       <==> Stamp(time, id) < UINT64
  {
    StampAtLeast(time, id);
    Cut(Stamp(time, id));
    if Stamp(time, id) < UINT64 {
      Division(Stamp(time, id), time, Scale(id), id);
    } else {
      Recombine(Stamp64(time, id), Scale(id), time, id);
    }
  }

  lemma Recombine(n: nat, p: nat, q: int, r: int)
    requires p > 0
    ensures n / p == q && n % p == r ==> n == q * p + r
  {
  }

  lemma Later(t1: nat, t2: nat, id: nat)
    requires id < LARGEST && t1 < t2
    ensures Stamp(t1, id) + Scale(id) <= Stamp(t2, id)
  {
    StampAtLeast(t1, id);
    Multiple(t2 - t1, Scale(id));
    assert (t2 - t1) * Scale(id) == t2 * Scale(id) - t1 * Scale(id);
  }

  /** For one id, later means larger, as long as the later timestamp fits 64 bits. */
  lemma IncreasingInTime(t1: nat, t2: nat, id: nat)
    requires id < LARGEST && t1 < t2 && Stamp(t2, id) < UINT64
    ensures Stamp64(t1, id) < Stamp64(t2, id)
  {
    StampAtLeast(t1, id);
    StampAtLeast(t2, id);
    Later(t1, t2, id);
    Cut(Stamp(t1, id));
    Cut(Stamp(t2, id));
  }

  lemma CutOrder(n: nat, p: nat)
    requires 0 < p < UINT64
    ensures n % UINT64 < (n + p) % UINT64 <==> n / UINT64 == (n + p) / UINT64
  {
  }

  /** From one tick to the next it grows exactly when no multiple of 2^64 is passed. */
  lemma GrowsIff(time: nat, id: nat)
    requires id < LARGEST
    ensures Stamp64(time, id) < Stamp64(time + 1, id) <==> Stamp(time, id) / UINT64 == Stamp(time + 1, id) / UINT64
  {
    StampAtLeast(time, id);
    NextStamp(time, id);
    ScaleSmall(id);
    CutOrder(Stamp(time, id), Scale(id));
  }

  lemma NextStamp(time: nat, id: nat)
    requires id < LARGEST
    ensures Stamp(time + 1, id) == Stamp(time, id) + Scale(id)
  {
    Distribute(time, 1, Scale(id));
  }

  lemma ScaleSmall(id: nat)
    requires id < LARGEST
    ensures Scale(id) < UINT64
  {
  }

  lemma Ordered(time: nat, p: nat, q: nat)
    requires p <= q
    ensures time * p <= time * q
  {
    assert time * q == time * p + time * (q - p);
  }

  /** How far apart the uncut timestamps of two ids are at one time. */
  function Distance(time: nat, id1: nat, id2: nat): int
    requires id1 < LARGEST && id2 < LARGEST
  {
    time * (Scale(id2) - Scale(id1)) + (id2 - id1)
  }

  lemma DistanceIs(time: nat, id1: nat, id2: nat)
    requires id1 < LARGEST && id2 < LARGEST
    ensures Stamp(time, id2) - Stamp(time, id1) == Distance(time, id1, id2)
  {
    Subtract(time, Scale(id1), Scale(id2));
  }

  lemma Subtract(t: int, p: int, q: int)
    ensures t * q - t * p == t * (q - p)
  {
    Distribute(q - p, p, t);
  }

  lemma ScaleOrdered(id1: nat, id2: nat)
    requires id1 < id2 < LARGEST
    ensures Scale(id1) <= Scale(id2)
  {
    var j1, j2 := Round(id1, 1), Round(id2, 1);
    assert j2 < j1 ==> PowAt(j2) <= id1;
    assert j1 < j2 ==> PowAt(j1) <= id2 < PowAt(j2);
  }

  /** At one time, two ids get the same 64-bit result exactly when 2^64 divides the distance of
      their uncut timestamps; this holds for all ids with which the loop ends. */
  lemma SameTimeCollisionIff(time: nat, id1: nat, id2: nat)
    requires id1 < LARGEST && id2 < LARGEST
    ensures Stamp64(time, id1) == Stamp64(time, id2) <==> Distance(time, id1, id2) % UINT64 == 0
  {
    DistanceIs(time, id1, id2);
    SameRemainder(Stamp(time, id1), Stamp(time, id2), UINT64);
  }

  /** The distance of different ids is not zero, and with equal multipliers it is below 2^64. So
      they collide only after the larger timestamp has overflowed, with different multipliers. */
  lemma DistinctIds(time: nat, id1: nat, id2: nat)
    requires id1 < id2 < LARGEST
    requires Stamp(time, id2) < UINT64 || Scale(id1) == Scale(id2)
    ensures Stamp64(time, id1) != Stamp64(time, id2)
  {
    StampAtLeast(time, id1);
    ScaleOrdered(id1, id2);
    Product(time, Scale(id2) - Scale(id1));
    DistanceIs(time, id1, id2);
    SameTimeCollisionIff(time, id1, id2);
    BelowModulus(Distance(time, id1, id2), UINT64);
  }

  /** And then they can: ids 0 and 10 at one clock value. */
  lemma SameTimeCollisionOccurs(time: nat)
    requires time == 8198552921648689607
    ensures Stamp64(time, 0) == Stamp64(time, 10)
  {
    FirstScales();
    SameTimeCollisionIff(time, 0, 10);
    Division(Distance(time, 0, 10), 40, UINT64, 0);
  }

  lemma FirstScales()
    ensures Scale(0) == 10 && Scale(10) == 100
  {
    SmallTimesTen(1);
    SmallTimesTen(10);
    assert PowAt(1) == 10;
    assert PowAt(2) == 100;
  }

  // ---------------------------------------------------------------- across times

  /** For the time t2 of one id there is a time at which the other id gets the same result. */
  ghost predicate Matched(id1: nat, id2: nat, t2: nat)
    requires id1 < LARGEST && id2 < LARGEST
  {
    exists t1: nat :: t1 < UINT64 && Stamp64(t1, id1) == Stamp64(t2, id2)
  }

  lemma MatchedMet(id1: nat, id2: nat, t2: nat)
    requires id1 < LARGEST && id2 < LARGEST
    ensures Matched(id1, id2, t2) <==> Met(Scale(id1), id1, Scale(id2), id2, UINT64, t2)
  {
    if Matched(id1, id2, t2) {
      var t1: nat :| t1 < UINT64 && Stamp64(t1, id1) == Stamp64(t2, id2);
      assert Agree(Scale(id1), id1, t1, Scale(id2), id2, t2, UINT64);
    }
    if Met(Scale(id1), id1, Scale(id2), id2, UINT64, t2) {
      var t1: nat :| t1 < UINT64 && Agree(Scale(id1), id1, t1, Scale(id2), id2, t2, UINT64);
      assert Stamp64(t1, id1) == Stamp64(t2, id2);
    }
  }

  /** At some two clock values the ids get the same 64-bit result. */
  ghost predicate Collide(id1: nat, id2: nat)
    requires id1 < LARGEST && id2 < LARGEST
  {
    exists t2: nat :: t2 < UINT64 && Matched(id1, id2, t2)
  }

  /** They do exactly when the common divisor of both multipliers and 2^64 divides their
      difference; this holds for all ids with which the loop ends. */
  lemma CollideIff(id1: nat, id2: nat)
    requires id1 < LARGEST && id2 < LARGEST
    ensures Scale(id1) > 0 && Scale(id2) > 0
    ensures Collide(id1, id2) <==> (id2 - id1) % Gcd(Scale(id2), Gcd(Scale(id1), UINT64)) == 0
  {
    StampAtLeast(0, id1);
    StampAtLeast(0, id2);
    MeetIff(Scale(id1), id1, Scale(id2), id2, UINT64);
    forall t2: nat | t2 < UINT64
      ensures Matched(id1, id2, t2) <==> Met(Scale(id1), id1, Scale(id2), id2, UINT64, t2)
    {
      MatchedMet(id1, id2, t2);
    }
  }

  /** At every clock value of the one id there is such a one of the other, exactly when the common
      divisor of the other's multiplier and 2^64 divides the difference and the one's multiplier. */
  lemma AlwaysMatchedIff(id1: nat, id2: nat)
    requires id1 < LARGEST && id2 < LARGEST
    ensures Scale(id1) > 0
    ensures (forall t2: nat :: t2 < UINT64 ==> Matched(id1, id2, t2))
       <==> (id2 - id1) % Gcd(Scale(id1), UINT64) == 0 && Scale(id2) % Gcd(Scale(id1), UINT64) == 0
  {
    StampAtLeast(0, id1);
    AlwaysMeetIff(Scale(id1), id1, Scale(id2), id2, UINT64);
    forall t2: nat | t2 < UINT64
      ensures Matched(id1, id2, t2) <==> Met(Scale(id1), id1, Scale(id2), id2, UINT64, t2)
    {
      MatchedMet(id1, id2, t2);
    }
  }
}
