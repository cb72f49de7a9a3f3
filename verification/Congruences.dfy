/** Common divisors, linear congruences, and when two arithmetic progressions meet modulo a number. */
module Congruences {
  import opened Basics

  lemma Associate(a: int, b: int, c: int)
    ensures a * (b * c) == a * b * c
  {
  }

  lemma Distribute(a: int, b: int, c: int)
    ensures (a + b) * c == a * c + b * c == c * (a + b)
  {
  }

  lemma Product(a: nat, b: nat)
    ensures a * b >= 0
  {
  }

  lemma Quotient(n: nat, p: nat) returns (q: nat)
    requires p > 0
    ensures n == q * p + n % p
  {
    var d := n / p;
    Multiple(d, p);
    q := if d >= 0 then d else 0;
  }

  lemma Divisible(n: int, k: int, g: nat)
    requires g > 0 && n == k * g
    ensures n % g == 0
  {
    Division(n, k, g, 0);
  }

  lemma Opposite(d: int, g: nat)
    requires g > 0
    ensures d % g == 0 <==> (-d) % g == 0
  {
    if d % g == 0 { Divisible(-d, -(d / g), g); }
    if (-d) % g == 0 { Divisible(d, -((-d) / g), g); }
  }

  lemma ShiftedRemainder(n: int, k: int, g: nat)
    requires g > 0
    ensures (n + k * g) % g == n % g
  {
    var q := n / g;
    Distribute(q, k, g);
    Division(n + k * g, q + k, g, n % g);
  }

  lemma SameRemainder(m: int, n: int, p: nat)
    requires p > 0
    ensures m % p == n % p <==> (n - m) % p == 0
  {
    var a, b := m / p, n / p;
    if m % p == n % p {
      Distribute(b - a, a, p);
      Division(n - m, b - a, p, 0);
    }
    if (n - m) % p == 0 {
      var q := (n - m) / p;
      Distribute(a, q, p);
      Division(n, a + q, p, m % p);
    }
  }

  lemma MultiplePlus(t: nat, p: nat, d: int, g: nat)
    requires g > 0 && d % g == 0 && p % g == 0
    ensures (t * p + d) % g == 0
  {
    var k := p / g;
    assert p == k * g;
    Associate(t, k, g);
    ShiftedRemainder(d, t * k, g);
  }

  // ---------------------------------------------------------------- common divisors

  /** The greatest common divisor, by repeated subtraction. */
  function Gcd(a: nat, b: nat): (g: nat)
    requires a > 0 && b > 0
    ensures g > 0
    decreases a + b
  {
    if a == b then a else if a < b then Gcd(a, b - a) else Gcd(a - b, b)
  }

  lemma {:induction false} GcdDivides(a: nat, b: nat) returns (u: nat, v: nat)
    requires a > 0 && b > 0
    ensures a == u * Gcd(a, b) && b == v * Gcd(a, b)
    decreases a + b
  {
    var g := Gcd(a, b);
    if a == b {
      u, v := 1, 1;
    } else if a < b {
      u, v := GcdDivides(a, b - a);
      Distribute(u, v, g);
      v := u + v;
    } else {
      u, v := GcdDivides(a - b, b);
      Distribute(u, v, g);
      u := u + v;
    }
  }

  lemma MoveLeft(a: int, b: int, x: int, y: int, g: int)
    requires x * a == y * (b - a) + g
    ensures (x + y) * a == y * b + g
  {
    Distribute(x, y, a);
    Distribute(b - a, a, y);
  }

  lemma MoveRight(a: int, b: int, x: int, y: int, g: int)
    requires x * (a - b) == y * b + g
    ensures x * a == (x + y) * b + g
  {
    Distribute(a - b, b, x);
    Distribute(x, y, b);
  }

  lemma {:induction false} Bezout(a: nat, b: nat) returns (x: nat, y: nat)
    requires a > 0 && b > 0
    ensures x * a == y * b + Gcd(a, b)
    decreases a + b
  {
    if a == b {
      x, y := 1, 0;
    } else if a < b {
      x, y := Bezout(a, b - a);
      MoveLeft(a, b, x, y, Gcd(a, b));
      x := x + y;
    } else {
      x, y := Bezout(a - b, b);
      MoveRight(a, b, x, y, Gcd(a, b));
      y := x + y;
    }
  }

  // ---------------------------------------------------------------- one congruence

  /** Some multiple of p is congruent to d modulo m. */
  ghost predicate Solvable(p: nat, m: nat, d: int)
    requires m > 0
  {
    exists t: nat :: Solves(t, p, m, d)
  }

  predicate Solves(t: nat, p: nat, m: nat, d: int)
    requires m > 0
  {
    (t * p - d) % m == 0
  }

  lemma Factored(t: nat, p: nat, u: nat, q: int, m: nat, v: nat, g: nat)
    requires p == u * g && m == v * g
    ensures t * p - q * m == (t * u - q * v) * g
  {
    Associate(t, u, g);
    Associate(q, v, g);
    Distribute(t * u - q * v, q * v, g);
  }

  lemma SolutionDivides(p: nat, m: nat, d: int, t: nat)
    requires p > 0 && m > 0 && Solves(t, p, m, d)
    ensures d % Gcd(p, m) == 0
  {
    var g, q := Gcd(p, m), (t * p - d) / m;
    assert d == t * p - q * m;
    var u, v := GcdDivides(p, m);
    Factored(t, p, u, q, m, v, g);
    Divisible(d, t * u - q * v, g);
  }

  lemma Scaled(k: nat, x: nat, p: nat, y: nat, m: nat, g: nat)
    requires x * p == y * m + g
    ensures k * x * p == k * y * m + k * g
  {
    Associate(k, x, p);
    Associate(k, y, m);
    Distribute(y * m, g, k);
  }

  lemma DividesSolution(p: nat, m: nat, d: nat) returns (t: nat)
    requires p > 0 && m > 0 && d % Gcd(p, m) == 0
    ensures Solves(t, p, m, d)
  {
    var g := Gcd(p, m);
    var k := Quotient(d, g);
    var x, y := Bezout(p, m);
    Product(k, x);
    Scaled(k, x, p, y, m, g);
    t := k * x;
    Divisible(t * p - d, k * y, m);
  }

  lemma RemainderDivides(p: nat, m: nat, d: int)
    requires p > 0 && m > 0 && d % Gcd(p, m) == 0
    ensures (d % m) % Gcd(p, m) == 0
  {
    var g, q := Gcd(p, m), d / m;
    var u, v := GcdDivides(p, m);
    assert d == q * m + d % m;
    Associate(q, v, g);
    ShiftedRemainder(d % m, q * v, g);
  }

  lemma RemainderSolves(n: int, m: nat, d: int)
    requires m > 0 && (n - d % m) % m == 0
    ensures (n - d) % m == 0
  {
    var q := d / m;
    assert d == q * m + d % m;
    ShiftedRemainder(n - d, q, m);
  }

  /** A linear congruence has a solution exactly when the common divisor of the coefficient and
      the modulus divides the right-hand side. */
  lemma SolvableIff(p: nat, m: nat, d: int)
    requires p > 0 && m > 0
    ensures Solvable(p, m, d) <==> d % Gcd(p, m) == 0
  {
    if Solvable(p, m, d) {
      var t: nat :| Solves(t, p, m, d);
      SolutionDivides(p, m, d, t);
    }
    if d % Gcd(p, m) == 0 {
      RemainderDivides(p, m, d);
      var t := DividesSolution(p, m, d % m);
      RemainderSolves(t * p, m, d);
      assert Solves(t, p, m, d);
    }
  }

  /** A solution can be taken modulo any multiple of the modulus. */
  lemma ReducedSolution(t: nat, p: nat, m: nat, d: int, n: nat)
    requires m > 0 && n > 0 && n % m == 0 && Solves(t, p, m, d)
    ensures t % n < n && Solves(t % n, p, m, d)
  {
    var q, r, k := t / n, t % n, n / m;
    assert t == q * n + r && n == k * m;
    Distribute(q * n, r, p);
    Associate(q * p, k, m);
    Reorder(q, n, p);
    ShiftedRemainder(r * p - d, q * p * k, m);
  }

  lemma Reorder(a: int, b: int, c: int)
    ensures a * b * c == a * c * b
  {
  }

  // ---------------------------------------------------------------- two progressions

  /** For the t2-th element of the second progression, one of the first agrees with it modulo m. */
  ghost predicate Met(p1: nat, s1: int, p2: nat, s2: int, m: nat, t2: nat)
    requires m > 0
  {
    exists t1: nat :: t1 < m && Agree(p1, s1, t1, p2, s2, t2, m)
  }

  predicate Agree(p1: nat, s1: int, t1: nat, p2: nat, s2: int, t2: nat, m: nat)
    requires m > 0
  {
    (t1 * p1 + s1) % m == (t2 * p2 + s2) % m
  }

  lemma AgreeSolves(p1: nat, s1: int, t1: nat, p2: nat, s2: int, t2: nat, m: nat)
    requires m > 0
    ensures Agree(p1, s1, t1, p2, s2, t2, m) <==> Solves(t1, p1, m, t2 * p2 + (s2 - s1))
  {
    SameRemainder(t2 * p2 + s2, t1 * p1 + s1, m);
  }

  lemma MetIff(p1: nat, s1: int, p2: nat, s2: int, m: nat, t2: nat)
    requires p1 > 0 && m > 0
    ensures Met(p1, s1, p2, s2, m, t2) <==> (t2 * p2 + (s2 - s1)) % Gcd(p1, m) == 0
  {
    var d := t2 * p2 + (s2 - s1);
    SolvableIff(p1, m, d);
    if Met(p1, s1, p2, s2, m, t2) {
      var t1: nat :| t1 < m && Agree(p1, s1, t1, p2, s2, t2, m);
      AgreeSolves(p1, s1, t1, p2, s2, t2, m);
    }
    if Solvable(p1, m, d) {
      var t: nat :| Solves(t, p1, m, d);
      Division(m, 1, m, 0);
      ReducedSolution(t, p1, m, d, m);
      AgreeSolves(p1, s1, t % m, p2, s2, t2, m);
    }
  }

  /** They meet somewhere exactly when the common divisor of all three divides the distance. */
  lemma MeetIff(p1: nat, s1: int, p2: nat, s2: int, m: nat)
    requires p1 > 0 && p2 > 0 && m > 0
    ensures (exists t2: nat :: t2 < m && Met(p1, s1, p2, s2, m, t2))
       <==> (s2 - s1) % Gcd(p2, Gcd(p1, m)) == 0
  {
    var g, d := Gcd(p1, m), s2 - s1;
    SolvableIff(p2, g, -d);
    Opposite(d, Gcd(p2, g));
    if t2: nat :| t2 < m && Met(p1, s1, p2, s2, m, t2) {
      MetIff(p1, s1, p2, s2, m, t2);
      assert Solves(t2, p2, g, -d);
    }
    if Solvable(p2, g, -d) {
      var t: nat :| Solves(t, p2, g, -d);
      GcdDividesModulus(p1, m);
      ReducedSolution(t, p2, g, -d, m);
      MetIff(p1, s1, p2, s2, m, t % m);
    }
  }

  lemma GcdDividesModulus(p: nat, m: nat)
    requires p > 0 && m > 0
    ensures m % Gcd(p, m) == 0
  {
    var u, v := GcdDivides(p, m);
    Divisible(m, v, Gcd(p, m));
  }

  /** They meet everywhere exactly when the common divisor of the first step and the modulus
      divides both the distance and the second step. */
  lemma AlwaysMeetIff(p1: nat, s1: int, p2: nat, s2: int, m: nat)
    requires p1 > 0 && m > 1
    ensures (forall t2: nat :: t2 < m ==> Met(p1, s1, p2, s2, m, t2))
       <==> (s2 - s1) % Gcd(p1, m) == 0 && p2 % Gcd(p1, m) == 0
  {
    var g, d := Gcd(p1, m), s2 - s1;
    if forall t2: nat :: t2 < m ==> Met(p1, s1, p2, s2, m, t2) {
      assert Met(p1, s1, p2, s2, m, 0) && Met(p1, s1, p2, s2, m, 1);
      MetTwice(p1, s1, p2, s2, m);
    }
    if d % g == 0 && p2 % g == 0 {
      forall t2: nat | t2 < m ensures Met(p1, s1, p2, s2, m, t2) {
        MultiplePlus(t2, p2, d, g);
        MetIff(p1, s1, p2, s2, m, t2);
      }
    }
  }

  lemma MetTwice(p1: nat, s1: int, p2: nat, s2: int, m: nat)
    requires p1 > 0 && m > 0 && Met(p1, s1, p2, s2, m, 0) && Met(p1, s1, p2, s2, m, 1)
    ensures (s2 - s1) % Gcd(p1, m) == 0 && p2 % Gcd(p1, m) == 0
  {
    MetIff(p1, s1, p2, s2, m, 0);
    MetIff(p1, s1, p2, s2, m, 1);
    var d := s2 - s1;
    assert 0 * p2 + d == d && 1 * p2 + d == p2 + d;
    SameRemainder(d, p2 + d, Gcd(p1, m));
  }
}
