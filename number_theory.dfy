/** Facts about the integers that the modular square root relies on: powers,
    remainders, divisibility, Bezout coefficients, Euclid's lemma, Fermat's little
    theorem, Lagrange's bound on the roots of a polynomial modulo a prime and its
    consequence that every odd prime has a quadratic non-residue.

    The big-integer library of the source is modelled by Dafny's unbounded `int`;
    `%` below is Dafny's Euclidean remainder, which for a positive modulus agrees
    with the library's `mod` on non-negative operands. */
module NumberTheory {

  /** b raised to the natural power e. */
  function Pow(b: int, e: nat): int
  {
    if e == 0 then 1 else b * Pow(b, e - 1)
  }

  /** d is a non-zero divisor of n. */
  predicate Divides(d: int, n: int)
  {
    d != 0 && n % d == 0
  }

  predicate IsPrime(p: int)
  {
    p >= 2 && forall d :: 2 <= d < p ==> !Divides(d, p)
  }

  /** (x * x) mod p, the square of x as a residue. */
  function SquareMod(x: int, p: int): int
    requires p > 0
  {
    (x * x) % p
  }

  /** a has a square root modulo p. */
  ghost predicate IsQuadraticResidue(a: int, p: int)
    requires p > 0
  {
    exists x :: 0 <= x < p && SquareMod(x, p) == a
  }

  // ---------------------------------------------------------------------------
  // Remainders

  lemma MulAtLeast(p: int, d: int)
    requires p > 0 && d >= 1
    ensures p * d >= p
  {
  }

  /** Multiplying by a positive number keeps the order. */
  lemma MulLeft(d: int, x: int, y: int)
    ensures d > 0 && x <= y ==> d * x <= d * y
  {
    if d > 0 && x <= y {
      assert d * y - d * x == d * (y - x);
    }
  }

  /** Quotient and remainder are unique. */
  lemma ModUnique(a: int, p: int, q: int, r: int)
    requires p > 0 && a == p * q + r && 0 <= r < p
    ensures a / p == q && a % p == r
  {
    var d := q - a / p;
    assert p * d == a % p - r;
    if d > 0 {
      MulAtLeast(p, d);
    } else if d < 0 {
      MulAtLeast(p, -d);
    }
  }

  /** A remainder of 0 makes the quotient exact. */
  lemma ExactQuotient(x: int, p: int)
    requires p > 0 && x % p == 0
    ensures x == p * (x / p)
  {
  }

  lemma ModAddMultiple(p: int, k: int, y: int)
    requires p > 0
    ensures (p * k + y) % p == y % p
  {
    assert p * k + y == p * (k + y / p) + y % p;
    ModUnique(p * k + y, p, k + y / p, y % p);
  }

  lemma MulMod(a: int, b: int, p: int)
    requires p > 0
    ensures (a * b) % p == ((a % p) * (b % p)) % p
  {
    MulModLeft(a, b, p);
    MulModRight(a % p, b, p);
  }

  lemma MulModLeft(a: int, b: int, p: int)
    requires p > 0
    ensures (a * b) % p == ((a % p) * b) % p
  {
    var qa, ra := a / p, a % p;
    assert a == p * qa + ra;
    assert a * b == p * (qa * b) + ra * b by {
      assert (p * qa + ra) * b == (p * qa) * b + ra * b;
      assert (p * qa) * b == p * (qa * b);
    }
    ModAddMultiple(p, qa * b, ra * b);
  }

  lemma MulModRight(a: int, b: int, p: int)
    requires p > 0
    ensures (a * b) % p == (a * (b % p)) % p
  {
    MulModLeft(b, a, p);
  }

  /** Multiplying congruent numbers by the same factor keeps them congruent. */
  lemma MulCongruent(x: int, y: int, k: int, p: int)
    requires p > 0 && x % p == y % p
    ensures (x * k) % p == (y * k) % p
  {
    MulModLeft(x, k, p);
    MulModLeft(y, k, p);
  }

  lemma AddMod(a: int, b: int, p: int)
    requires p > 0
    ensures (a + b) % p == ((a % p) + (b % p)) % p
  {
    assert a + b == p * (a / p + b / p) + (a % p + b % p);
    ModAddMultiple(p, a / p + b / p, a % p + b % p);
  }

  /** Multiplication distributes over subtraction. */
  lemma MulSub(p: int, a: int, b: int)
    ensures p * (a - b) == p * a - p * b
  {
  }

  /** Two integers have the same remainder exactly when their difference is a multiple. */
  lemma ModEqIffDiff(x: int, y: int, p: int)
    requires p > 0
    ensures x % p == y % p <==> (x - y) % p == 0
  {
    var qx, qy := x / p, y / p;
    var r := x % p - y % p;
    assert x == p * qx + x % p && y == p * qy + y % p;
    MulSub(p, qx, qy);
    assert x - y == p * (qx - qy) + r;
    ModAddMultiple(p, qx - qy, r);
    if r != 0 && r % p == 0 {
      SmallMultiple(p, r);
    }
  }

  /** The only multiple of p strictly between -p and p is 0. */
  lemma SmallMultiple(p: int, n: int)
    requires p > 0 && n % p == 0 && -p < n < p
    ensures n == 0
  {
    if n < 0 {
      ModUnique(n, p, -1, n + p);
    } else {
      ModUnique(n, p, 0, n);
    }
  }

  // ---------------------------------------------------------------------------
  // Powers

  lemma {:induction false} PowAdd(b: int, m: nat, n: nat)
    ensures Pow(b, m + n) == Pow(b, m) * Pow(b, n)
  {
    if m > 0 {
      PowAdd(b, m - 1, n);
      assert Pow(b, m + n) == b * Pow(b, m - 1 + n);
    }
  }

  lemma {:induction false} PowMul(b: int, m: nat, n: nat)
    ensures Pow(b, m * n) == Pow(Pow(b, m), n)
  {
    if n > 0 {
      PowMul(b, m, n - 1);
      assert m * n == m * (n - 1) + m;
      PowAdd(b, m * (n - 1), m);
    }
  }

  lemma {:induction false} PowMulBase(a: int, b: int, n: nat)
    ensures Pow(a * b, n) == Pow(a, n) * Pow(b, n)
  {
    if n > 0 {
      PowMulBase(a, b, n - 1);
      var x, y := Pow(a, n - 1), Pow(b, n - 1);
      assert Pow(a * b, n) == (a * b) * (x * y);
      Swap4(a, b, x, y);
    }
  }

  lemma Swap4(a: int, b: int, x: int, y: int)
    ensures (a * b) * (x * y) == (a * x) * (b * y)
  {
  }

  lemma {:induction false} PowOne(n: nat)
    ensures Pow(1, n) == 1
  {
    if n > 0 {
      PowOne(n - 1);
    }
  }

  lemma {:induction false} PowNonNeg(b: int, n: nat)
    requires b >= 0
    ensures Pow(b, n) >= 0
  {
    if n > 0 {
      PowNonNeg(b, n - 1);
    }
  }

  lemma {:induction false} PowPositive(b: int, n: nat)
    requires b > 0
    ensures Pow(b, n) > 0
  {
    if n > 0 {
      PowPositive(b, n - 1);
    }
  }

  /** A power's remainder depends only on the remainder of its base. */
  lemma {:induction false} PowMod(b: int, e: nat, p: int)
    requires p > 0
    ensures Pow(b % p, e) % p == Pow(b, e) % p
  {
    if e > 0 {
      PowMod(b, e - 1, p);
      var r := b % p;
      var u, w := Pow(r, e - 1), Pow(b, e - 1);
      assert Pow(r, e) == r * u && Pow(b, e) == b * w;
      ModUnique(r, p, 0, r);
      MulMod(b, w, p);
      MulMod(r, u, p);
    }
  }

  /** ((x mod p)^2)^n and x^(2n) agree modulo p. */
  lemma PowOfSquareMod(x: int, n: nat, p: int)
    requires p > 0
    ensures Pow((x * x) % p, n) % p == Pow(x, 2 * n) % p
  {
    PowMod(x * x, n, p);
    PowMulBase(x, x, n);
    PowAdd(x, n, n);
  }

  // ---------------------------------------------------------------------------
  // Divisors and Bezout coefficients

  lemma DividesLe(d: int, n: int)
    requires d > 0 && n > 0 && Divides(d, n)
    ensures d <= n
  {
    assert n == d * (n / d);
    MulAtLeast(d, n / d);
  }

  lemma DividesLinear(d: int, m: int, n: int, u: int, v: int)
    requires d > 0 && Divides(d, m) && Divides(d, n)
    ensures Divides(d, u * m + v * n)
  {
    assert m == d * (m / d);
    assert n == d * (n / d);
    assert u * m + v * n == d * (u * (m / d) + v * (n / d));
    ModAddMultiple(d, u * (m / d) + v * (n / d), 0);
  }

  /** Extended Euclidean algorithm: (g, x, y) with g = a*x + b*y a common divisor,
      positive unless both arguments are zero. */
  function ExtGcd(a: nat, b: nat): (r: (nat, int, int))
    ensures r.0 == a * r.1 + b * r.2
    ensures (a > 0 || b > 0) ==> r.0 > 0 && Divides(r.0, a) && Divides(r.0, b)
    decreases b
  {
    if b == 0 then
      (a, 1, 0)
    else
      var t := ExtGcd(b, a % b);
      EuclidStep(a, b, t.0, t.1, t.2);
      (t.0, t.2, t.1 - (a / b) * t.2)
  }

  /** One step of Euclid's algorithm: what holds of (b, a mod b) holds of (a, b). */
  lemma EuclidStep(a: int, b: int, g: int, x: int, y: int)
    requires b > 0 && g == b * x + (a % b) * y
    ensures g == a * y + b * (x - (a / b) * y)
    ensures g > 0 && Divides(g, b) && Divides(g, a % b) ==> Divides(g, a)
  {
    var q, r := a / b, a % b;
    assert a == b * q + r;
    assert a * y == b * q * y + r * y;
    assert b * (x - q * y) == b * x - b * q * y;
    if g > 0 && Divides(g, b) && Divides(g, r) {
      DividesLinear(g, b, r, q, 1);
      assert q * b + 1 * r == a;
    }
  }

  /** The non-negative greatest common divisor, as the big-integer library's gcd. */
  function Gcd(a: int, b: int): (g: nat)
    ensures (a != 0 || b != 0) ==> g > 0 && Divides(g, a) && Divides(g, b)
    ensures forall d :: d > 0 && Divides(d, a) && Divides(d, b) ==> Divides(d, g)
  {
    var t := ExtGcd(if a < 0 then -a else a, if b < 0 then -b else b);
    GcdOfMagnitudes(a, b, t.0, t.1, t.2);
    t.0
  }

  /** A common divisor of |a| and |b| that is a combination of them is a greatest
      common divisor of a and b. */
  lemma GcdOfMagnitudes(a: int, b: int, g: int, x: int, y: int)
    requires g == (if a < 0 then -a else a) * x + (if b < 0 then -b else b) * y
    requires (a != 0 || b != 0) ==>
      (g > 0 && Divides(g, if a < 0 then -a else a) && Divides(g, if b < 0 then -b else b))
    ensures (a != 0 || b != 0) ==> g > 0 && Divides(g, a) && Divides(g, b)
    ensures forall d :: d > 0 && Divides(d, a) && Divides(d, b) ==> Divides(d, g)
  {
    var sa, sb := if a < 0 then -1 else 1, if b < 0 then -1 else 1;
    SignedTerm(a, x);
    SignedTerm(b, y);
    assert g == a * (sa * x) + b * (sb * y);
    if a != 0 || b != 0 {
      DividesSign(g, a);
      DividesSign(g, b);
    }
    GcdIsGreatest(a, b, g, sa * x, sb * y);
  }

  lemma SignedTerm(a: int, x: int)
    ensures (if a < 0 then -a else a) * x == a * ((if a < 0 then -1 else 1) * x)
  {
    if a < 0 {
      assert (-a) * x == a * (-x);
    }
  }

  lemma DividesSign(d: int, n: int)
    requires d > 0 && Divides(d, if n < 0 then -n else n)
    ensures Divides(d, n)
  {
    if n < 0 {
      DividesLinear(d, -n, 0, -1, 0);
    }
  }

  lemma GcdIsGreatest(a: int, b: int, g: int, x: int, y: int)
    requires g == a * x + b * y
    ensures forall d :: d > 0 && Divides(d, a) && Divides(d, b) ==> Divides(d, g)
  {
    forall d | d > 0 && Divides(d, a) && Divides(d, b)
      ensures Divides(d, g)
    {
      DividesLinear(d, a, b, x, y);
    }
  }

  /** Euclid's lemma: a prime dividing a product divides one of the factors. */
  lemma Euclid(p: int, a: int, b: int)
    requires IsPrime(p) && (a * b) % p == 0
    ensures a % p == 0 || b % p == 0
  {
    if a % p != 0 {
      var ar: nat := a % p;
      var t := ExtGcd(p, ar);
      var g, x, y := t.0, t.1, t.2;
      DividesLe(g, ar);
      assert g == 1;
      MulModLeft(a, b, p);
      assert (ar * b) % p == 0;
      assert b == (b * x) * p + y * (ar * b) by {
        assert 1 == p * x + ar * y;
        assert b == b * (p * x + ar * y);
      }
      DividesLinear(p, p, ar * b, b * x, y);
    }
  }

  /** In a field, 1 has only the square roots 1 and -1. */
  lemma SqrtOfOne(p: int, y: int)
    requires IsPrime(p) && 0 <= y < p && (y * y) % p == 1
    ensures y == 1 || y == p - 1
  {
    ModUnique(1, p, 0, 1);
    ModEqIffDiff(y * y, 1, p);
    assert (y - 1) * (y + 1) == y * y - 1;
    Euclid(p, y - 1, y + 1);
    if (y - 1) % p == 0 {
      SmallMultiple(p, y - 1);
    } else {
      ModAddMultiple(p, -1, y + 1);
      assert p * -1 + (y + 1) == y + 1 - p;
      SmallMultiple(p, y + 1 - p);
    }
  }


  lemma OddPrime(p: int)
    requires IsPrime(p) && p != 2
    ensures p % 2 == 1 && p >= 3
  {
    assert !Divides(2, p);
  }

  // ---------------------------------------------------------------------------
  // Products and permutations

  function Prod(s: seq<int>): int
  {
    if s == [] then 1 else s[0] * Prod(s[1..])
  }

  lemma MulAssoc(a: int, b: int, c: int)
    ensures a * (b * c) == (a * b) * c
  {
  }

  lemma {:induction false} ProdConcat(s: seq<int>, t: seq<int>)
    ensures Prod(s + t) == Prod(s) * Prod(t)
  {
    if s == [] {
      assert s + t == t;
    } else {
      assert (s + t)[0] == s[0];
      assert (s + t)[1..] == s[1..] + t;
      ProdConcat(s[1..], t);
      MulAssoc(s[0], Prod(s[1..]), Prod(t));
    }
  }

  /** A product does not depend on the order of its factors. */
  lemma {:induction false} ProdPerm(s: seq<int>, t: seq<int>)
    requires multiset(s) == multiset(t)
    ensures Prod(s) == Prod(t)
    decreases |s|
  {
    if s == [] {
      assert |t| == |multiset(t)| == 0;
    } else {
      var x := s[0];
      assert x in multiset(t);
      var k :| 0 <= k < |t| && t[k] == x;
      var rest := t[..k] + t[k + 1..];
      RemoveOccurrence(s, t, k, rest);
      ProdPerm(s[1..], rest);
      ProdRemove(t, k, rest);
    }
  }

  /** Taking the first entry of s and the equal entry t[k] of t leaves equal multisets. */
  lemma RemoveOccurrence(s: seq<int>, t: seq<int>, k: int, rest: seq<int>)
    requires multiset(s) == multiset(t) && |s| > 0 && 0 <= k < |t| && t[k] == s[0]
    requires rest == t[..k] + t[k + 1..]
    ensures multiset(s[1..]) == multiset(rest)
  {
    var x := s[0];
    assert t == t[..k] + [x] + t[k + 1..];
    assert s == [x] + s[1..];
    assert multiset(rest) == multiset(t[..k]) + multiset(t[k + 1..]);
    assert multiset(t) == multiset(t[..k]) + multiset{x} + multiset(t[k + 1..]);
    assert multiset(s) == multiset(s[1..]) + multiset{x};
    assert multiset(s[1..]) == multiset(s) - multiset{x};
    assert multiset(rest) == multiset(t) - multiset{x};
  }

  /** The product of t is t[k] times the product of the other entries. */
  lemma ProdRemove(t: seq<int>, k: int, rest: seq<int>)
    requires 0 <= k < |t| && rest == t[..k] + t[k + 1..]
    ensures Prod(t) == t[k] * Prod(rest)
  {
    var x := t[k];
    assert t == t[..k] + [x] + t[k + 1..];
    ProdConcat(t[..k] + [x], t[k + 1..]);
    ProdConcat(t[..k], [x]);
    ProdConcat(t[..k], t[k + 1..]);
    var u, v := Prod(t[..k]), Prod(t[k + 1..]);
    assert Prod([x]) == x;
    assert Prod(t) == u * x * v;
    Swap3(u, x, v);
  }

  lemma Swap3(u: int, x: int, v: int)
    ensures u * x * v == x * (u * v)
  {
  }

  predicate Distinct(s: seq<int>)
  {
    forall i, j :: 0 <= i < j < |s| ==> s[i] != s[j]
  }

  /** [1, 2, ..., n]. */
  function Upto(n: nat): (s: seq<int>)
    ensures |s| == n && forall i :: 0 <= i < n ==> s[i] == i + 1
  {
    seq(n, i => i + 1)
  }

  lemma RemoveAt(s: seq<int>, k: nat)
    requires Distinct(s) && k < |s|
    ensures Distinct(s[..k] + s[k + 1..])
    ensures multiset(s) == multiset(s[..k] + s[k + 1..]) + multiset{s[k]}
    ensures forall x :: x in s[..k] + s[k + 1..] ==> x in s && x != s[k]
  {
    assert s == s[..k] + [s[k]] + s[k + 1..];
  }

  /** Removing the entry m from distinct values in 1..m leaves distinct values in 1..m-1. */
  lemma RemoveLargest(s: seq<int>, k: nat, m: int, rest: seq<int>)
    requires Distinct(s) && k < |s| && s[k] == m && forall i :: 0 <= i < |s| ==> 1 <= s[i] <= m
    requires rest == s[..k] + s[k + 1..]
    ensures Distinct(rest) && |rest| == |s| - 1
    ensures forall i :: 0 <= i < |rest| ==> 1 <= rest[i] <= m - 1
    ensures multiset(s) == multiset(rest) + multiset{m}
  {
    RemoveAt(s, k);
    forall i | 0 <= i < |rest| ensures 1 <= rest[i] <= m - 1 {
      assert rest[i] in rest;
    }
  }

  /** Values in 1..m that miss m lie in 1..m-1. */
  lemma WithoutLargest(s: seq<int>, m: int)
    requires m !in s && forall i :: 0 <= i < |s| ==> 1 <= s[i] <= m
    ensures forall i :: 0 <= i < |s| ==> 1 <= s[i] <= m - 1
  {
    forall i | 0 <= i < |s| ensures 1 <= s[i] <= m - 1 {
      assert s[i] in s;
    }
  }

  /** Pigeonhole: n distinct values from 1..m need n <= m. */
  lemma {:induction false} DistinctBound(s: seq<int>, m: nat)
    requires Distinct(s) && forall i :: 0 <= i < |s| ==> 1 <= s[i] <= m
    ensures |s| <= m
  {
    if |s| > 0 {
      assert 1 <= s[0] <= m;
      if m in s {
        var k :| 0 <= k < |s| && s[k] == m;
        var rest := s[..k] + s[k + 1..];
        RemoveLargest(s, k, m, rest);
        DistinctBound(rest, m - 1);
      } else {
        WithoutLargest(s, m);
        DistinctBound(s, m - 1);
      }
    }
  }

  /** n distinct values from 1..n are a rearrangement of 1..n. */
  lemma {:induction false} DistinctFullRange(s: seq<int>, n: nat)
    requires Distinct(s) && |s| == n && forall i :: 0 <= i < n ==> 1 <= s[i] <= n
    ensures multiset(s) == multiset(Upto(n))
  {
    if n > 0 {
      if n !in s {
        WithoutLargest(s, n);
        DistinctBound(s, n - 1);
      }
      var k :| 0 <= k < n && s[k] == n;
      var rest := s[..k] + s[k + 1..];
      RemoveLargest(s, k, n, rest);
      DistinctFullRange(rest, n - 1);
      assert Upto(n) == Upto(n - 1) + [n];
    }
  }


  /** No factor 1..n of n! is divisible by a prime p > n, so neither is n!. */
  lemma {:induction false} FactorialNotDivisible(p: int, n: nat)
    requires IsPrime(p) && n < p
    ensures Prod(Upto(n)) % p != 0
  {
    if n > 0 {
      FactorialNotDivisible(p, n - 1);
      assert Upto(n) == Upto(n - 1) + [n];
      ProdConcat(Upto(n - 1), [n]);
      assert Prod([n]) == n;
      if Prod(Upto(n)) % p == 0 {
        Euclid(p, Prod(Upto(n - 1)), n);
        ModUnique(n, p, 0, n);
      }
    }
  }

  /** [a*1 mod p, a*2 mod p, ..., a*n mod p]. */
  function Scaled(a: int, p: int, n: nat): (s: seq<int>)
    requires p > 0
    ensures |s| == n && forall i :: 0 <= i < n ==> s[i] == (a * (i + 1)) % p
  {
    seq(n, i => (a * (i + 1)) % p)
  }

  lemma ScaledSnoc(a: int, p: int, n: nat)
    requires p > 0 && n > 0
    ensures Prod(Scaled(a, p, n)) == Prod(Scaled(a, p, n - 1)) * ((a * n) % p)
  {
    assert Scaled(a, p, n) == Scaled(a, p, n - 1) + [(a * n) % p];
    ProdConcat(Scaled(a, p, n - 1), [(a * n) % p]);
  }

  lemma UptoSnoc(n: nat)
    requires n > 0
    ensures Prod(Upto(n)) == Prod(Upto(n - 1)) * n
  {
    assert Upto(n) == Upto(n - 1) + [n];
    ProdConcat(Upto(n - 1), [n]);
  }

  lemma {:induction false} ScaledProdMod(a: int, p: int, n: nat)
    requires p > 0
    ensures Prod(Scaled(a, p, n)) % p == (Pow(a, n) * Prod(Upto(n))) % p
  {
    if n > 0 {
      ScaledProdMod(a, p, n - 1);
      var s, f, pw := Prod(Scaled(a, p, n - 1)), Prod(Upto(n - 1)), Pow(a, n - 1);
      ScaledSnoc(a, p, n);
      UptoSnoc(n);
      MulCongruent(s, pw * f, (a * n) % p, p);
      MulModRight(pw * f, a * n, p);
      Swap4(pw, f, a, n);
      assert Pow(a, n) == a * pw;
      assert (pw * a) * (f * n) == Pow(a, n) * Prod(Upto(n));
    }
  }

  lemma ScaledEntry(p: int, a: int, i: nat)
    requires IsPrime(p) && a % p != 0 && i < p - 1
    ensures 1 <= (a * (i + 1)) % p <= p - 1
  {
    if (a * (i + 1)) % p == 0 {
      Euclid(p, a, i + 1);
      ModUnique(i + 1, p, 0, i + 1);
    }
  }

  lemma ScaledInjective(p: int, a: int, i: nat, j: nat)
    requires IsPrime(p) && a % p != 0 && i < j < p - 1
    ensures (a * (i + 1)) % p != (a * (j + 1)) % p
  {
    if (a * (i + 1)) % p == (a * (j + 1)) % p {
      ModEqIffDiff(a * (j + 1), a * (i + 1), p);
      assert a * (j + 1) - a * (i + 1) == a * (j - i);
      Euclid(p, a, j - i);
      ModUnique(j - i, p, 0, j - i);
    }
  }

  /** Multiplication by a non-zero residue permutes the non-zero residues. */
  lemma ScaledIsPermutation(p: int, a: int)
    requires IsPrime(p) && a % p != 0
    ensures multiset(Scaled(a, p, p - 1)) == multiset(Upto(p - 1))
  {
    var t := Scaled(a, p, p - 1);
    forall i | 0 <= i < p - 1 ensures 1 <= t[i] <= p - 1 {
      ScaledEntry(p, a, i);
    }
    forall i, j | 0 <= i < j < p - 1 ensures t[i] != t[j] {
      ScaledInjective(p, a, i, j);
    }
    DistinctFullRange(t, p - 1);
  }

  /** A factor not divisible by p can be cancelled from a congruence. */
  lemma CancelFactor(p: int, x: int, f: int)
    requires IsPrime(p) && f % p != 0 && (x * f) % p == f % p
    ensures x % p == 1
  {
    ModEqIffDiff(x * f, f, p);
    assert x * f - f == (x - 1) * f;
    Euclid(p, x - 1, f);
    ModEqIffDiff(x, 1, p);
  }

  /** Fermat's little theorem. */
  lemma Fermat(p: int, a: int)
    requires IsPrime(p) && a % p != 0
    ensures Pow(a, p - 1) % p == 1
  {
    ScaledIsPermutation(p, a);
    ProdPerm(Scaled(a, p, p - 1), Upto(p - 1));
    ScaledProdMod(a, p, p - 1);
    FactorialNotDivisible(p, p - 1);
    CancelFactor(p, Pow(a, p - 1), Prod(Upto(p - 1)));
  }

  /** Raising a non-zero residue to (p-1)/2 gives 1 or p-1 (one half of Euler's criterion). */
  lemma EulerValues(p: int, a: int)
    requires IsPrime(p) && p != 2 && a % p != 0
    ensures Pow(a, (p - 1) / 2) % p == 1 || Pow(a, (p - 1) / 2) % p == p - 1
  {
    OddPrime(p);
    var k := (p - 1) / 2;
    var y := Pow(a, k) % p;
    MulMod(Pow(a, k), Pow(a, k), p);
    PowAdd(a, k, k);
    Fermat(p, a);
    assert (y * y) % p == 1;
    SqrtOfOne(p, y);
  }

  /** The square of a non-zero residue raised to (p-1)/2 gives 1. */
  lemma SquareIsResidue(p: int, x: int)
    requires IsPrime(p) && p != 2 && x % p != 0
    ensures Pow((x * x) % p, (p - 1) / 2) % p == 1
  {
    OddPrime(p);
    PowOfSquareMod(x, (p - 1) / 2, p);
    Fermat(p, x);
  }

  // ---------------------------------------------------------------------------
  // Polynomials modulo a prime

  /** Value at x of the polynomial with coefficients f (constant term first). */
  function Eval(f: seq<int>, x: int): int
  {
    if f == [] then 0 else f[0] + x * Eval(f[1..], x)
  }

  /** Quotient of f by (X - r), by synthetic division. */
  function Quot(f: seq<int>, r: int): seq<int>
  {
    if |f| <= 1 then [] else [Eval(f[1..], r)] + Quot(f[1..], r)
  }

  lemma QuotStep(x: int, r: int, gx: int, e: int, d: int)
    requires gx - e == (x - r) * d
    ensures x * gx - r * e == (x - r) * (e + x * d)
  {
    assert gx == e + (x - r) * d;
    assert x * gx == x * e + x * ((x - r) * d);
  }

  lemma {:induction false} QuotSpec(f: seq<int>, r: int, x: int)
    ensures Eval(f, x) - Eval(f, r) == (x - r) * Eval(Quot(f, r), x)
    ensures |f| >= 1 ==> |Quot(f, r)| == |f| - 1
    ensures |f| >= 2 ==> Quot(f, r)[|f| - 2] == f[|f| - 1]
  {
    if |f| == 1 {
      assert f[1..] == [];
    } else if |f| >= 2 {
      var g := f[1..];
      QuotSpec(g, r, x);
      var e, d := Eval(g, r), Eval(Quot(g, r), x);
      assert Eval(f, x) - Eval(f, r) == x * Eval(g, x) - r * e;
      QuotStep(x, r, Eval(g, x), e, d);
      assert ([e] + Quot(g, r))[1..] == Quot(g, r);
    }
  }

  /** A constant polynomial evaluates to its coefficient. */
  lemma EvalConstant(f: seq<int>, x: int)
    ensures |f| == 1 ==> Eval(f, x) == f[0]
  {
    if |f| == 1 {
      assert f[1..] == [];
    }
  }

  /** Lagrange: a polynomial whose leading coefficient is non-zero modulo a prime p
      has at most as many distinct roots in [0, p) as its degree. */
  lemma {:induction false} RootBound(p: int, f: seq<int>, xs: seq<int>)
    requires IsPrime(p) && |f| >= 1 && f[|f| - 1] % p != 0
    requires Distinct(xs)
    requires forall i :: 0 <= i < |xs| ==> 0 <= xs[i] < p && Eval(f, xs[i]) % p == 0
    ensures |xs| <= |f| - 1
    decreases |f|
  {
    if xs != [] {
      var r := xs[0];
      EvalConstant(f, r);
      if |f| > 1 {
        var g := Quot(f, r);
        QuotSpec(f, r, r);
        var rest := xs[1..];
        forall i | 0 <= i < |rest| ensures 0 <= rest[i] < p && Eval(g, rest[i]) % p == 0 {
          var y := rest[i];
          assert y == xs[i + 1];
          QuotSpec(f, r, y);
          ModEqIffDiff(Eval(f, y), Eval(f, r), p);
          Euclid(p, y - r, Eval(g, y));
          if (y - r) % p == 0 {
            SmallMultiple(p, y - r);
          }
        }
        RootBound(p, g, rest);
      }
    }
  }

  /** The polynomial X^j. */
  function Mono(j: nat): seq<int>
  {
    if j == 0 then [1] else [0] + Mono(j - 1)
  }

  lemma {:induction false} MonoSpec(j: nat, x: int)
    ensures |Mono(j)| == j + 1 && Mono(j)[j] == 1 && Eval(Mono(j), x) == Pow(x, j)
  {
    if j > 0 {
      MonoSpec(j - 1, x);
      assert Mono(j)[1..] == Mono(j - 1);
    }
  }

  /** [-1, 0, ..., 0, 1] is the polynomial X^k - 1. */
  lemma EvalPowerMinusOne(k: nat, z: int)
    requires k >= 1
    ensures Eval([-1] + Mono(k - 1), z) == Pow(z, k) - 1
  {
    var f := [-1] + Mono(k - 1);
    assert f[1..] == Mono(k - 1);
    MonoSpec(k - 1, z);
  }

  /** If no z in [2, p) had z^k = p-1 (mod p), every z in [1, p) would be a root of X^k - 1. */
  lemma AllRootsWithoutNonResidue(p: int, k: nat, z: int)
    requires IsPrime(p) && p != 2 && k == (p - 1) / 2 && 1 <= k && 1 <= z < p
    requires z >= 2 ==> Pow(z, k) % p != p - 1
    ensures Eval([-1] + Mono(k - 1), z) % p == 0
  {
    var w := Pow(z, k);
    ModUnique(1, p, 0, 1);
    assert w % p == 1 by {
      if z == 1 {
        PowOne(k);
      } else {
        ModUnique(z, p, 0, z);
        EulerValues(p, z);
      }
    }
    ModEqIffDiff(w, 1, p);
    EvalPowerMinusOne(k, z);
  }


  /** Every odd prime has a quadratic non-residue z in [2, p). */
  lemma NonResidueExists(p: int, k: nat)
    requires IsPrime(p) && p != 2 && k == (p - 1) / 2
    ensures exists z :: 2 <= z < p && Pow(z, k) % p == p - 1
  {
    OddPrime(p);
    if forall z :: 2 <= z < p ==> Pow(z, k) % p != p - 1 {
      var f := [-1] + Mono(k - 1);
      MonoSpec(k - 1, 0);
      assert f[|f| - 1] == 1;
      var xs := Upto(p - 1);
      forall i | 0 <= i < |xs| ensures 0 <= xs[i] < p && Eval(f, xs[i]) % p == 0 {
        AllRootsWithoutNonResidue(p, k, xs[i]);
      }
      RootBound(p, f, xs);
    }
  }
}
