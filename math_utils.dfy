/** The modular arithmetic of src/mathUtils.js: the Legendre symbol by Euler's
    criterion, the Tonelli-Shanks square root modulo a prime, the integer square
    root and the sieve of Eratosthenes that builds the list of primes. */
module MathUtils {
  import opened NumberTheory
  import opened Wrappers
  import opened BigInt

  /** The big-integer library's modPow for a positive modulus. It reduces the base with the
      sign-keeping `mod` and multiplies in only that base and non-negative squares, so the
      result is b^e reduced with that `mod`: non-negative for b >= 0, and with the sign of
      b^e for a negative base. */
  function ModPow(b: int, e: nat, m: int): (r: int)
    requires m > 0
    ensures r == JsMod(Pow(b, e), m)
    ensures Abs(r) < m && (Pow(b, e) - r) % m == 0
    ensures b >= 0 ==> 0 <= r < m
  {
    if b >= 0 then
      PowNonNeg(b, e);
      JsModNonNeg(Pow(b, e), m);
      Pow(b, e) % m
    else
      JsMod(Pow(b, e), m)
  }

  /** The Legendre symbol of a modulo an odd p, computed as a^((p-1)/2) mod p. For a < 0
      the symbol keeps the sign of the power, so it is +1 or -1 modulo p rather than 1 or p - 1. */
  function Legendre(a: int, p: int): (r: int)
    requires p >= 3 && p % 2 == 1
    ensures Abs(r) < p && (a >= 0 ==> 0 <= r < p)
    ensures IsPrime(p) ==> (a % p == 0 <==> r == 0)
    ensures IsPrime(p) && a % p != 0 ==> r % p == 1 || r % p == p - 1
    ensures IsPrime(p) && a >= 0 && a % p != 0 ==> r == 1 || r == p - 1
    ensures IsPrime(p) && 0 < a < p && IsQuadraticResidue(a, p) ==> r == 1
  {
    SymbolValues(a, p);
    ModPow(a, (p - 1) / 2, p)
  }

  /** What Euler's criterion says about the symbol, carried over from the power to the
      sign-keeping remainder. */
  lemma SymbolValues(a: int, p: int)
    requires p >= 3 && p % 2 == 1
    ensures var r := ModPow(a, (p - 1) / 2, p);
      (IsPrime(p) ==> (a % p == 0 <==> r == 0)) &&
      (IsPrime(p) && a % p != 0 ==> r % p == 1 || r % p == p - 1) &&
      (IsPrime(p) && a >= 0 && a % p != 0 ==> r == 1 || r == p - 1) &&
      (IsPrime(p) && 0 < a < p && IsQuadraticResidue(a, p) ==> r == 1)
  {
    var x := Pow(a, (p - 1) / 2);
    var r := ModPow(a, (p - 1) / 2, p);
    LegendreValues(a, p);
    ModEqIffDiff(x, r, p);
    if r % p == 0 {
      SmallMultiple(p, r);
    }
    if 0 <= r {
      ModUnique(r, p, 0, r);
    }
  }

  lemma LegendreValues(a: int, p: int)
    requires p >= 3 && p % 2 == 1
    ensures IsPrime(p) ==> (a % p == 0 <==> Pow(a, (p - 1) / 2) % p == 0)
    ensures IsPrime(p) && a % p != 0 ==>
      Pow(a, (p - 1) / 2) % p == 1 || Pow(a, (p - 1) / 2) % p == p - 1
    ensures IsPrime(p) && 0 < a < p && IsQuadraticResidue(a, p) ==> Pow(a, (p - 1) / 2) % p == 1
  {
    if IsPrime(p) {
      if a % p == 0 {
        MultipleHasSymbolZero(a, p);
      } else {
        EulerValues(p, a);
        PowNotDivisible(p, a, (p - 1) / 2);
      }
      if 0 < a < p && IsQuadraticResidue(a, p) {
        ResidueHasSymbolOne(a, p);
      }
    }
  }

  lemma MultipleHasSymbolZero(a: int, p: int)
    requires p >= 3 && a % p == 0
    ensures Pow(a, (p - 1) / 2) % p == 0
  {
    var k := (p - 1) / 2;
    assert k >= 1;
    PowMod(a, k, p);
    assert Pow(0, k) == 0 by {
      assert Pow(0, k) == 0 * Pow(0, k - 1);
    }
    ModUnique(0, p, 0, 0);
  }


  lemma ResidueHasSymbolOne(a: int, p: int)
    requires IsPrime(p) && p >= 3 && 0 < a < p && IsQuadraticResidue(a, p)
    ensures Pow(a, (p - 1) / 2) % p == 1
  {
    var x :| 0 <= x < p && SquareMod(x, p) == a;
    ModUnique(x, p, 0, x);
    SquareIsResidue(p, x);
  }

  /** No power of a residue that p does not divide is divisible by p. */
  lemma {:induction false} PowNotDivisible(p: int, a: int, k: nat)
    requires IsPrime(p) && a % p != 0
    ensures Pow(a, k) % p != 0
  {
    if k > 0 {
      PowNotDivisible(p, a, k - 1);
      assert Pow(a, k) == a * Pow(a, k - 1);
      if Pow(a, k) % p == 0 {
        Euclid(p, a, Pow(a, k - 1));
      }
    }
  }

  // ---------------------------------------------------------------------------
  // modSqrt

  /** 2^n, the value of the shift `1 << n` for the small n (below 31) that odd primes
      below 2^32 produce. */
  function TwoPow(n: nat): (r: nat)
    ensures r >= 1
  {
    if n == 0 then 1 else 2 * TwoPow(n - 1)
  }

  lemma {:induction false} TwoPowAdd(m: nat, n: nat)
    ensures TwoPow(m + n) == TwoPow(m) * TwoPow(n)
  {
    if m > 0 {
      TwoPowAdd(m - 1, n);
      assert TwoPow(m + n) == 2 * TwoPow(m - 1 + n);
    }
  }

  /** Lines 20-25: n = q * 2^s with q odd. */
  method SplitTwos(n: int) returns (q: int, s: nat)
    requires n > 0
    ensures q > 0 && q % 2 == 1 && n == q * TwoPow(s)
    ensures n % 2 == 0 ==> s >= 1
  {
    q, s := n, 0;
    while q % 2 == 0
      invariant q > 0 && n == q * TwoPow(s)
      invariant n % 2 == 0 && s == 0 ==> q == n
      decreases q
    {
      assert q == 2 * (q / 2);
      assert (q / 2) * TwoPow(s + 1) == (q / 2) * (2 * TwoPow(s));
      q := q / 2;
      s := s + 1;
    }
  }

  /** Lines 30-33: the least z >= 2 whose Legendre symbol is p - 1. */
  method FirstNonResidue(p: int) returns (z: int)
    requires IsPrime(p) && p % 2 == 1
    ensures 2 <= z < p
    ensures Legendre(z, p) == p - 1
    ensures forall w :: 2 <= w < z ==> Legendre(w, p) != p - 1
  {
    OddPrime(p);
    NonResidueExists(p, (p - 1) / 2);
    z := 2;
    while z < p && Legendre(z, p) != p - 1
      invariant 2 <= z <= p
      invariant forall w :: 2 <= w < z ==> Legendre(w, p) != p - 1
    {
      z := z + 1;
    }
    if z == p {
      var w :| 2 <= w < p && Pow(w, (p - 1) / 2) % p == p - 1;
      assert Legendre(w, p) == p - 1;
    }
  }

  lemma SquareOfPow2(t: int, i: nat, p: int)
    requires p > 0
    ensures ((Pow(t, TwoPow(i)) % p) * (Pow(t, TwoPow(i)) % p)) % p == Pow(t, TwoPow(i + 1)) % p
  {
    var e := TwoPow(i);
    MulMod(Pow(t, e), Pow(t, e), p);
    PowAdd(t, e, e);
    assert TwoPow(i + 1) == e + e;
  }

  /** Lines 43-49: the least i in [1, m) with t^(2^i) = 1 (mod p), or m when there is none. */
  method LeastSquaringExponent(t: int, m: int, p: int) returns (i: int)
    requires p > 1 && 0 <= t < p && m >= 1
    ensures 1 <= i <= m
    ensures i < m ==> Pow(t, TwoPow(i)) % p == 1
    ensures forall j :: 1 <= j < i ==> Pow(t, TwoPow(j)) % p != 1
  {
    var t2 := (t * t) % p;
    assert Pow(t, 1) == t;
    assert TwoPow(1) == 2 && Pow(t, 2) == t * t;
    i := 1;
    // (t2 - 1) % p === 0 holds exactly when t2 == 1, since 0 <= t2 < p.
    while i < m && t2 != 1
      invariant 1 <= i <= m
      invariant t2 == Pow(t, TwoPow(i)) % p
      invariant forall j :: 1 <= j < i ==> Pow(t, TwoPow(j)) % p != 1
    {
      SquareOfPow2(t, i, p);
      t2 := (t2 * t2) % p;
      i := i + 1;
    }
  }

  /** Products of congruent factors are congruent. */
  lemma MulBothCongruent(x: int, x': int, y: int, y': int, p: int)
    requires p > 0 && x % p == x' % p && y % p == y' % p
    ensures (x * y) % p == (x' * y') % p
  {
    MulMod(x, y, p);
    MulMod(x', y', p);
  }

  /** (p - 1)^2 = 1 (mod p). */
  lemma MinusOneSquared(p: int)
    requires p >= 2
    ensures ((p - 1) * (p - 1)) % p == 1
  {
    assert (p - 1) * (p - 1) == p * (p - 2) + 1;
    ModUnique((p - 1) * (p - 1), p, p - 2, 1);
  }

  /** The closed form used when p = 3 (mod 4): a^((p+1)/4) squares to a. */
  lemma ShortcutRoot(a: int, p: int, q: int)
    requires IsPrime(p) && p - 1 == q * 2 && q % 2 == 1 && 0 < a < p
    requires Pow(a, (p - 1) / 2) % p == 1
    ensures SquareMod(ModPow(a, (p + 1) / 4, p), p) == a
  {
    var h := (q + 1) / 2;
    assert (p + 1) / 4 == h;
    var r := Pow(a, h) % p;
    MulMod(Pow(a, h), Pow(a, h), p);
    PowAdd(a, h, h);
    assert h + h == q + 1;
    assert Pow(a, q + 1) == a * Pow(a, q);
    MulModRight(a, Pow(a, q), p);
    assert (p - 1) / 2 == q;
    ModUnique(a, p, 0, a);
  }

  /** The state that Tonelli-Shanks sets up before its loop satisfies the loop invariant. */
  lemma TonelliInit(a: int, p: int, q: int, s: nat, z: int)
    requires IsPrime(p) && s >= 2 && q % 2 == 1 && q > 0 && p - 1 == q * TwoPow(s)
    requires 0 < a && 0 <= z
    requires Pow(a, (p - 1) / 2) % p == 1 && Pow(z, (p - 1) / 2) % p == p - 1
    ensures (ModPow(a, (q + 1) / 2, p) * ModPow(a, (q + 1) / 2, p)) % p == (a * ModPow(a, q, p)) % p
    ensures Pow(ModPow(a, q, p), TwoPow(s - 1)) % p == 1
    ensures Pow(ModPow(z, q, p), TwoPow(s - 1)) % p == p - 1
  {
    var e := TwoPow(s - 1);
    assert TwoPow(s) == 2 * e;
    assert q * e == (p - 1) / 2;
    PowMod(Pow(a, q), e, p);
    PowMul(a, q, e);
    PowMod(Pow(z, q), e, p);
    PowMul(z, q, e);
    var h := (q + 1) / 2;
    MulMod(Pow(a, h), Pow(a, h), p);
    PowAdd(a, h, h);
    assert h + h == q + 1;
    assert Pow(a, q + 1) == a * Pow(a, q);
    MulModRight(a, Pow(a, q), p);
  }

  /** A value whose square is 1 but which is not 1 itself is p - 1. */
  lemma HalfOrderIsMinusOne(t: int, i: int, p: int)
    requires IsPrime(p) && 0 <= t < p && i >= 1 && Pow(t, TwoPow(i)) % p == 1
    requires i == 1 ==> t != 1
    requires i >= 2 ==> Pow(t, TwoPow(i - 1)) % p != 1
    ensures Pow(t, TwoPow(i - 1)) % p == p - 1
  {
    var y := Pow(t, TwoPow(i - 1)) % p;
    SquareOfPow2(t, i - 1, p);
    if i == 1 {
      assert Pow(t, TwoPow(0)) == t;
      ModUnique(t, p, 0, t);
    }
    SqrtOfOne(p, y);
  }

  /** b = c^(2^(m-i-1)) has b^(2^i) = c^(2^(m-1)). */
  lemma StepFactor(c: int, p: int, m: nat, i: nat)
    requires p > 0 && i < m && c >= 0
    ensures Pow(ModPow(c, TwoPow(m - i - 1), p), TwoPow(i)) % p == Pow(c, TwoPow(m - 1)) % p
  {
    PowMod(Pow(c, TwoPow(m - i - 1)), TwoPow(i), p);
    PowMul(c, TwoPow(m - i - 1), TwoPow(i));
    TwoPowAdd(m - i - 1, i);
  }

  /** Squaring b halves the exponent that reaches -1. */
  lemma StepSquare(b: int, p: int, i: nat)
    requires p > 0 && i >= 1
    ensures Pow((b * b) % p, TwoPow(i - 1)) % p == Pow(b, TwoPow(i)) % p
  {
    PowOfSquareMod(b, TwoPow(i - 1), p);
  }

  /** The product of two values whose e-th powers are both -1 has e-th power 1. */
  lemma StepProduct(t: int, c: int, p: int, e: nat)
    requires p >= 2 && Pow(t, e) % p == p - 1 && Pow(c, e) % p == p - 1
    ensures Pow((t * c) % p, e) % p == 1
  {
    PowMod(t * c, e, p);
    PowMulBase(t, c, e);
    MulMod(Pow(t, e), Pow(c, e), p);
    MinusOneSquared(p);
  }

  /** Multiplying r by b and t by b^2 keeps r^2 = a t. */
  lemma StepRoot(a: int, p: int, r: int, t: int, b: int)
    requires p > 0 && (r * r) % p == (a * t) % p
    ensures (((r * b) % p) * ((r * b) % p)) % p == (a * ((t * ((b * b) % p)) % p)) % p
  {
    var r' := (r * b) % p;
    var c' := (b * b) % p;
    var t' := (t * c') % p;
    ModOfMod(b * b, p);
    ModOfMod(t * c', p);
    calc {
      (r' * r') % p;
    == { MulMod(r * b, r * b, p); }
      ((r * b) * (r * b)) % p;
    == { SquareOfProduct(r, b, p); }
      ((r * r) * (b * b)) % p;
    == { MulBothCongruent(r * r, a * t, b * b, c', p); }
      ((a * t) * c') % p;
    == { MulAssoc(a, t, c'); }
      (a * (t * c')) % p;
    == { MulBothCongruent(a, a, t * c', t', p); }
      (a * t') % p;
    }
  }

  lemma SquareOfProduct(r: int, b: int, p: int)
    requires p > 0
    ensures ((r * b) * (r * b)) % p == ((r * r) * (b * b)) % p
  {
    var x := (r * b) * (r * b);
    var y := (r * r) * (b * b);
    assert x == y by {
      Swap4(r, b, r, b);
    }
  }

  lemma ModOfMod(x: int, p: int)
    requires p > 0
    ensures (x % p) % p == x % p
  {
    ModUnique(x % p, p, 0, x % p);
  }

  /** One iteration of the Tonelli-Shanks loop (lines 51-55) preserves its invariant. */
  lemma TonelliStep(a: int, p: int, r: int, c: int, t: int, m: int, i: int)
    requires IsPrime(p) && 0 <= r < p && 0 <= c < p && 0 <= t < p && 1 <= i < m
    requires (r * r) % p == (a * t) % p
    requires Pow(c, TwoPow(m - 1)) % p == p - 1
    requires Pow(t, TwoPow(i)) % p == 1
    requires i == 1 ==> t != 1
    requires i >= 2 ==> Pow(t, TwoPow(i - 1)) % p != 1
    ensures var b := ModPow(c, TwoPow(m - i - 1), p);
            var c' := (b * b) % p;
            var t' := (t * c') % p;
            var r' := (r * b) % p;
            (r' * r') % p == (a * t') % p &&
            Pow(t', TwoPow(i - 1)) % p == 1 &&
            Pow(c', TwoPow(i - 1)) % p == p - 1
  {
    var b := ModPow(c, TwoPow(m - i - 1), p);
    HalfOrderIsMinusOne(t, i, p);
    StepFactor(c, p, m, i);
    StepSquare(b, p, i);
    StepProduct(t, (b * b) % p, p, TwoPow(i - 1));
    StepRoot(a, p, r, t, b);
  }

  /** A non-residue has no square root modulo p. */
  lemma NonResidueHasNoRoot(a: int, p: int)
    requires IsPrime(p) && p != 2 && 0 < a < p
    requires Pow(a, (p - 1) / 2) % p == p - 1
    ensures !IsQuadraticResidue(a, p)
  {
    if IsQuadraticResidue(a, p) {
      OddPrime(p);
      LegendreValues(a, p);
    }
  }

  /** A value with a square root is a quadratic residue. */
  lemma RootWitness(r: int, a: int, p: int)
    requires p > 0 && 0 <= r < p && SquareMod(r, p) == a
    ensures IsQuadraticResidue(a, p)
  {
  }

  /** Lines 30-57: the Tonelli-Shanks loop for a residue a when p - 1 = q * 2^s with s >= 2. */
  method TonelliShanks(a: int, p: int, q: int, s: nat) returns (r: int)
    requires IsPrime(p) && 0 < a < p && Pow(a, (p - 1) / 2) % p == 1
    requires s >= 2 && q > 0 && q % 2 == 1 && p - 1 == q * TwoPow(s)
    ensures 0 <= r < p && SquareMod(r, p) == a
  {
    OddPrime(p);
    var z := FirstNonResidue(p);
    var c := ModPow(z, q, p);
    r := ModPow(a, (q + 1) / 2, p);
    var t := ModPow(a, q, p);
    var m := s;
    TonelliInit(a, p, q, s, z);
    // (t - 1) % p !== 0 holds exactly when t != 1, since 0 <= t < p.
    while t != 1
      invariant 1 <= m && 0 <= r < p && 0 <= c < p && 0 <= t < p
      invariant (r * r) % p == (a * t) % p
      invariant Pow(t, TwoPow(m - 1)) % p == 1
      invariant Pow(c, TwoPow(m - 1)) % p == p - 1
      decreases m
    {
      var i := LeastSquaringExponent(t, m, p);
      if i == m {
        if m == 1 {
          assert Pow(t, TwoPow(0)) == t;
          ModUnique(t, p, 0, t);
        }
        assert false;
      }
      TonelliStep(a, p, r, c, t, m, i);
      var b := ModPow(c, TwoPow(m - i - 1), p);
      r := (r * b) % p;
      c := (b * b) % p;
      t := (t * c) % p;
      m := i;
    }
    ModUnique(a, p, 0, a);
  }

  /** Lines 8-58: the square root of a modulo the prime p, None for a non-residue. */
  method ModSqrt(a: int, p: int) returns (root: Option<int>)
    requires IsPrime(p) && 0 <= a < p
    ensures p == 2 ==> root == Some(a)
    ensures p != 2 && a == 0 ==> root == Some(0)
    ensures p % 2 == 1 ==> (root.None? <==> Legendre(a, p) == p - 1)
    ensures root.None? <==> !IsQuadraticResidue(a, p)
    ensures root.Some? ==> 0 <= root.value < p && SquareMod(root.value, p) == a
  {
    if p == 2 {
      assert SquareMod(a, p) == a;
      RootWitness(a, a, p);
      return Some(a);
    }
    OddPrime(p);
    if a == 0 {
      assert SquareMod(0, p) == 0;
      RootWitness(0, 0, p);
      return Some(0);
    }
    if Legendre(a, p) == p - 1 {
      NonResidueHasNoRoot(a, p);
      return None;
    }
    ResidueSymbol(a, p);
    var r := ResidueRoot(a, p);
    RootWitness(r, a, p);
    return Some(r);
  }

  /** A symbol other than p - 1 for 0 < a < p is 1. */
  lemma ResidueSymbol(a: int, p: int)
    requires IsPrime(p) && p >= 3 && p % 2 == 1 && 0 < a < p && Legendre(a, p) != p - 1
    ensures Pow(a, (p - 1) / 2) % p == 1
  {
    ModUnique(a, p, 0, a);
    LegendreValues(a, p);
  }

  /** Lines 19-57: the root of a residue a, by the shortcut when p = 3 mod 4 and by
      Tonelli-Shanks otherwise. */
  method ResidueRoot(a: int, p: int) returns (r: int)
    requires IsPrime(p) && p != 2 && 0 < a < p && Pow(a, (p - 1) / 2) % p == 1
    ensures 0 <= r < p && SquareMod(r, p) == a
  {
    OddPrime(p);
    var q, s := SplitTwos(p - 1);
    if s == 1 {
      assert TwoPow(1) == 2;
      r := ModPow(a, (p + 1) / 4, p);
      ShortcutRoot(a, p, q);
    } else {
      r := TonelliShanks(a, p, q, s);
    }
  }

  // ---------------------------------------------------------------------------
  // isqrt

  /** The binary search of lines 63-74: the floor square root of n >= 0. */
  method SearchRoot(n: int) returns (root: int)
    requires n >= 0
    ensures 0 <= root && root * root <= n < (root + 1) * (root + 1)
  {
    var left, right := 0, n + 1;
    while right - left != 1
      invariant 0 <= left < right && left * left <= n < right * right
      decreases right - left
    {
      var mid := (left + right) / 2;
      if mid * mid <= n {
        left := mid;
      } else {
        right := mid;
      }
    }
    return left;
  }

  /** Lines 60-75 as written: every n <= 2 is returned unchanged, so isqrt(2) is 2. */
  method Isqrt(n: int) returns (root: int)
    ensures n <= 2 ==> root == n
    ensures n >= 3 ==> 0 <= root && root * root <= n < (root + 1) * (root + 1)
  {
    if n <= 2 {
      return n;
    }
    root := SearchRoot(n);
  }

  /** The floor square root that the guard of line 61 evidently intends: only 0 and 1
      (and negative inputs) are returned unchanged. */
  method FloorSqrt(n: int) returns (root: int)
    ensures n < 0 ==> root == n
    ensures n >= 0 ==> 0 <= root && root * root <= n < (root + 1) * (root + 1)
  {
    if n <= 1 {
      return n;
    }
    root := SearchRoot(n);
  }

  /** The input that shows the guard of line 61 is off by one: isqrt(2) is 2, whose square
      exceeds 2, while the floor square root of 2 is 1. */
  method IsqrtOfTwo() returns (asWritten: int, intended: int)
    ensures asWritten == 2 && asWritten * asWritten > 2
    ensures intended == 1 && intended * intended <= 2 < (intended + 1) * (intended + 1)
  {
    asWritten := Isqrt(2);
    intended := FloorSqrt(2);
    if intended >= 2 {
      SquareMono(2, intended);
    }
  }

  lemma SquareMono(x: int, y: int)
    requires 0 <= x <= y
    ensures x * x <= y * y
  {
    assert x * x <= x * y <= y * y;
  }

  /** The floor square root as a reference definition, counting up from 0. */
  function FloorRoot(n: nat): (r: nat)
    ensures r * r <= n < (r + 1) * (r + 1)
  {
    if n == 0 then 0
    else
      var r := FloorRoot(n - 1);
      if (r + 1) * (r + 1) <= n then
        assert (r + 2) * (r + 2) == (r + 1) * (r + 1) + 2 * r + 3;
        r + 1
      else r
  }

  /** The floor square root is unique, so FloorSqrt computes FloorRoot. */
  lemma FloorRootUnique(n: nat, root: int)
    requires 0 <= root && root * root <= n < (root + 1) * (root + 1)
    ensures root == FloorRoot(n)
  {
    var r := FloorRoot(n);
    if root < r {
      SquareMono(root + 1, r);
    } else if root > r {
      SquareMono(r + 1, root);
    }
  }

  // ---------------------------------------------------------------------------
  // The prime list

  /** Upper bound of the prime list in the source. */
  const MAX: nat := 1000000

  /** n >= 2 has no divisor d with 2 <= d < i and d * d <= n. */
  ghost predicate Survives(n: int, i: int)
  {
    n >= 2 && forall d :: 2 <= d < i && d * d <= n ==> !Divides(d, n)
  }

  lemma DividesTrans(a: int, b: int, c: int)
    requires a > 0 && b > 0 && Divides(a, b) && Divides(b, c)
    ensures Divides(a, c)
  {
    assert c == b * (c / b);
    DividesLinear(a, b, 0, c / b, 0);
  }

  /** A composite n has a divisor d >= 2 with d * d <= n. */
  lemma SmallDivisor(n: int, d: int)
    requires 2 <= d < n && Divides(d, n)
    ensures exists e :: 2 <= e && e * e <= n && Divides(e, n)
  {
    var f := n / d;
    assert n == d * f;
    MulLeft(d, f, 1);
    assert f >= 2;
    ModAddMultiple(f, d, 0);
    assert f * d + 0 == n;
    assert Divides(f, n);
    MulLeft(d, d, f);
    MulLeft(f, f, d);
    if d <= f {
      assert 2 <= d && d * d <= n && Divides(d, n);
    } else {
      assert 2 <= f && f * f <= n && Divides(f, n);
    }
  }


  /** Once i * i >= max, surviving the sieve is being prime. */
  lemma SurvivorsArePrimes(n: int, i: int, max: int)
    requires 0 <= n < max <= i * i && i >= 2
    ensures Survives(n, i) <==> IsPrime(n)
  {
    if Survives(n, i) && !IsPrime(n) {
      var d :| 2 <= d < n && Divides(d, n);
      SmallDivisor(n, d);
      var e :| 2 <= e && e * e <= n && Divides(e, n);
      if e >= i {
        SquareMono(i, e);
      }
    }
    if IsPrime(n) {
      forall d | 2 <= d < i && d * d <= n ensures !Divides(d, n) {
        if d >= n {
          SquareMono(n, d);
        }
      }
    }
  }

  /** A composite i removes nothing new: its multiples were removed by a smaller divisor. */
  lemma CompositeRemovesNothing(n: int, i: int)
    requires i >= 2 && !Survives(i, i) && Survives(n, i)
    ensures !(i * i <= n && Divides(i, n))
  {
    var d :| 2 <= d < i && d * d <= i && Divides(d, i);
    MulLeft(i, 1, i);
    if i * i <= n && Divides(i, n) {
      DividesTrans(d, i, n);
    }
  }


  /** Lines 86-88: clears every multiple of i from i * i on. */
  method CrossOut(sieve: array<bool>, i: int)
    requires i >= 2
    modifies sieve
    ensures forall n :: 0 <= n < sieve.Length ==>
      sieve[n] == (old(sieve[n]) && !(i * i <= n && n % i == 0))
  {
    var start := i * i;
    var j := start;
    ModAddMultiple(i, i, 0);
    while j < sieve.Length
      invariant start <= j && j % i == 0
      invariant forall n :: 0 <= n < sieve.Length ==>
        sieve[n] == (old(sieve[n]) && !(start <= n < j && n % i == 0))
    {
      sieve[j] := false;
      GapHasNoMultiple(i, j);
      j := j + i;
    }
  }

  /** Between two consecutive multiples of i there is no other. */
  lemma GapHasNoMultiple(i: int, j: int)
    requires i > 0 && j % i == 0
    ensures forall n :: j < n < j + i ==> n % i != 0
    ensures (j + i) % i == 0
  {
    forall n | j < n < j + i ensures n % i != 0 {
      ModUnique(n, i, j / i, n - j);
    }
    ModAddMultiple(i, j / i, i);
  }

  /** Lines 80-90: the sieve of Eratosthenes; entry n is true exactly when n is prime. */
  method Sieve(max: nat) returns (sieve: array<bool>)
    requires max >= 2
    ensures sieve.Length == max
    ensures forall n :: 0 <= n < max ==> (sieve[n] <==> IsPrime(n))
  {
    sieve := new bool[max](_ => true);
    sieve[0] := false;
    sieve[1] := false;
    var i := 2;
    // i < Math.sqrt(MAX) is i * i < MAX for non-negative i.
    while i * i < max
      invariant 2 <= i && sieve.Length == max
      invariant forall n :: 0 <= n < max ==> (sieve[n] <==> Survives(n, i))
    {
      if sieve[i] {
        CrossOut(sieve, i);
        forall n | 0 <= n < max ensures sieve[n] <==> Survives(n, i + 1) {
          SurvivesStep(n, i);
        }
      } else {
        forall n | 0 <= n < max ensures sieve[n] <==> Survives(n, i + 1) {
          SurvivesStep(n, i);
          if Survives(n, i) {
            CompositeRemovesNothing(n, i);
          }
        }
      }
      i := i + 1;
    }
    forall n | 0 <= n < max ensures sieve[n] <==> IsPrime(n) {
      SurvivorsArePrimes(n, i, max);
    }
  }

  /** Lines 92-95: the indices of the true entries from 2 on, in increasing order. */
  method CollectPrimes(sieve: array<bool>) returns (primeList: seq<int>)
    ensures forall i, j :: 0 <= i < j < |primeList| ==> primeList[i] < primeList[j]
    ensures forall n :: n in primeList <==> 2 <= n < sieve.Length && sieve[n]
  {
    primeList := [];
    var k := 2;
    while k < sieve.Length
      invariant forall a, b :: 0 <= a < b < |primeList| ==> primeList[a] < primeList[b]
      invariant forall a :: 0 <= a < |primeList| ==> 2 <= primeList[a] < k
      invariant forall n :: n in primeList <==> 2 <= n < k && n < sieve.Length && sieve[n]
    {
      if sieve[k] {
        primeList := primeList + [k];
      }
      k := k + 1;
    }
  }

  /** Lines 78-95: the primes below max, in increasing order. */
  method SievePrimes(max: nat) returns (primeList: seq<int>)
    requires max >= 2
    ensures forall i, j :: 0 <= i < j < |primeList| ==> primeList[i] < primeList[j]
    ensures forall n :: n in primeList <==> 2 <= n < max && IsPrime(n)
  {
    var sieve := Sieve(max);
    primeList := CollectPrimes(sieve);
  }

  /** Lines 78-97: the exported prime list, the sieve run at the source's bound MAX. */
  method PrimeList() returns (primeList: seq<int>)
    ensures forall i, j :: 0 <= i < j < |primeList| ==> primeList[i] < primeList[j]
    ensures forall n :: n in primeList <==> 2 <= n < MAX && IsPrime(n)
  {
    primeList := SievePrimes(MAX);
  }

  lemma SurvivesStep(n: int, i: int)
    requires i >= 2
    ensures Survives(n, i + 1) <==> Survives(n, i) && !(i * i <= n && n % i == 0)
  {
    assert Divides(i, n) <==> n % i == 0;
  }
}
