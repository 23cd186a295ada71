/** The operations of the big-integer library that src/components/Linalg/index.js relies
    on, with their JavaScript-style rounding: `divide` truncates toward zero and `mod`
    keeps the sign of the dividend. Big integers are mathematical integers here. */
module BigInt {
  import opened NumberTheory

  function Abs(a: int): (r: nat)
    ensures r == a || r == -a
  {
    if a < 0 then -a else a
  }

  /** `a.divide(b)`: the quotient rounded toward zero. */
  function JsDiv(a: int, b: int): (q: int)
    requires b != 0
    ensures Abs(a - q * b) < Abs(b)
    ensures a >= 0 ==> a - q * b >= 0
    ensures a <= 0 ==> a - q * b <= 0
  {
    var u := Abs(a) / Abs(b);
    TruncQuotient(a, b, u, Abs(a) % Abs(b));
    if (a < 0) == (b < 0) then u else -u
  }

  /** Giving the quotient of the magnitudes the sign of a * b leaves the remainder of the
      magnitudes, with the sign of a. */
  lemma TruncQuotient(a: int, b: int, u: int, rem: int)
    requires b != 0 && Abs(a) == u * Abs(b) + rem && 0 <= rem < Abs(b)
    ensures var q := if (a < 0) == (b < 0) then u else -u;
      a - q * b == if a < 0 then -rem else rem
  {
    var q := if (a < 0) == (b < 0) then u else -u;
    if b < 0 {
      assert q * b == (-q) * Abs(b);
    } else {
      assert q * b == q * Abs(b);
    }
    if (a < 0) == (b < 0) {
      assert q * Abs(b) == u * Abs(b);
    } else {
      assert q * Abs(b) == -(u * Abs(b));
    }
  }

  /** An exact division leaves no remainder. */
  lemma JsDivExact(a: int, b: int)
    requires Divides(b, a)
    ensures JsDiv(a, b) * b == a
  {
    var k := a / b;
    assert a == b * k;
    QuotientUnique(a, b, JsDiv(a, b), k);
  }

  /** A quotient whose remainder is smaller than the divisor is the exact one. */
  lemma QuotientUnique(a: int, b: int, q: int, k: int)
    requires b != 0 && a == b * k && Abs(a - q * b) < Abs(b)
    ensures q == k
  {
    var e := k - q;
    assert a - q * b == b * e by {
      MulSub(b, k, q);
    }
    MulAbs(b, e);
    if e != 0 {
      MulMono(Abs(e), Abs(b));
    }
  }

  /** |x| * |y| grows with |x| when y is not zero. */
  lemma MulMono(x: nat, y: nat)
    requires x >= 1
    ensures x * y >= y
  {
  }

  lemma MulAbs(x: int, y: int)
    ensures Abs(x * y) == Abs(x) * Abs(y)
  {
    if x < 0 {
      assert x * y == -((-x) * y);
    }
    if y < 0 {
      assert Abs(x) * y == -(Abs(x) * (-y));
    }
  }

  /** `a.mod(m)`: the remainder of the truncating division, with the sign of a. */
  function JsMod(a: int, m: int): (r: int)
    requires m != 0
    ensures Abs(r) < Abs(m)
    ensures a >= 0 ==> r >= 0
    ensures a <= 0 ==> r <= 0
    ensures (a - r) % m == 0
  {
    var q := JsDiv(a, m);
    var r := a - q * m;
    assert a - r == q * m;
    assert (q * m) % m == 0 by {
      ModUnique(q * m, Abs(m), if m < 0 then -q else q, 0);
    }
    r
  }

  /** For a non-negative dividend and a positive modulus, `mod` is the usual remainder. */
  lemma JsModNonNeg(a: int, m: int)
    requires a >= 0 && m > 0
    ensures JsMod(a, m) == a % m
  {
    var r := JsMod(a, m);
    ModUnique(a, m, (a - r) / m, r);
  }
}
