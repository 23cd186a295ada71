/** Why a null-space vector of the relation matrix gives a congruence of squares: every kept
    y is the product of the base entries its parity vector flags, so the product of the y
    values a null-space vector selects has an even exponent on every entry of the base. */
module Squares {
  import opened NumberTheory
  import opened Gf2
  import opened Relations

  /** Every index in v picks an element of a sequence of length n. */
  predicate InRange(v: seq<int>, n: int)
  {
    forall c :: 0 <= c < |v| ==> 0 <= v[c] < n
  }

  /** The product of the entries of ys that v selects, with repetition (lines 150-153). */
  function Product(ys: seq<int>, v: seq<int>): int
    requires InRange(v, |ys|)
  {
    if |v| == 0 then 1 else Product(ys, v[..|v| - 1]) * ys[v[|v| - 1]]
  }

  /** How many of the rows that v selects have a 1 in column l. */
  function Count(rows: seq<seq<Bit>>, v: seq<int>, l: int): nat
    requires InRange(v, |rows|)
  {
    if |v| == 0 then 0 else Count(rows, v[..|v| - 1], l) + At(rows[v[|v| - 1]], l)
  }

  /** Row l of the transposed matrix has even parity over v exactly when column l of the
      selected rows holds an even number of 1s. */
  lemma {:induction false} ParityIsCount(rows: seq<seq<Bit>>, cols: nat, v: seq<int>, l: int)
    requires InRange(v, |rows|) && 0 <= l < cols
    ensures Parity(Transpose(rows, cols)[l], v) == Count(rows, v, l) % 2
  {
    if |v| > 0 {
      ParityIsCount(rows, cols, v[..|v| - 1], l);
      var i := v[|v| - 1];
      assert At(Transpose(rows, cols)[l], i) == At(rows[i], l);
    }
  }

  /** The product over l < n of fb[l] raised to the number of selected rows flagging l. */
  function PowProd(fb: seq<int>, rows: seq<seq<Bit>>, v: seq<int>, n: nat): int
    requires InRange(v, |rows|) && n <= |fb|
  {
    if n == 0 then 1 else PowProd(fb, rows, v, n - 1) * Pow(fb[n - 1], Count(rows, v, n - 1))
  }

  /** The same product with every exponent halved. */
  function HalfProd(fb: seq<int>, rows: seq<seq<Bit>>, v: seq<int>, n: nat): int
    requires InRange(v, |rows|) && n <= |fb|
  {
    if n == 0 then 1 else HalfProd(fb, rows, v, n - 1) * Pow(fb[n - 1], Count(rows, v, n - 1) / 2)
  }

  /** Selecting one more row multiplies the power product by that row's flagged entries. */
  lemma {:induction false} PowProdSnoc(fb: seq<int>, rows: seq<seq<Bit>>, v: seq<int>, i: int, n: nat)
    requires InRange(v, |rows|) && 0 <= i < |rows| && n <= |fb| && n <= |rows[i]|
    ensures InRange(v + [i], |rows|)
    ensures PowProd(fb, rows, v + [i], n) == PowProd(fb, rows, v, n) * FlagProd(rows[i], fb, n)
  {
    var w := v + [i];
    assert w[..|w| - 1] == v;
    if n > 0 {
      PowProdSnoc(fb, rows, v, i, n - 1);
      var b := fb[n - 1];
      var cnt := Count(rows, v, n - 1);
      assert Count(rows, w, n - 1) == cnt + rows[i][n - 1];
      var step := if rows[i][n - 1] == 1 then b else 1;
      assert Pow(b, cnt + rows[i][n - 1]) == Pow(b, cnt) * step by {
        PowAdd(b, cnt, rows[i][n - 1]);
      }
      Swap4(PowProd(fb, rows, v, n - 1), FlagProd(rows[i], fb, n - 1), Pow(b, cnt), step);
    }
  }

  /** When every y is the product of its flagged base entries, the product of the selected
      y values is the power product. */
  lemma {:induction false} ProductIsPowProd(ys: seq<int>, fb: seq<int>, rows: seq<seq<Bit>>, v: seq<int>)
    requires |rows| == |ys| && InRange(v, |ys|)
    requires forall i :: 0 <= i < |ys| ==> |rows[i]| == |fb| && ys[i] == FlagProd(rows[i], fb, |fb|)
    ensures Product(ys, v) == PowProd(fb, rows, v, |fb|)
  {
    if |v| == 0 {
      PowProdEmpty(fb, rows, v, |fb|);
    } else {
      var v' := v[..|v| - 1];
      ProductIsPowProd(ys, fb, rows, v');
      PowProdSnoc(fb, rows, v', v[|v| - 1], |fb|);
      assert v' + [v[|v| - 1]] == v;
    }
  }

  /** With nothing selected every exponent is 0. */
  lemma {:induction false} PowProdEmpty(fb: seq<int>, rows: seq<seq<Bit>>, v: seq<int>, n: nat)
    requires |v| == 0 && n <= |fb|
    ensures PowProd(fb, rows, v, n) == 1
  {
    if n > 0 {
      PowProdEmpty(fb, rows, v, n - 1);
    }
  }

  /** Even exponents make the power product the square of the halved one. */
  lemma {:induction false} EvenPowProd(fb: seq<int>, rows: seq<seq<Bit>>, v: seq<int>, n: nat)
    requires InRange(v, |rows|) && n <= |fb|
    requires forall l :: 0 <= l < n ==> Count(rows, v, l) % 2 == 0
    ensures PowProd(fb, rows, v, n) == HalfProd(fb, rows, v, n) * HalfProd(fb, rows, v, n)
  {
    if n > 0 {
      EvenPowProd(fb, rows, v, n - 1);
      var b, cnt := fb[n - 1], Count(rows, v, n - 1);
      var h := HalfProd(fb, rows, v, n - 1);
      PowAdd(b, cnt / 2, cnt / 2);
      assert cnt / 2 + cnt / 2 == cnt;
      Swap4(h, h, Pow(b, cnt / 2), Pow(b, cnt / 2));
    }
  }

  /** The central fact of lines 142-156: for a valid factor base, a set of kept relations
      whose parity vectors XOR to zero has a product of y values that is a perfect square. */
  lemma RelationsGiveSquare(ys: seq<int>, fb: seq<int>, v: seq<int>)
    requires ValidBase(fb) && InRange(v, |ys|)
    requires forall i :: 0 <= i < |ys| ==> Verified(ys[i], fb)
    requires Kills(Transpose(Vectors(ys, fb), |fb|), v)
    ensures Product(ys, v) == HalfProd(fb, Vectors(ys, fb), v, |fb|) * HalfProd(fb, Vectors(ys, fb), v, |fb|)
  {
    var rows := Vectors(ys, fb);
    forall i | 0 <= i < |ys| ensures |rows[i]| == |fb| && ys[i] == FlagProd(rows[i], fb, |fb|) {
      VerifiedIsProduct(ys[i], fb);
    }
    ProductIsPowProd(ys, fb, rows, v);
    forall l | 0 <= l < |fb| ensures Count(rows, v, l) % 2 == 0 {
      ParityIsCount(rows, |fb|, v, l);
      assert Parity(Transpose(rows, |fb|)[l], v) == 0;
    }
    EvenPowProd(fb, rows, v, |fb|);
  }
}
