/** completeFactorization of src/components/Linalg/index.js (lines 138-163) and the step of
    lines 173-189 that turns its congruence of squares into the factors p and q. */
module Factorization {
  import opened Wrappers
  import opened NumberTheory
  import opened BigInt
  import opened Gf2
  import opened Linalg
  import opened MathUtils
  import opened Relations
  import opened Squares

  /** Line 151: the product of the selected x values, reduced with `mod` after each step. */
  function ProdMod(xs: seq<int>, v: seq<int>, N: int): int
    requires InRange(v, |xs|) && N != 0
  {
    if |v| == 0 then 1 else JsMod(ProdMod(xs, v[..|v| - 1], N) * xs[v[|v| - 1]], N)
  }

  /** What FloorSqrt returns: negative inputs unchanged, otherwise the floor square root. */
  function RootOf(b: int): int
  {
    if b < 0 then b else FloorRoot(b)
  }

  /** Lines 148-157: the pair (a, c) that a null-space vector v yields. */
  function Candidate(xs: seq<int>, ys: seq<int>, v: seq<int>, N: int): (int, int)
    requires InRange(v, |xs|) && InRange(v, |ys|) && N > 0
  {
    (Abs(ProdMod(xs, v, N)), JsMod(RootOf(Product(ys, v)), N))
  }

  /** Line 158: a congruence a^2 = c^2 that gives no factor, with a = c or a + c = N. */
  predicate Trivial(pair: (int, int), N: int)
  {
    pair.0 == pair.1 || pair.0 + pair.1 == N
  }

  /** Reducing after every step does not change the product modulo N. */
  lemma {:induction false} ProdModCongruent(xs: seq<int>, v: seq<int>, N: int)
    requires InRange(v, |xs|) && N > 0
    ensures ProdMod(xs, v, N) % N == Product(xs, v) % N
  {
    if |v| > 0 {
      var v' := v[..|v| - 1];
      ProdModCongruent(xs, v', N);
      var z := ProdMod(xs, v', N) * xs[v[|v| - 1]];
      ModEqIffDiff(z, JsMod(z, N), N);
      MulCongruent(ProdMod(xs, v', N), Product(xs, v'), xs[v[|v| - 1]], N);
    }
  }

  /** With y = x * x - N for every relation, the product of the selected y values is the
      square of the product of the selected x values, modulo N. */
  lemma {:induction false} ProductOfSquares(xs: seq<int>, ys: seq<int>, v: seq<int>, N: int)
    requires N > 0 && |ys| == |xs| && InRange(v, |xs|)
    requires forall i :: 0 <= i < |xs| ==> ys[i] == xs[i] * xs[i] - N
    ensures Product(ys, v) % N == (Product(xs, v) * Product(xs, v)) % N
  {
    if |v| > 0 {
      var v' := v[..|v| - 1];
      var i := v[|v| - 1];
      ProductOfSquares(xs, ys, v', N);
      var px := Product(xs, v');
      assert ys[i] % N == (xs[i] * xs[i]) % N by {
        ModEqIffDiff(ys[i], xs[i] * xs[i], N);
        assert (ys[i] - xs[i] * xs[i]) % N == 0 by {
          ModUnique(ys[i] - xs[i] * xs[i], N, -1, 0);
        }
      }
      MulBothCongruent(Product(ys, v'), px * px, ys[i], xs[i] * xs[i], N);
      Swap4(px, px, xs[i], xs[i]);
    }
  }

  /** On a perfect square the root FloorSqrt returns is the non-negative root. */
  lemma RootOfPerfectSquare(h: int)
    ensures RootOf(h * h) == Abs(h)
  {
    FloorRootUnique(h * h, Abs(h));
  }

  /** a = |ProdMod| lies in [0, N) and squares to the square of the plain product. */
  lemma SquareOfA(xs: seq<int>, v: seq<int>, N: int)
    requires N > 0 && InRange(v, |xs|) && |v| > 0
    ensures 0 <= Abs(ProdMod(xs, v, N)) < N
    ensures (Abs(ProdMod(xs, v, N)) * Abs(ProdMod(xs, v, N))) % N == (Product(xs, v) * Product(xs, v)) % N
  {
    var pm := ProdMod(xs, v, N);
    var a := Abs(pm);
    assert a * a == pm * pm;
    ProdModCongruent(xs, v, N);
    MulBothCongruent(pm, Product(xs, v), pm, Product(xs, v), N);
  }

  /** c = isqrt(h * h) mod N lies in [0, N) and squares to h * h modulo N. */
  lemma SquareOfC(h: int, N: int)
    requires N > 0
    ensures 0 <= JsMod(RootOf(h * h), N) < N
    ensures (JsMod(RootOf(h * h), N) * JsMod(RootOf(h * h), N)) % N == (h * h) % N
  {
    RootOfPerfectSquare(h);
    var r := Abs(h);
    assert r * r == h * h;
    JsModNonNeg(r, N);
    ModOfMod(r, N);
    MulBothCongruent(r % N, r, r % N, r, N);
  }

  /** Lines 148-157: when the selected y values multiply to a square, a and c lie in
      [0, N) and a^2 = c^2 modulo N. */
  lemma CandidateSquares(xs: seq<int>, ys: seq<int>, v: seq<int>, N: int, h: int)
    requires N > 0 && |ys| == |xs| && InRange(v, |xs|) && |v| > 0
    requires forall i :: 0 <= i < |xs| ==> ys[i] == xs[i] * xs[i] - N
    requires Product(ys, v) == h * h
    ensures 0 <= Candidate(xs, ys, v, N).0 < N && 0 <= Candidate(xs, ys, v, N).1 < N
    ensures (Candidate(xs, ys, v, N).0 * Candidate(xs, ys, v, N).0) % N
      == (Candidate(xs, ys, v, N).1 * Candidate(xs, ys, v, N).1) % N
  {
    SquareOfA(xs, v, N);
    SquareOfC(h, N);
    ProductOfSquares(xs, ys, v, N);
  }

  /** N does not divide a + c when 0 < a + c < 2N and a + c != N. */
  lemma GcdBelowN(a: int, c: int, N: int)
    requires 0 <= a < N && 0 <= c < N && a != c && a + c != N
    ensures 0 < Gcd(a + c, N) < N
  {
    var g := Gcd(a + c, N);
    DividesLe(g, N);
    if g == N {
      assert (a + c) % N == 0;
      if a + c < N {
        ModUnique(a + c, N, 0, a + c);
      } else {
        ModUnique(a + c, N, 1, a + c - N);
      }
    }
  }

  /** When a + c and N are coprime and N divides (a - c)(a + c), N divides a - c. */
  lemma CoprimeCancel(a: int, c: int, N: int)
    requires 0 <= a < N && 0 <= c < N && a + c > 0
    requires (a * a) % N == (c * c) % N && Gcd(a + c, N) == 1
    ensures a == c
  {
    var t := ExtGcd(a + c, N);
    assert Divides(t.0, Gcd(a + c, N));
    DividesLe(t.0, 1);
    ModEqIffDiff(a * a, c * c, N);
    var k := (a * a - c * c) / N;
    ExactQuotient(a * a - c * c, N);
    DifferenceOfSquares(a, c);
    CancelByBezout(a - c, a + c, N, k, t.1, t.2);
    ModUnique(a - c, N, k * t.1 + (a - c) * t.2, 0);
    SmallMultiple(N, a - c);
  }

  lemma DifferenceOfSquares(a: int, c: int)
    ensures (a - c) * (a + c) == a * a - c * c
  {
  }

  /** If s is invertible modulo N (s*u + N*v = 1) and N divides d*s, then N divides d. */
  lemma CancelByBezout(d: int, s: int, N: int, k: int, u: int, v: int)
    requires s * u + N * v == 1 && d * s == N * k
    ensures d == N * (k * u + d * v)
  {
    calc {
      d;
      d * (s * u + N * v);
      (d * s) * u + N * (d * v);
      (N * k) * u + N * (d * v);
      N * (k * u + d * v);
    }
  }

  /** The classic argument behind line 186: when a^2 = c^2 modulo N but a != c and
      a + c != N, the greatest common divisor of a + c and N is a proper factor of N. */
  lemma NontrivialFactor(a: int, c: int, N: int)
    requires 0 <= a < N && 0 <= c < N && a != c && a + c != N
    requires (a * a) % N == (c * c) % N
    ensures 1 < Gcd(a + c, N) < N
  {
    GcdBelowN(a, c, N);
    if Gcd(a + c, N) == 1 {
      CoprimeCancel(a, c, N);
    }
  }

  /** Lines 148-157 as the loop the source runs, then `abs`, the square root and `mod`. */
  method CongruencePair(x: seq<int>, y: seq<int>, nullVec: seq<int>, N: int) returns (a: int, c: int)
    requires N > 0 && InRange(nullVec, |x|) && InRange(nullVec, |y|)
    ensures (a, c) == Candidate(x, y, nullVec, N)
  {
    a := 1;
    var b := 1;
    for idx := 0 to |nullVec|
      invariant InRange(nullVec[..idx], |x|) && InRange(nullVec[..idx], |y|)
      invariant a == ProdMod(x, nullVec[..idx], N) && b == Product(y, nullVec[..idx])
    {
      assert nullVec[..idx + 1][..idx] == nullVec[..idx];
      var i := nullVec[idx];
      a := JsMod(a * x[i], N);
      b := b * y[i];
    }
    assert nullVec[..|nullVec|] == nullVec;
    a := Abs(a);
    var s := FloorSqrt(b);
    if b >= 0 {
      FloorRootUnique(b, s);
    }
    c := JsMod(s, N);
  }

  /** Lines 138-163: reduce the matrix in place, then try the null-space vectors k = 0, 1,
      ... below cols - rows in turn, and return the first pair (a, c) that is not trivial,
      with the length of its vector. */
  method CompleteFactorization(x: seq<int>, y: seq<int>, mat: array<array<Bit>>, N: int)
    returns (result: Option<(int, int, int)>, ghost k: int)
    requires mat.Length >= 1 && DistinctRows(mat) && Rectangular(Rows(mat), mat[0].Length)
    requires mat[0].Length <= |x| && mat[0].Length <= |y| && N > 0
    modifies mat, mat[..]
    ensures IsRref(Rows(mat)) && NullEquiv(Rows(mat), old(Rows(mat)))
    ensures Rectangular(Rows(mat), old(mat[0].Length)) && mat[0].Length == old(mat[0].Length)
    ensures forall k' :: 0 <= k' < mat[0].Length - mat.Length ==>
      InRange(NullVec(Rows(mat), k', mat[0].Length), |x|) && InRange(NullVec(Rows(mat), k', mat[0].Length), |y|)
    ensures result.None? <==> forall k' :: 0 <= k' < mat[0].Length - mat.Length ==>
      Trivial(Candidate(x, y, NullVec(Rows(mat), k', mat[0].Length), N), N)
    ensures result.Some? ==> 0 <= k < mat[0].Length - mat.Length
    ensures result.Some? ==>
      forall k' :: 0 <= k' < k ==> Trivial(Candidate(x, y, NullVec(Rows(mat), k', mat[0].Length), N), N)
    ensures result.Some? ==>
      (var pair := Candidate(x, y, NullVec(Rows(mat), k, mat[0].Length), N);
       !Trivial(pair, N) && result.value == (pair.0, pair.1, |NullVec(Rows(mat), k, mat[0].Length)|))
  {
    ghost var cols0 := mat[0].Length;
    RowReduce(mat);
    ghost var R := Rows(mat);
    assert |R[0]| == cols0;
    NullVecsInRange(R, mat[0].Length, |x|, |y|);
    result, k := FirstNontrivial(x, y, mat, N, R);
  }

  /** Every null-space vector of a reduced matrix indexes columns below cols. */
  lemma NullVecsInRange(R: seq<seq<Bit>>, cols: int, nx: int, ny: int)
    requires IsRref(R) && Rectangular(R, cols) && 0 <= cols <= nx && cols <= ny
    ensures forall k' :: 0 <= k' < cols - |R| ==>
      InRange(NullVec(R, k', cols), nx) && InRange(NullVec(R, k', cols), ny)
  {
    assert |Pivots(R)| <= |R|;
    forall k' | 0 <= k' < cols - |R| ensures InRange(NullVec(R, k', cols), nx) && InRange(NullVec(R, k', cols), ny) {
      NullVecKills(R, k', cols);
    }
  }

  /** Lines 142-162: the search over the null-space vectors of the reduced matrix. */
  method FirstNontrivial(x: seq<int>, y: seq<int>, mat: array<array<Bit>>, N: int, ghost R: seq<seq<Bit>>)
    returns (result: Option<(int, int, int)>, ghost k: int)
    requires mat.Length >= 1 && Rows(mat) == R && IsRref(R) && N > 0
    requires forall k' :: 0 <= k' < mat[0].Length - mat.Length ==>
      InRange(NullVec(R, k', mat[0].Length), |x|) && InRange(NullVec(R, k', mat[0].Length), |y|)
    ensures result.None? <==> forall k' :: 0 <= k' < mat[0].Length - mat.Length ==>
      Trivial(Candidate(x, y, NullVec(R, k', mat[0].Length), N), N)
    ensures result.Some? ==> 0 <= k < mat[0].Length - mat.Length
    ensures result.Some? ==>
      forall k' :: 0 <= k' < k ==> Trivial(Candidate(x, y, NullVec(R, k', mat[0].Length), N), N)
    ensures result.Some? ==>
      (var pair := Candidate(x, y, NullVec(R, k, mat[0].Length), N);
       !Trivial(pair, N) && result.value == (pair.0, pair.1, |NullVec(R, k, mat[0].Length)|))
  {
    var cols := mat[0].Length;
    var nullity := cols - mat.Length;
    k := 0;
    var i := 0;
    while i < nullity
      invariant 0 <= i <= (if nullity < 0 then 0 else nullity)
      invariant forall k' :: 0 <= k' < i ==> Trivial(Candidate(x, y, NullVec(R, k', cols), N), N)
    {
      var nullVec := NullSpace(mat, i);
      var a, c := CongruencePair(x, y, nullVec, N);
      if a != c && a + c != N {
        k := i;
        return Some((a, c, |nullVec|)), k;
      }
      i := i + 1;
    }
    result := None;
  }

  /** Lines 186-187: p = gcd(a + c, N) and q = N / p. */
  method SplitFactor(a: int, c: int, N: int) returns (p: int, q: int)
    requires N > 0
    ensures p > 0 && p * q == N && Divides(p, a + c)
    ensures forall d :: d > 0 && Divides(d, a + c) && Divides(d, N) ==> Divides(d, p)
    ensures 0 <= a < N && 0 <= c < N && a != c && a + c != N && (a * a) % N == (c * c) % N
      ==> 1 < p < N && 1 < q < N
  {
    p := Gcd(a + c, N);
    JsDivExact(N, p);
    q := JsDiv(N, p);
    if 0 <= a < N && 0 <= c < N && a != c && a + c != N && (a * a) % N == (c * c) % N {
      NontrivialFactor(a, c, N);
      ProperCofactor(p, q, N);
    }
  }

  /** The cofactor of a proper factor is proper. */
  lemma ProperCofactor(p: int, q: int, N: int)
    requires 1 < p < N && p * q == N
    ensures 1 < q < N
  {
    assert p * q >= 2 * q;
  }

  /** What the component does after the matrix is built, as in lines 176-189. */
  datatype Attempt =
    | Factored(length: int, a: int, b: int, p: int, q: int)
    | VerificationFailed(bad: nat)
    | NoFactor
    | Crashed

  /** The relation data that computeMatrix hands over, and the reduced matrix, yield a
      congruence a^2 = c^2 modulo N from every null-space vector k. */
  lemma CongruenceFromNullVec(x: seq<int>, y: seq<int>, fb: seq<int>, N: int,
                              mat: seq<seq<Bit>>, R: seq<seq<Bit>>, k: int)
    requires ValidBase(fb) && NonZero(fb) && N > 0
    requires |x| == |y| && y == Values(x, N)
    requires forall i :: 0 <= i < |y| ==> Verified(y[i], fb)
    requires NullEquiv(mat, Transpose(Vectors(y, fb), |fb|))
    requires IsRref(R) && Rectangular(R, |x|) && NullEquiv(R, mat) && 0 <= k < |x| - |R|
    ensures InRange(NullVec(R, k, |x|), |x|) && InRange(NullVec(R, k, |x|), |y|)
    ensures var pair := Candidate(x, y, NullVec(R, k, |x|), N);
      0 <= pair.0 < N && 0 <= pair.1 < N && (pair.0 * pair.0) % N == (pair.1 * pair.1) % N
  {
    var v := NullVec(R, k, |x|);
    NullVecKills(R, k, |x|);
    assert Kills(mat, v);
    assert Kills(Transpose(Vectors(y, fb), |fb|), v);
    RelationsGiveSquare(y, fb, v);
    var h := HalfProd(fb, Vectors(y, fb), v, |fb|);
    CandidateSquares(x, y, v, N, h);
  }

  /** Lines 183-189: complete the factorisation of a matrix that computeMatrix returned
      and split N with the congruence found. */
  method FactorRelations(x: seq<int>, y: seq<int>, m: seq<seq<Bit>>, fb: seq<int>, N: int)
    returns (r: Attempt)
    requires |fb| >= 1 && NonZero(fb) && N > 0
    requires |x| == |y| && y == Values(x, N) && 1 <= |m| < |x| && Rectangular(m, |x|)
    requires NullEquiv(m, Transpose(Vectors(y, fb), |fb|))
    requires forall i :: 0 <= i < |y| ==> Verified(y[i], fb)
    ensures r.Factored? || r.NoFactor?
    ensures r.Factored? ==> r.p > 0 && r.p * r.q == N && 0 <= r.a < N && r.a != r.b && r.a + r.b != N
    ensures r.Factored? && ValidBase(fb) ==> 1 < r.p < N && 1 < r.q < N
  {
    var mat := ToArrays(m);
    assert |Rows(mat)[0]| == |x|;
    var result, k := CompleteFactorization(x, y, mat, N);
    if result.None? {
      return NoFactor;
    }
    var (a, c, l) := result.value;
    ghost var R := Rows(mat);
    SquareOfA(x, NullVec(R, k, |x|), N);
    if ValidBase(fb) {
      assert |Pivots(R)| <= |R|;
      CongruenceFromNullVec(x, y, fb, N, m, R, k);
    }
    var p, q := SplitFactor(a, c, N);
    r := Factored(l, a, c, p, q);
  }

  /** Lines 176-189 without the rendering: build the matrix, look for a congruence of
      squares, and split N with it. With a factor base of -1 and distinct primes, a
      reported factorisation is a proper one. */
  method AttemptFactorization(relations: seq<int>, factorBase: seq<int>, N: int, base: int)
    returns (r: Attempt)
    requires |factorBase| >= 1 && NonZero(factorBase) && N > 0
    ensures var o := Outcome(relations, factorBase, N, base, Processed(relations, factorBase, N, base));
      (r.Crashed? <==> o.Crashed?)
      && (r.VerificationFailed? <==> o.TooFewRelations?)
      && (r.VerificationFailed? ==> r.bad == o.bad)
      && (r.Factored? || r.NoFactor? <==> o.Matrix?)
    ensures r.Factored? ==> r.p > 0 && r.p * r.q == N && 0 <= r.a < N && r.a != r.b && r.a + r.b != N
    ensures r.Factored? && ValidBase(factorBase) ==> 1 < r.p < N && 1 < r.q < N
  {
    var out := ComputeMatrix(relations, factorBase, N, base);
    if out.Crashed? {
      return Attempt.Crashed;
    }
    if out.TooFewRelations? {
      return VerificationFailed(out.bad);
    }
    OutcomeMatrix(relations, factorBase, N, base, Processed(relations, factorBase, N, base));
    r := FactorRelations(out.x, out.y, out.mat, factorBase, N);
  }
}
