/** computeMatrix of src/components/Linalg/index.js (lines 83-136): every candidate offset
    r gives x = base + r and y = x * x - N; y gets a parity vector by trial division over
    the factor base, is kept only when dividing out the flagged entries leaves exactly 1,
    and the kept vectors are transposed and stripped of all-zero rows. */
module Relations {
  import opened NumberTheory
  import opened BigInt
  import opened Gf2

  /** Extra relations kept beyond the size of the factor base (line 88). */
  const MARGIN: nat := 64

  /** The source divides by every entry of the factor base, so none may be zero. The
      leading entry is the sign sentinel. */
  predicate NonZero(fb: seq<int>)
  {
    forall l :: 0 <= l < |fb| ==> fb[l] != 0
  }

  /** A factor base as the sieve builds it: the sentinel -1, then distinct primes. */
  predicate ValidBase(fb: seq<int>)
  {
    |fb| >= 1 && fb[0] == -1
    && (forall l :: 1 <= l < |fb| ==> IsPrime(fb[l]))
    && (forall l, l' :: 1 <= l < l' < |fb| ==> fb[l] != fb[l'])
  }

  /** Lines 96-99: the parity vector of y, one bit per entry of the factor base. */
  function ExponentRow(y: int, fb: seq<int>): (row: seq<Bit>)
    requires |fb| >= 1 && NonZero(fb)
    ensures |row| == |fb|
  {
    [if y < 0 then 1 else 0] + seq(|fb| - 1, l requires 0 <= l < |fb| - 1 => if y % fb[l + 1] == 0 then 1 else 0)
  }

  /** Bit 0 of the vector says that y is negative and bit l that fb[l] divides y. */
  lemma ExponentRowBits(y: int, fb: seq<int>)
    requires |fb| >= 1 && NonZero(fb)
    ensures ExponentRow(y, fb)[0] == 1 <==> y < 0
    ensures forall l :: 1 <= l < |fb| ==> (ExponentRow(y, fb)[l] == 1 <==> Divides(fb[l], y))
  {
  }

  /** Lines 96-99 as the loop the source runs: the sign bit, then one bit per entry of the
      factor base after the sentinel. */
  method ExponentVector(y: int, fb: seq<int>) returns (row: seq<Bit>)
    requires |fb| >= 1 && NonZero(fb)
    ensures row == ExponentRow(y, fb)
  {
    row := [if y < 0 then 1 else 0];
    var l := 1;
    while l < |fb|
      invariant 1 <= l <= |fb| && |row| == l
      invariant forall c :: 0 <= c < l ==> row[c] == ExponentRow(y, fb)[c]
    {
      row := row + [if y % fb[l] == 0 then 1 else 0];
      l := l + 1;
    }
  }

  /** Lines 102-107: what is left of y after the first n flagged entries are divided out,
      each with the truncating `divide`. */
  function Cofactor(y: int, row: seq<Bit>, fb: seq<int>, n: nat): int
    requires n <= |row| <= |fb| && NonZero(fb)
  {
    if n == 0 then y
    else
      var c := Cofactor(y, row, fb, n - 1);
      if row[n - 1] == 1 then JsDiv(c, fb[n - 1]) else c
  }

  /** Lines 102-107 as the loop the source runs. */
  method DivideOut(y: int, row: seq<Bit>, fb: seq<int>) returns (curr: int)
    requires |row| <= |fb| && NonZero(fb)
    ensures curr == Cofactor(y, row, fb, |row|)
  {
    curr := y;
    var j := 0;
    while j < |row|
      invariant 0 <= j <= |row| && curr == Cofactor(y, row, fb, j)
    {
      if row[j] == 1 {
        curr := JsDiv(curr, fb[j]);
      }
      j := j + 1;
    }
  }

  /** Line 108: the candidate y passes the exact check. */
  predicate Verified(y: int, fb: seq<int>)
    requires |fb| >= 1 && NonZero(fb)
  {
    Cofactor(y, ExponentRow(y, fb), fb, |fb|) == 1
  }

  /** The product of the entries of fb flagged by the first n bits of row. */
  function FlagProd(row: seq<Bit>, fb: seq<int>, n: nat): int
    requires n <= |row| && n <= |fb|
  {
    if n == 0 then 1 else FlagProd(row, fb, n - 1) * (if row[n - 1] == 1 then fb[n - 1] else 1)
  }

  /** A prime that divides another prime is that prime. */
  lemma PrimeDividesPrime(p: int, q: int)
    requires IsPrime(p) && IsPrime(q) && Divides(p, q)
    ensures p == q
  {
    DividesLe(p, q);
  }

  /** A positive d that divides n divides -n. */
  lemma DividesNeg(d: int, n: int)
    requires d > 0 && Divides(d, n)
    ensures Divides(d, -n)
  {
    var k := n / d;
    assert n == d * k;
    assert -n == d * (-k) + 0;
    ModUnique(-n, d, -k, 0);
  }

  /** Dividing out an exact factor q moves it from what is left to the part divided out. */
  lemma DivideStep(c: int, q: int, f: int, y: int)
    requires Divides(q, c) && c * f == y
    ensures JsDiv(c, q) * (f * q) == y
  {
    JsDivExact(c, q);
    var c' := JsDiv(c, q);
    assert c' * (f * q) == (c' * q) * f;
  }

  /** Dividing by the sentinel -1 negates and keeps every divisor. */
  lemma SignStep(c: int, p: int)
    requires p > 0 && Divides(p, c)
    ensures JsDiv(c, -1) == -c && Divides(p, JsDiv(c, -1))
  {
    DividesNeg(p, c);
  }

  /** Dividing out a prime q keeps every other prime divisor p. */
  lemma PrimeStep(c: int, q: int, p: int)
    requires IsPrime(p) && IsPrime(q) && p != q && Divides(p, c) && Divides(q, c)
    ensures Divides(p, JsDiv(c, q))
  {
    JsDivExact(c, q);
    var c' := JsDiv(c, q);
    assert (c' * q) % p == 0;
    Euclid(p, c', q);
    if q % p == 0 {
      PrimeDividesPrime(p, q);
    }
  }

  /** The loop invariant of lines 102-107 for a valid base: the part divided out so far
      times what is left is y, and every flagged prime not yet divided out still divides
      what is left. */
  lemma {:induction false} CofactorInvariant(y: int, fb: seq<int>, n: nat)
    requires ValidBase(fb) && n <= |fb|
    ensures Cofactor(y, ExponentRow(y, fb), fb, n) * FlagProd(ExponentRow(y, fb), fb, n) == y
    ensures forall l :: n <= l < |fb| && 1 <= l && ExponentRow(y, fb)[l] == 1 ==>
      Divides(fb[l], Cofactor(y, ExponentRow(y, fb), fb, n))
  {
    var row := ExponentRow(y, fb);
    ExponentRowBits(y, fb);
    if n > 0 {
      CofactorInvariant(y, fb, n - 1);
      var c := Cofactor(y, row, fb, n - 1);
      var f := FlagProd(row, fb, n - 1);
      assert FlagProd(row, fb, n) == f * (if row[n - 1] == 1 then fb[n - 1] else 1);
      if row[n - 1] == 1 {
        var q := fb[n - 1];
        assert Cofactor(y, row, fb, n) == JsDiv(c, q);
        if n - 1 == 0 {
          assert JsDiv(c, -1) == -c by {
            SignStep(c, 1);
          }
          forall l | n <= l < |fb| && 1 <= l && row[l] == 1 ensures Divides(fb[l], JsDiv(c, q)) {
            SignStep(c, fb[l]);
          }
        } else {
          DivideStep(c, q, f, y);
          forall l | n <= l < |fb| && 1 <= l && row[l] == 1 ensures Divides(fb[l], JsDiv(c, q)) {
            PrimeStep(c, q, fb[l]);
          }
        }
      }
    }
  }

  /** Lines 102-108 for a valid base: a kept y is exactly the product of the entries its
      vector flags, so it is squarefree over the base. */
  lemma VerifiedIsProduct(y: int, fb: seq<int>)
    requires ValidBase(fb) && Verified(y, fb)
    ensures y == FlagProd(ExponentRow(y, fb), fb, |fb|)
  {
    CofactorInvariant(y, fb, |fb|);
    var c := Cofactor(y, ExponentRow(y, fb), fb, |fb|);
    var f := FlagProd(ExponentRow(y, fb), fb, |fb|);
    assert c == 1 && c * f == y;
  }

  /** The candidates of rels that pass the check, as the x values pushed at line 109. */
  function Kept(rels: seq<int>, fb: seq<int>, N: int, base: int): (xs: seq<int>)
    requires |fb| >= 1 && NonZero(fb)
    ensures |xs| <= |rels|
  {
    if |rels| == 0 then []
    else
      var x := base + rels[|rels| - 1];
      Kept(rels[..|rels| - 1], fb, N, base) + (if Verified(x * x - N, fb) then [x] else [])
  }

  /** Taking one candidate more adds it to the kept ones exactly when it passes. */
  lemma KeptSnoc(rels: seq<int>, r: int, fb: seq<int>, N: int, base: int)
    requires |fb| >= 1 && NonZero(fb)
    ensures Kept(rels + [r], fb, N, base) ==
      Kept(rels, fb, N, base) + (if Verified((base + r) * (base + r) - N, fb) then [base + r] else [])
  {
    assert (rels + [r])[..|rels|] == rels;
  }

  /** The kept candidates of one prefix more, where xx is the candidate's x. */
  lemma KeptPrefix(rels: seq<int>, n: nat, fb: seq<int>, N: int, base: int, xx: int)
    requires |fb| >= 1 && NonZero(fb) && n < |rels| && xx == base + rels[n]
    ensures Kept(rels[..n + 1], fb, N, base) ==
      Kept(rels[..n], fb, N, base) + (if Verified(xx * xx - N, fb) then [xx] else [])
  {
    assert rels[..n + 1] == rels[..n] + [rels[n]];
    KeptSnoc(rels[..n], rels[n], fb, N, base);
  }

  /** Line 116: the number of candidates looked at, from the n-th on: the loop ends after
      the first one that brings the kept count to limit, or at the end of rels. */
  function StopFrom(rels: seq<int>, fb: seq<int>, N: int, base: int, limit: int, n: nat): (k: nat)
    requires |fb| >= 1 && NonZero(fb) && n <= |rels|
    ensures n <= k <= |rels|
    decreases |rels| - n
  {
    if n == |rels| then n
    else if |Kept(rels[..n + 1], fb, N, base)| >= limit then n + 1
    else StopFrom(rels, fb, N, base, limit, n + 1)
  }

  /** One step of StopFrom. */
  lemma StopStep(rels: seq<int>, fb: seq<int>, N: int, base: int, limit: int, n: nat)
    requires |fb| >= 1 && NonZero(fb) && n < |rels|
    ensures StopFrom(rels, fb, N, base, limit, n) ==
      if |Kept(rels[..n + 1], fb, N, base)| >= limit then n + 1 else StopFrom(rels, fb, N, base, limit, n + 1)
  {
  }

  /** The candidates computeMatrix looks at before it stops. */
  function Processed(rels: seq<int>, fb: seq<int>, N: int, base: int): nat
    requires |fb| >= 1 && NonZero(fb)
  {
    StopFrom(rels, fb, N, base, |fb| + MARGIN, 0)
  }

  /** The loop stops at the first candidate that completes the quota, and only there or
      at the end. */
  lemma {:induction false} StopFromIsFirst(rels: seq<int>, fb: seq<int>, N: int, base: int, limit: int, n: nat)
    requires |fb| >= 1 && NonZero(fb) && n <= |rels|
    requires forall k :: 1 <= k <= n ==> |Kept(rels[..k], fb, N, base)| < limit
    ensures var k := StopFrom(rels, fb, N, base, limit, n);
      (forall k' :: 1 <= k' < k ==> |Kept(rels[..k'], fb, N, base)| < limit)
      && (k < |rels| ==> |Kept(rels[..k], fb, N, base)| >= limit)
    decreases |rels| - n
  {
    if n < |rels| && |Kept(rels[..n + 1], fb, N, base)| < limit {
      StopFromIsFirst(rels, fb, N, base, limit, n + 1);
    }
  }

  /** Lines 119-127: the transpose of the rows, with cols columns read from each. */
  function Transpose(rows: seq<seq<Bit>>, cols: nat): (t: seq<seq<Bit>>)
    ensures |t| == cols
    ensures forall j :: 0 <= j < cols ==> |t[j]| == |rows|
    ensures forall j, i :: 0 <= j < cols && 0 <= i < |rows| ==> t[j][i] == At(rows[i], j)
  {
    seq(cols, j requires 0 <= j < cols => seq(|rows|, i requires 0 <= i < |rows| => At(rows[i], j)))
  }

  /** Lines 119-127 as the nested loops the source runs. */
  method TransposeRows(mat: seq<seq<Bit>>, cols: nat) returns (matT: seq<seq<Bit>>)
    ensures matT == Transpose(mat, cols)
  {
    matT := [];
    var j := 0;
    while j < cols
      invariant 0 <= j <= cols && |matT| == j
      invariant forall c :: 0 <= c < j ==> matT[c] == Transpose(mat, cols)[c]
    {
      var row := [];
      var i := 0;
      while i < |mat|
        invariant 0 <= i <= |mat| && |row| == i
        invariant forall c :: 0 <= c < i ==> row[c] == At(mat[c], j)
      {
        row := row + [At(mat[i], j)];
        i := i + 1;
      }
      matT := matT + [row];
      j := j + 1;
    }
  }

  /** Line 130: the rows that hold at least one 1, in order. */
  function Prune(m: seq<seq<Bit>>): (p: seq<seq<Bit>>)
    ensures |p| <= |m|
    ensures forall k :: 0 <= k < |p| ==> 1 in p[k]
    ensures forall k :: 0 <= k < |m| && 1 in m[k] ==> m[k] in p
    ensures forall k :: 0 <= k < |p| ==> p[k] in m
  {
    if |m| == 0 then []
    else
      var rest := Prune(m[1..]);
      assert forall k :: 1 <= k < |m| ==> m[k] == m[1..][k - 1];
      (if 1 in m[0] then [m[0]] else []) + rest
  }

  /** A row with no 1 has even parity over any set of columns. */
  lemma {:induction false} ZeroRowParity(r: seq<Bit>, js: seq<int>)
    requires 1 !in r
    ensures Parity(r, js) == 0
  {
    if |js| > 0 {
      ZeroRowParity(r, js[..|js| - 1]);
      var j := js[|js| - 1];
      if 0 <= j < |r| {
        assert r[j] in r;
      }
    }
  }

  /** Dropping the all-zero rows does not change which column sets XOR to zero. */
  lemma PruneKeepsNullSpace(m: seq<seq<Bit>>)
    ensures NullEquiv(Prune(m), m)
  {
    forall js ensures Kills(Prune(m), js) <==> Kills(m, js) {
      if Kills(Prune(m), js) {
        forall l | 0 <= l < |m| ensures Parity(m[l], js) == 0 {
          if 1 in m[l] {
            var k :| 0 <= k < |Prune(m)| && Prune(m)[k] == m[l];
          } else {
            ZeroRowParity(m[l], js);
          }
        }
      }
      if Kills(m, js) {
        forall k | 0 <= k < |Prune(m)| ensures Parity(Prune(m)[k], js) == 0 {
          var l :| 0 <= l < |m| && m[l] == Prune(m)[k];
        }
      }
    }
  }

  /** The outcome of computeMatrix: the relations and the matrix (line 135), the count of
      rejected candidates when the matrix has too few columns (line 132), or the TypeError
      thrown at line 121 (no relation kept) or line 131 (every row pruned). */
  datatype Collection =
    | Matrix(x: seq<int>, y: seq<int>, mat: seq<seq<Bit>>)
    | TooFewRelations(bad: nat)
    | Crashed

  /** The y values of the kept x values. */
  function Values(xs: seq<int>, N: int): (ys: seq<int>)
    ensures |ys| == |xs| && forall i :: 0 <= i < |xs| ==> ys[i] == xs[i] * xs[i] - N
  {
    seq(|xs|, i requires 0 <= i < |xs| => xs[i] * xs[i] - N)
  }

  /** The parity vectors of the kept y values. */
  function Vectors(ys: seq<int>, fb: seq<int>): (rows: seq<seq<Bit>>)
    requires |fb| >= 1 && NonZero(fb)
    ensures |rows| == |ys| && forall i :: 0 <= i < |ys| ==> rows[i] == ExponentRow(ys[i], fb)
  {
    seq(|ys|, i requires 0 <= i < |ys| => ExponentRow(ys[i], fb))
  }

  /** What computeMatrix returns once it has looked at the first n candidates. */
  function Outcome(rels: seq<int>, fb: seq<int>, N: int, base: int, n: nat): Collection
    requires |fb| >= 1 && NonZero(fb) && n <= |rels|
  {
    var xs := Kept(rels[..n], fb, N, base);
    var ys := Values(xs, N);
    var pruned := Prune(Transpose(Vectors(ys, fb), |fb|));
    if |xs| == 0 || |pruned| == 0 then Crashed
    else if |pruned| >= |xs| then TooFewRelations(n - |xs|)
    else Matrix(xs, ys, pruned)
  }

  /** Every kept x comes from a candidate offset and passes the check. */
  lemma {:induction false} KeptVerified(rels: seq<int>, fb: seq<int>, N: int, base: int)
    requires |fb| >= 1 && NonZero(fb)
    ensures forall c :: 0 <= c < |Kept(rels, fb, N, base)| ==>
      Verified(Kept(rels, fb, N, base)[c] * Kept(rels, fb, N, base)[c] - N, fb)
      && Kept(rels, fb, N, base)[c] - base in rels
  {
    if |rels| > 0 {
      var init := rels[..|rels| - 1];
      KeptVerified(init, fb, N, base);
      assert forall r :: r in init ==> r in rels;
    }
  }

  /** Each candidate adds at most one relation. */
  lemma KeptGrows(rels: seq<int>, fb: seq<int>, N: int, base: int, k: nat)
    requires |fb| >= 1 && NonZero(fb) && 1 <= k <= |rels|
    ensures |Kept(rels[..k], fb, N, base)| <= |Kept(rels[..k - 1], fb, N, base)| + 1
  {
    assert rels[..k] == rels[..k - 1] + [rels[k - 1]];
    KeptSnoc(rels[..k - 1], rels[k - 1], fb, N, base);
  }

  /** Lines 88 and 116: computeMatrix keeps at most |fb| + 64 relations, stops early only
      once it has exactly that many, and does not stop before. */
  lemma StopsAtQuota(rels: seq<int>, fb: seq<int>, N: int, base: int)
    requires |fb| >= 1 && NonZero(fb)
    ensures var n := Processed(rels, fb, N, base);
      |Kept(rels[..n], fb, N, base)| <= |fb| + MARGIN
      && (n < |rels| ==> |Kept(rels[..n], fb, N, base)| == |fb| + MARGIN)
      && (forall k :: 1 <= k < n ==> |Kept(rels[..k], fb, N, base)| < |fb| + MARGIN)
  {
    var limit := |fb| + MARGIN;
    StopFromIsFirst(rels, fb, N, base, limit, 0);
    var n := Processed(rels, fb, N, base);
    if n >= 1 {
      KeptGrows(rels, fb, N, base, n);
      if n >= 2 {
        assert |Kept(rels[..n - 1], fb, N, base)| < limit;
      } else {
        assert |Kept(rels[..n - 1], fb, N, base)| <= n - 1;
      }
    } else {
      assert |Kept(rels[..n], fb, N, base)| <= n;
    }
  }

  /** Lines 119-135: a returned matrix has at least one row, fewer rows than columns, one
      column per relation, a 1 in every row, and the null space of the transposed parity
      vectors; every relation satisfies y = x * x - N and passes the check. */
  lemma OutcomeMatrix(rels: seq<int>, fb: seq<int>, N: int, base: int, n: nat)
    requires |fb| >= 1 && NonZero(fb) && n <= |rels| && Outcome(rels, fb, N, base, n).Matrix?
    ensures var o := Outcome(rels, fb, N, base, n);
      |o.x| == |o.y| && o.y == Values(o.x, N) && 1 <= |o.mat| < |o.x|
      && Rectangular(o.mat, |o.x|) && (forall k :: 0 <= k < |o.mat| ==> 1 in o.mat[k])
      && NullEquiv(o.mat, Transpose(Vectors(o.y, fb), |fb|))
      && (forall i :: 0 <= i < |o.y| ==> Verified(o.y[i], fb))
  {
    var xs := Kept(rels[..n], fb, N, base);
    KeptVerified(rels[..n], fb, N, base);
    var t := Transpose(Vectors(Values(xs, N), fb), |fb|);
    PruneKeepsNullSpace(t);
    assert Rectangular(t, |xs|);
  }

  /** Lines 84-117: the loop over the candidates, with the pushed arrays x, y and mat and
      the count of rejected candidates. */
  method Collect(relations: seq<int>, fb: seq<int>, N: int, base: int)
    returns (x: seq<int>, y: seq<int>, mat: seq<seq<Bit>>, bad: nat)
    requires |fb| >= 1 && NonZero(fb)
    ensures x == Kept(relations[..Processed(relations, fb, N, base)], fb, N, base)
    ensures y == Values(x, N) && mat == Vectors(y, fb)
    ensures bad == Processed(relations, fb, N, base) - |x|
  {
    x, y, mat := [], [], [];
    var maxRelations := |fb| + MARGIN;
    bad := 0;
    var n := 0;
    var done := false;
    while n < |relations| && !done
      invariant Collected(relations, fb, N, base, n, x, y, mat, bad)
      invariant Processed(relations, fb, N, base) ==
        if done then n else StopFrom(relations, fb, N, base, maxRelations, n)
    {
      var xx, yy, row, ok := TryRelation(relations[n], fb, N, base);
      CollectedStep(relations, fb, N, base, n, x, y, mat, bad, xx, yy, row, ok);
      StopStep(relations, fb, N, base, maxRelations, n);
      if ok {
        x, y, mat := x + [xx], y + [yy], mat + [row];
      } else {
        bad := bad + 1;
      }
      n := n + 1;
      done := |x| >= maxRelations;
    }
  }

  /** The state of the loop of lines 91-117 after the first n candidates. */
  ghost predicate Collected(rels: seq<int>, fb: seq<int>, N: int, base: int, n: int,
                            x: seq<int>, y: seq<int>, mat: seq<seq<Bit>>, bad: int)
    requires |fb| >= 1 && NonZero(fb)
  {
    0 <= n <= |rels| && x == Kept(rels[..n], fb, N, base) &&
    y == Values(x, N) && mat == Vectors(y, fb) && bad == n - |x|
  }

  /** One candidate more: it is pushed when it passes and counted as bad otherwise. */
  lemma CollectedStep(rels: seq<int>, fb: seq<int>, N: int, base: int, n: int,
                      x: seq<int>, y: seq<int>, mat: seq<seq<Bit>>, bad: int,
                      xx: int, yy: int, row: seq<Bit>, ok: bool)
    requires |fb| >= 1 && NonZero(fb) && Collected(rels, fb, N, base, n, x, y, mat, bad) && n < |rels|
    requires xx == base + rels[n] && yy == xx * xx - N && row == ExponentRow(yy, fb)
    requires ok <==> Verified(yy, fb)
    ensures ok ==> Collected(rels, fb, N, base, n + 1, x + [xx], y + [yy], mat + [row], bad)
    ensures !ok ==> Collected(rels, fb, N, base, n + 1, x, y, mat, bad + 1)
  {
    KeptPrefix(rels, n, fb, N, base, xx);
    if ok {
      PushRelation(x, y, mat, xx, fb, N);
    }
  }

  /** Lines 92-108 for one candidate r: x = base + r, y = x^2 - N, the parity vector of y,
      and whether dividing out the flagged primes leaves 1. */
  method TryRelation(r: int, fb: seq<int>, N: int, base: int) returns (xx: int, yy: int, row: seq<Bit>, ok: bool)
    requires |fb| >= 1 && NonZero(fb)
    ensures xx == base + r && yy == xx * xx - N && row == ExponentRow(yy, fb)
    ensures ok <==> Verified(yy, fb)
  {
    xx := base + r;
    yy := xx * xx - N;
    row := ExponentVector(yy, fb);
    var curr := DivideOut(yy, row, fb);
    ok := curr == 1;
  }

  /** Pushing one relation onto x, y and mat keeps y and mat the values and vectors of x. */
  lemma PushRelation(x: seq<int>, y: seq<int>, mat: seq<seq<Bit>>, xx: int, fb: seq<int>, N: int)
    requires |fb| >= 1 && NonZero(fb)
    requires y == Values(x, N) && mat == Vectors(y, fb)
    ensures y + [xx * xx - N] == Values(x + [xx], N)
    ensures mat + [ExponentRow(xx * xx - N, fb)] == Vectors(y + [xx * xx - N], fb)
  {
  }

  /** Lines 83-136. */
  method ComputeMatrix(relations: seq<int>, factorBase: seq<int>, N: int, base: int) returns (out: Collection)
    requires |factorBase| >= 1 && NonZero(factorBase)
    ensures out == Outcome(relations, factorBase, N, base, Processed(relations, factorBase, N, base))
  {
    var x, y, mat, bad := Collect(relations, factorBase, N, base);
    if |x| == 0 {
      return Crashed;
    }
    var matT := TransposeRows(mat, |factorBase|);
    matT := Prune(matT);
    if |matT| == 0 {
      return Crashed;
    }
    if |matT| >= |matT[0]| {
      return TooFewRelations(bad);
    }
    out := Matrix(x, y, matT);
  }
}
