# Quadratic sieve: number theory and GF(2) linear algebra

This project models the computational core of a browser demo of the quadratic sieve
factoring method, and proves properties of that model.

- `src/mathUtils.js` provides:
  - the Legendre symbol by Euler's criterion;
  - the Tonelli-Shanks square root modulo a prime, with its shortcuts;
  - a binary-search integer square root;
  - the Eratosthenes sieve behind `primeList`.
- `src/components/Linalg/index.js` turns sieved candidates into a factorisation.
  - `computeMatrix` builds parity vectors by trial division over the factor base. It keeps
    a candidate only when dividing out the flagged primes leaves exactly 1. Then it
    transposes the vectors and drops the all-zero rows.
  - `rowReduce` brings the matrix to reduced row echelon form over GF(2), in place.
  - `nullSpace` reads off null-space basis vectors.
  - `completeFactorization` turns each vector into a congruence of squares a² ≡ c² (mod N).
  - The caller splits N with gcd(a + c, N).

Files and modules:

| file | module | contents |
|---|---|---|
| `wrappers.dfy` | `Wrappers` | `Option` |
| `number_theory.dfy` | `NumberTheory` | powers, divisibility, the extended Euclidean algorithm, Euclid's lemma, Fermat's little theorem, Lagrange's bound on polynomial roots, and the existence of a non-residue |
| `math_utils.dfy` | `MathUtils` | `legendre`, `modSqrt`, `isqrt` and the prime sieve |
| `bigint.dfy` | `BigInt` | the truncating `divide` and `mod` of the big-integer library |
| `gf2.dfy` | `Gf2` | 0/1 matrices as sequences: what reduced echelon form means, null-space preservation, and the null-space read-off |
| `linalg.dfy` | `Linalg` | `argmin`, `ixor`, `rowReduce` on `array<array<Bit>>`, and `nullSpace` |
| `relations.dfy` | `Relations` | `computeMatrix` and its loops |
| `squares.dfy` | `Squares` | why a null-space vector makes the product of the chosen y values a perfect square |
| `factorization.dfy` | `Factorization` | `completeFactorization` and the gcd/quotient step |

The model follows the code in these places:

- **Square root of ∏y.** `completeFactorization` takes the integer square root of ∏y
  (line 155). It does not halve exponent vectors. The model does the same, and
  takes the root with `MathUtils.FloorSqrt`, the corrected `isqrt` (see "## Findings").
- **Rounding of `mod` and `divide`.** Big-integer `mod` keeps the sign of the dividend
  and `divide` truncates toward zero. The model writes both out as `BigInt.JsMod` and
  `BigInt.JsDiv`.
- **The verification check.** It divides y once by every flagged factor-base entry, not
  repeatedly. So a kept y is exactly the product of its flagged entries: squarefree over
  the base, times the sign.
- **Crashes in `computeMatrix`.** It throws a TypeError at line 121 when no candidate
  passes (`mat[0]` is undefined). It throws at line 131 when every row is pruned. The
  model has an explicit `Crashed` outcome for both.

## Model

| member | source | states |
|---|---|---|
| MathUtils.ModPow | src/mathUtils.js:4 | The library's modPow result is b^e reduced by the sign-keeping mod: smaller than m in absolute value, congruent to b^e, and in [0, m) for b ≥ 0. |
| MathUtils.Legendre | src/mathUtils.js:3-5 | a^((p-1)/2) mod p is smaller than p in absolute value, and in [0, p) for a ≥ 0. For prime p it is 0 exactly when p divides a, otherwise ≡ 1 or ≡ -1 (1 or p-1 itself for a ≥ 0), and 1 for a residue. |
| MathUtils.SymbolValues | src/mathUtils.js:3-5 | Euler's criterion carried over from a^((p-1)/2) to its sign-keeping remainder modulo p. |
| MathUtils.SplitTwos | src/mathUtils.js:20-25 | The halving loop ends with q odd, p-1 = q·2^s, and s ≥ 1 for even p-1. |
| MathUtils.ShortcutRoot | src/mathUtils.js:27-29 | When p-1 = 2q with q odd, a^((p+1)/4) mod p squares to a for every residue a. |
| MathUtils.FirstNonResidue | src/mathUtils.js:30-33 | The z-search stops at the least z ≥ 2 whose symbol is p-1. Such a z < p always exists for an odd prime p. |
| MathUtils.LeastSquaringExponent | src/mathUtils.js:43-49 | The inner loop returns the least i in [1, m) with t^(2^i) ≡ 1, or m when there is none. |
| MathUtils.TonelliInit | src/mathUtils.js:35-37 | The first state satisfies the loop invariant: r² ≡ a·t, t^(2^(s-1)) ≡ 1 and c^(2^(s-1)) ≡ -1. |
| MathUtils.TonelliStep | src/mathUtils.js:51-55 | One iteration keeps r² ≡ a·t (mod p), brings the order of t down to 2^(i-1) and keeps c^(2^(i-1)) ≡ -1. |
| MathUtils.TonelliShanks | src/mathUtils.js:35-57 | The loop ends, since m strictly decreases, and returns r in [0, p) with r² ≡ a (mod p). |
| MathUtils.ResidueRoot | src/mathUtils.js:19-57 | For a residue a of an odd prime, either branch returns a root of a in [0, p). |
| MathUtils.ModSqrt | src/mathUtils.js:8-58 | p = 2 returns a. a = 0 returns 0. The result is None exactly when legendre(a, p) = p-1, which is exactly when a is a non-residue. Otherwise it is a root in [0, p). |
| MathUtils.NonResidueHasNoRoot | src/mathUtils.js:14-17 | A symbol of p-1 means a has no square root, so returning undefined loses nothing. |
| MathUtils.SearchRoot | src/mathUtils.js:63-74 | The binary search keeps L² ≤ n < R² and returns the floor square root. |
| MathUtils.Isqrt | src/mathUtils.js:60-75 | As written: n ≤ 2 is returned as is, and n ≥ 3 gives L with L² ≤ n < (L+1)². |
| MathUtils.FloorSqrt | src/mathUtils.js:60-75 | Corrected: every n ≥ 0 gives its floor square root. |
| MathUtils.IsqrtOfTwo | src/mathUtils.js:61 | The as-written isqrt(2) is 2, whose square exceeds 2. The corrected one gives 1. |
| MathUtils.FloorRootUnique | src/mathUtils.js:60-75 | The floor square root is unique, so CongruencePair's root is determined by ∏y. |
| MathUtils.CrossOut | src/mathUtils.js:86-88 | The inner loop clears exactly the multiples of i from i² on, and nothing else. |
| MathUtils.SurvivorsArePrimes | src/mathUtils.js:84-90 | Once i² ≥ MAX, the entries left by crossing out every smaller survivor are exactly the primes. |
| MathUtils.Sieve | src/mathUtils.js:79-90 | With the outer bound read as i·i < MAX, sieve[n] holds exactly when n is prime. |
| MathUtils.CollectPrimes | src/mathUtils.js:92-95 | The pushed list is strictly increasing and holds exactly the n ≥ 2 with sieve[n]. |
| MathUtils.SievePrimes | src/mathUtils.js:78-95 | For a bound max ≥ 2, primeList is strictly increasing and holds exactly the primes in [2, max). |
| MathUtils.PrimeList | src/mathUtils.js:78-97 | The exported primeList, sieved up to MAX = 1000000, is strictly increasing and holds exactly the primes below MAX. |
| Linalg.Argmin | src/components/Linalg/index.js:11-21 | None exactly when no entry lies in [0, max). Otherwise the index holds the least such entry, and it is the first index holding that value. |
| Linalg.Ixor | src/components/Linalg/index.js:24-28 | a becomes a xor b entry by entry. b and the length of a are unchanged. |
| Gf2.XorRowsInvolution | src/components/Linalg/index.js:24-28 | XOR-ing by the same row twice restores the row, so every elimination step can be undone. |
| Gf2.ParityOfXor | src/components/Linalg/index.js:24-28 | The parity of a XOR-ed row over any columns is the XOR of the two parities. |
| Linalg.FindPivot | src/components/Linalg/index.js:36-40 | Returns the first row from i on whose leading column is least, with that column. None when rows i onward are zero. |
| Linalg.EliminateColumn | src/components/Linalg/index.js:45-50 | Every other row with a 1 in column j is XOR-ed with the target row. The row arrays themselves stay the same objects. |
| Linalg.SwapRows | src/components/Linalg/index.js:52-55 | The i-th and target rows swap places. The rows stay distinct objects. |
| Gf2.EliminateKeepsNullSpace | src/components/Linalg/index.js:45-50 | Row XORs change neither the null space nor the row length. |
| Gf2.SwapKeepsNullSpace | src/components/Linalg/index.js:52-55 | Swapping rows changes neither the null space nor the row length. |
| Gf2.ReduceStep | src/components/Linalg/index.js:36-55 | Eliminating with the least leading column and swapping it to row i extends the reduced prefix by one row. |
| Linalg.RowReduce | src/components/Linalg/index.js:31-57 | The result is in reduced echelon form: increasing leads, zero rows last, and each lead column 1 only in its row. It has the same null space and dimensions, and holds the same row objects. |
| Gf2.PivotsOfRref | src/components/Linalg/index.js:62 | In reduced form, the filtered `indexOf(1)` list is the lead of row c at position c. Rows past its length are zero. |
| Gf2.PivotsIncrease | src/components/Linalg/index.js:62 | The pivots strictly increase and lie below the column count. |
| Gf2.FreeBelowCount | src/components/Linalg/index.js:66-71 | Below n there are n minus #pivots free columns. |
| Gf2.FirstFreeIsKthFree | src/components/Linalg/index.js:66-71 | The column loop stops at the k-th non-pivot column, or at the end when there is none. |
| Linalg.FreeColumn | src/components/Linalg/index.js:64-71 | The loop with count computes that column. |
| Linalg.HitPivots | src/components/Linalg/index.js:72-80 | On a reduced matrix the output is j followed by pivots[i] for every row i with mat[i][j] = 1. pivots[i] is always defined there. |
| Gf2.HitRowIsPivot | src/components/Linalg/index.js:59-77 | In a reduced matrix a row with a 1 is among the first #pivots rows, and pivots[i] is its lead, so `pivots[i]` never reads past the pivot list. |
| Linalg.NullSpace | src/components/Linalg/index.js:59-81 | For a matrix in reduced echelon form, as the comment at line 59 assumes, the method returns NullVec, the vector the two loops describe. |
| Gf2.HitsParity | src/components/Linalg/index.js:72-80 | Over j and the hit pivots, every row has even parity. |
| Gf2.NullVecKills | src/components/Linalg/index.js:60-81 | For k < cols - #pivots, the vector starts with the k-th free column. Its entries are distinct columns below cols, and the XOR of those columns is zero. |
| Relations.ExponentRowBits | src/components/Linalg/index.js:96-99 | Bit 0 is 1 exactly when y < 0, and bit l is 1 exactly when factorBase[l] divides y. |
| Relations.ExponentVector | src/components/Linalg/index.js:96-99 | The push loop builds exactly that row. |
| Relations.DivideOut | src/components/Linalg/index.js:102-107 | The division loop leaves y divided once, truncating, by each flagged entry. |
| Relations.CofactorInvariant | src/components/Linalg/index.js:102-107 | For a valid base, what is left times the flagged product is y. Every later flagged prime still divides it. |
| Relations.VerifiedIsProduct | src/components/Linalg/index.js:108 | A y that passes equals the product of its flagged base entries. |
| Relations.TryRelation | src/components/Linalg/index.js:92-108 | One candidate gives x = base + r, y = x² - N, its row, and whether it passes. |
| Relations.KeptVerified | src/components/Linalg/index.js:108-111 | Every kept x passes the check and comes from a candidate offset. |
| Relations.StopFromIsFirst | src/components/Linalg/index.js:116 | The loop stops at the first candidate that completes the quota, or at the end. |
| Relations.StopsAtQuota | src/components/Linalg/index.js:88-116 | At most factorBase.length + 64 relations are kept. Stopping early means exactly that many, and no earlier prefix reached it. |
| Relations.Collect | src/components/Linalg/index.js:84-117 | x holds the passing candidates among those looked at. y and mat are their values and rows. bad counts the rejected ones. |
| Relations.TransposeRows | src/components/Linalg/index.js:120-127 | The loops build the transpose. |
| Relations.Prune | src/components/Linalg/index.js:130 | The kept rows are exactly the rows containing a 1. |
| Relations.PruneKeepsNullSpace | src/components/Linalg/index.js:130 | Dropping zero rows keeps the null space. |
| Relations.ComputeMatrix | src/components/Linalg/index.js:83-136 | The result is the Outcome of the candidates looked at: the crash cases, `{bad}` when pruned rows ≥ columns, or x, y and the pruned transpose. |
| Relations.OutcomeMatrix | src/components/Linalg/index.js:119-135 | A returned matrix has 1 ≤ rows < columns = \|x\| = \|y\|. No row is zero, every y passed, and its null space is that of the transposed parity vectors. |
| Squares.RelationsGiveSquare | src/components/Linalg/index.js:142-156 | For a valid base, y values whose vectors XOR to zero have a product that is a perfect square. |
| Factorization.ProductOfSquares | src/components/Linalg/index.js:148-153 | ∏y ≡ (∏x)² (mod N), since each y = x² - N. |
| Factorization.RootOfPerfectSquare | src/components/Linalg/index.js:155-156 | The integer square root of h² is \|h\|, so line 156's check holds. |
| Factorization.CongruencePair | src/components/Linalg/index.js:148-157 | The loop computes a = \|∏x mod N\| and c = FloorSqrt(∏y) mod N, with FloorSqrt the corrected isqrt. |
| Factorization.CandidateSquares | src/components/Linalg/index.js:148-157 | When ∏y is a square h², both a and c lie in [0, N) and a² ≡ c² (mod N). |
| Factorization.FirstNontrivial | src/components/Linalg/index.js:142-162 | Returns the first k < nullity whose pair has a ≠ c and a + c ≠ N, with a, c and the vector length. None when every pair is trivial. |
| Factorization.CompleteFactorization | src/components/Linalg/index.js:138-163 | The matrix is reduced in place with the same null space. The result is the first nontrivial pair over k = 0 ... cols - rows - 1, or None exactly when all are trivial. |
| Factorization.NontrivialFactor | src/components/Linalg/index.js:186 | For 0 ≤ a, c < N with a² ≡ c², a ≠ c and a + c ≠ N, gcd(a + c, N) is a proper factor of N. |
| Factorization.SplitFactor | src/components/Linalg/index.js:186-187 | p = gcd(a + c, N) divides both and is their greatest common divisor. p·(N/p) = N, and both are proper factors for a nontrivial congruence. |
| Factorization.CongruenceFromNullVec | src/components/Linalg/index.js:138-159 | For relations from computeMatrix, each null vector of the reduced matrix gives a, c in [0, N) with a² ≡ c² (mod N). |
| Factorization.FactorRelations | src/components/Linalg/index.js:181-188 | A returned factorisation has p·q = N, and over a valid base 1 < p, q < N. |
| Factorization.AttemptFactorization | src/components/Linalg/index.js:173-189 | Matches computeMatrix's outcome: crash, `{bad}`, or a matrix that yields a factorisation or the failure message. |
| NumberTheory.NonResidueExists | src/mathUtils.js:30-33 | Every odd prime has a non-residue z with 2 ≤ z < p. |
| NumberTheory.Fermat | src/mathUtils.js:3-5 | a^(p-1) ≡ 1 (mod p) for p prime not dividing a. This is what makes the symbol ±1. |
| BigInt.JsDiv | src/components/Linalg/index.js:105 | Truncating division: the remainder is smaller than the divisor and has the sign of the dividend. |
| BigInt.JsDivExact | src/components/Linalg/index.js:187 | An exact division returns the exact quotient. |
| BigInt.JsMod | src/components/Linalg/index.js:151-157 | The remainder has the sign of the dividend, is smaller than the modulus, and is congruent to the dividend. |

## Left out

- The WebGL sieve (`src/gl/index.js`): shaders, textures, pixel reads and floating-point
  logarithms. `relations` and `factorBase` are parameters here. Their producer is not
  part of this model.
- The React components, `setTimeout`/`useEffect` scheduling, the UI state and the error
  messages. `AttemptFactorization` returns what the component would display, as an
  `Attempt` value.
- The `console.log` calls.
- The big-integer library is modelled as mathematical integers. The same goes for the
  `Number` arithmetic at lines 41-48 of `src/mathUtils.js` (`(t-1) % p`, `t*t`), which
  stays exact because p < 10⁶.
- MathUtils.ModSqrt: requires p prime and 0 ≤ a < p. The caller that reduces N modulo
  each prime is not part of this model. For such inputs the z-search always finds a
  non-residue, as `FirstNonResidue` proves, so the fall-through with z = p cannot happen
  and is not modelled.
- MathUtils.Sieve: the outer bound `i < Math.sqrt(MAX)` is read as i·i < MAX. The bound
  is a parameter of `Sieve` and `SievePrimes`. `PrimeList` runs them at the source
  constant `MathUtils.MAX` = 1000000.
- MathUtils.ModPow: with exponent 0 the library returns 1 unreduced, so for modulus 1 it
  gives 1 where the model gives 0. Every modulus here is an odd prime.
- Linalg.ToArrays: turns the sequence matrix from computeMatrix into the row arrays that
  `rowReduce` updates in place. This is allocation glue with no source counterpart.
- Factorization.CompleteFactorization: requires at least as many x and y values as the
  matrix has columns. computeMatrix guarantees equality.
- Factorization.FactorRelations: states 1 < p, q < N only for a factor base as the
  sieve builds it (-1 followed by distinct primes). For an arbitrary base, kept y values
  need not multiply to a square. Then the returned pair may not be a congruence, and p
  may be 1 or N.
- Square roots of ∏y go through `MathUtils.FloorSqrt`, the corrected `isqrt`: ∏y can be
  2 only if it is not a perfect square, which `RelationsGiveSquare` excludes for a valid
  base.

## Findings

| source | as written | input that shows it | evidently intended | confidence | as-written member | corrected member |
|---|---|---|---|---|---|---|
| src/mathUtils.js:61 | `if (n.leq(2)) return n;` returns 2 for n = 2 | n = 2: isqrt(2) = 2, and 2² = 4 > 2 | the floor square root, 1 | not executed | MathUtils.IsqrtOfTwo (with MathUtils.Isqrt) | MathUtils.FloorSqrt |
