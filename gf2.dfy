/** Matrices over GF(2) as sequences of 0/1 rows: the facts behind the in-place
    Gaussian elimination and the null-space read-off of
    src/components/Linalg/index.js. */
module Gf2 {

  /** A matrix entry: the numbers 0 and 1 that the source stores. */
  type Bit = b: int | 0 <= b <= 1

  /** JavaScript's `^` on two bits. */
  function Xor(x: Bit, y: Bit): Bit
  {
    if x == y then 0 else 1
  }

  /** Entry j of a row, with a missing entry (JavaScript's `undefined`) read as 0, as
      both `^` and `=== 1` treat it. */
  function At(r: seq<Bit>, j: int): Bit
  {
    if 0 <= j < |r| then r[j] else 0
  }

  /** The row that `ixor(a, b)` leaves in a: a[i] ^ b[i] for every index of a. */
  function XorRows(a: seq<Bit>, b: seq<Bit>): (r: seq<Bit>)
    ensures |r| == |a|
  {
    seq(|a|, i requires 0 <= i < |a| => Xor(a[i], At(b, i)))
  }

  /** XOR-ing the same row twice restores the original. */
  lemma XorRowsInvolution(a: seq<Bit>, b: seq<Bit>)
    ensures XorRows(XorRows(a, b), b) == a
  {
    var r := XorRows(XorRows(a, b), b);
    forall i | 0 <= i < |a| ensures r[i] == a[i] {
      assert XorRows(a, b)[i] == Xor(a[i], At(b, i));
    }
  }

  /** `row.indexOf(1)`: the column of the first 1, or -1 when the row is zero. */
  function Lead(r: seq<Bit>): (k: int)
    ensures -1 <= k < |r|
    ensures k >= 0 ==> r[k] == 1
    ensures forall i :: 0 <= i < |r| && (k == -1 || i < k) ==> r[i] == 0
  {
    if |r| == 0 then -1
    else if r[0] == 1 then 0
    else
      var t := Lead(r[1..]);
      if t == -1 then -1 else t + 1
  }

  /** Two rows that agree on every column up to the lead of the first have the same lead. */
  lemma LeadOfAgreeing(r: seq<Bit>, s: seq<Bit>)
    requires |r| == |s| && Lead(r) >= 0
    requires forall i :: 0 <= i <= Lead(r) ==> r[i] == s[i]
    ensures Lead(s) == Lead(r)
  {
  }

  /** A row with no 1 before column c and a 0 at c has no lead at or before c. */
  lemma LeadAfter(r: seq<Bit>, c: int)
    requires 0 <= c < |r| && r[c] == 0 && forall i :: 0 <= i < c ==> r[i] == 0
    ensures Lead(r) == -1 || Lead(r) > c
  {
  }

  /** The XOR over GF(2) of the entries of row r at the columns js (with repetition). */
  function Parity(r: seq<Bit>, js: seq<int>): Bit
  {
    if |js| == 0 then 0 else Xor(Parity(r, js[..|js| - 1]), At(r, js[|js| - 1]))
  }

  /** The columns js XOR-sum to the zero vector: every row has even parity over js. */
  ghost predicate Kills(m: seq<seq<Bit>>, js: seq<int>)
  {
    forall l :: 0 <= l < |m| ==> Parity(m[l], js) == 0
  }

  /** Two matrices with the same null space, seen as sets of columns that XOR to zero. */
  ghost predicate NullEquiv(m: seq<seq<Bit>>, m0: seq<seq<Bit>>)
  {
    forall js :: Kills(m, js) <==> Kills(m0, js)
  }

  /** All rows have `cols` entries. */
  predicate Rectangular(m: seq<seq<Bit>>, cols: int)
  {
    forall k :: 0 <= k < |m| ==> |m[k]| == cols
  }

  /** Parity is additive over the XOR of two rows of equal length. */
  lemma {:induction false} ParityOfXor(a: seq<Bit>, b: seq<Bit>, js: seq<int>)
    requires |a| == |b|
    ensures Parity(XorRows(a, b), js) == Xor(Parity(a, js), Parity(b, js))
  {
    if |js| > 0 {
      var js' := js[..|js| - 1];
      ParityOfXor(a, b, js');
      var j := js[|js| - 1];
      if 0 <= j < |a| {
        assert XorRows(a, b)[j] == Xor(a[j], b[j]);
      }
    }
  }

  /** Appending a column to js flips the parity by that column's entry. */
  lemma ParitySnoc(r: seq<Bit>, js: seq<int>, j: int)
    ensures Parity(r, js + [j]) == Xor(Parity(r, js), At(r, j))
  {
    assert (js + [j])[..|js|] == js;
  }

  /** Line 47-49 for one pivot: every row k other than t with a 1 in column j is XOR-ed
      with row t. */
  function Eliminate(m: seq<seq<Bit>>, t: int, j: int): (e: seq<seq<Bit>>)
    requires 0 <= t < |m|
    ensures |e| == |m| && e[t] == m[t]
  {
    seq(|m|, k requires 0 <= k < |m| =>
      if k != t && At(m[k], j) == 1 then XorRows(m[k], m[t]) else m[k])
  }

  /** Lines 53-55: rows i and t exchanged. */
  function Swap(m: seq<seq<Bit>>, i: int, t: int): (s: seq<seq<Bit>>)
    requires 0 <= i < |m| && 0 <= t < |m|
    ensures |s| == |m|
  {
    m[i := m[t]][t := m[i]]
  }

  /** Elimination keeps the null space and the shape. */
  lemma EliminateKeepsNullSpace(m: seq<seq<Bit>>, t: int, j: int, cols: int)
    requires 0 <= t < |m| && Rectangular(m, cols)
    ensures NullEquiv(Eliminate(m, t, j), m)
    ensures Rectangular(Eliminate(m, t, j), cols)
  {
    var e := Eliminate(m, t, j);
    forall js ensures Kills(e, js) <==> Kills(m, js) {
      if Kills(e, js) || Kills(m, js) {
        assert Parity(m[t], js) == 0 by {
          if Kills(e, js) {
            assert Parity(e[t], js) == 0;
          }
        }
        forall k | 0 <= k < |m| ensures Parity(e[k], js) == Parity(m[k], js) {
          if k != t && At(m[k], j) == 1 {
            ParityOfXor(m[k], m[t], js);
          }
        }
      }
    }
  }

  /** Swapping two rows keeps the null space and the shape. */
  lemma SwapKeepsNullSpace(m: seq<seq<Bit>>, i: int, t: int, cols: int)
    requires 0 <= i < |m| && 0 <= t < |m| && Rectangular(m, cols)
    ensures NullEquiv(Swap(m, i, t), m)
    ensures Rectangular(Swap(m, i, t), cols)
  {
    var s := Swap(m, i, t);
    forall js ensures Kills(s, js) <==> Kills(m, js) {
      if Kills(s, js) {
        forall k | 0 <= k < |m| ensures Parity(m[k], js) == 0 {
          var k' := if k == i then t else if k == t then i else k;
          assert s[k'] == m[k];
        }
      }
      if Kills(m, js) {
        forall k | 0 <= k < |s| ensures Parity(s[k], js) == 0 {
          var k' := if k == i then t else if k == t then i else k;
          assert s[k] == m[k'];
        }
      }
    }
  }

  lemma NullEquivTrans(a: seq<seq<Bit>>, b: seq<seq<Bit>>, c: seq<seq<Bit>>)
    requires NullEquiv(a, b) && NullEquiv(b, c)
    ensures NullEquiv(a, c)
  {
  }

  /** The shape rowReduce establishes: nonzero rows first with strictly increasing leads,
      zero rows at the bottom, and each lead column 1 only in its own row. */
  ghost predicate IsRref(m: seq<seq<Bit>>)
  {
    (forall a, b :: 0 <= a < b < |m| && Lead(m[b]) >= 0 ==>
      Lead(m[a]) >= 0 && Lead(m[a]) < Lead(m[b])) &&
    (forall a, k :: 0 <= a < |m| && 0 <= k < |m| && k != a && Lead(m[a]) >= 0 ==>
      At(m[k], Lead(m[a])) == 0)
  }

  /** After i passes of the outer loop of lines 36-56: rows before i have increasing leads,
      their lead columns are clear everywhere else, and the rows from i on are zero up to
      and including the last lead found. */
  ghost predicate Reduced(m: seq<seq<Bit>>, i: int)
  {
    0 <= i <= |m| &&
    (forall a :: 0 <= a < i ==> Lead(m[a]) >= 0) &&
    (forall a, b :: 0 <= a < b < i ==> Lead(m[a]) < Lead(m[b])) &&
    (forall a, k :: 0 <= a < i && 0 <= k < |m| && k != a ==> At(m[k], Lead(m[a])) == 0) &&
    (forall k :: 0 < i <= k < |m| ==> Lead(m[k]) == -1 || Lead(m[k]) > Lead(m[i - 1]))
  }

  /** Nothing has been reduced yet. */
  lemma ReducedStart(m: seq<seq<Bit>>)
    ensures Reduced(m, 0)
  {
  }

  /** In a rectangular matrix a row with no lead in [0, cols) has no 1 at all. */
  lemma NoLeadInRange(m: seq<seq<Bit>>, i: nat, cols: int)
    requires Rectangular(m, cols)
    requires forall k :: i <= k < |m| ==> !(0 <= Lead(m[k]) < cols)
    ensures forall k :: i <= k < |m| ==> Lead(m[k]) == -1
  {
    forall k | i <= k < |m| ensures Lead(m[k]) == -1 {
      assert |m[k]| == cols;
    }
  }

  lemma ReducedIsRref(m: seq<seq<Bit>>, i: int)
    requires Reduced(m, i)
    requires forall k :: i <= k < |m| ==> Lead(m[k]) == -1
    ensures IsRref(m)
  {
    forall a, b | 0 <= a < b < |m| && Lead(m[b]) >= 0
      ensures Lead(m[a]) >= 0 && Lead(m[a]) < Lead(m[b])
    {
      assert b < i;
    }
  }

  /** Row k after an elimination with a pivot row that is zero before column j: it agrees
      with the old row before column j, and has a 0 in column j unless it is row t. */
  lemma EliminateRow(m: seq<seq<Bit>>, t: int, j: int, k: int, cols: int)
    requires 0 <= t < |m| && 0 <= k < |m| && Rectangular(m, cols) && 0 <= j < cols
    requires m[t][j] == 1 && forall c :: 0 <= c < j ==> m[t][c] == 0
    ensures var e := Eliminate(m, t, j);
      |e[k]| == cols && (forall c :: 0 <= c < j ==> e[k][c] == m[k][c]) &&
      (k != t ==> e[k][j] == 0)
  {
    var e := Eliminate(m, t, j);
    if k != t && At(m[k], j) == 1 {
      assert e[k] == XorRows(m[k], m[t]);
      assert e[k][j] == Xor(m[k][j], m[t][j]);
      forall c | 0 <= c < j ensures e[k][c] == m[k][c] {
        assert e[k][c] == Xor(m[k][c], m[t][c]);
      }
    }
  }

  /** Eliminating with the lead of row t keeps row t and the shape, changes no entry
      before the lead column, and clears the lead column in every other row. */
  lemma EliminateRows(m: seq<seq<Bit>>, t: int, cols: int)
    requires Rectangular(m, cols) && 0 <= t < |m| && Lead(m[t]) >= 0
    ensures var e := Eliminate(m, t, Lead(m[t]));
      Rectangular(e, cols) && |e| == |m| && e[t] == m[t] &&
      (forall k, c :: 0 <= k < |m| && 0 <= c < Lead(m[t]) ==> e[k][c] == m[k][c]) &&
      (forall k :: 0 <= k < |m| && k != t ==> e[k][Lead(m[t])] == 0)
  {
    var j := Lead(m[t]);
    var e := Eliminate(m, t, j);
    forall k | 0 <= k < |m|
      ensures |e[k]| == cols && (forall c :: 0 <= c < j ==> e[k][c] == m[k][c])
      ensures k != t ==> e[k][j] == 0
    {
      EliminateRow(m, t, j, k, cols);
    }
  }

  /** What one elimination with pivot row t and column j does to a reduced matrix. */
  lemma EliminateStep(m: seq<seq<Bit>>, i: int, t: int, cols: int)
    requires Reduced(m, i) && Rectangular(m, cols) && i <= t < |m|
    requires Lead(m[t]) >= 0
    requires forall k :: i <= k < |m| ==> Lead(m[k]) == -1 || Lead(m[k]) >= Lead(m[t])
    ensures var e := Eliminate(m, t, Lead(m[t]));
      Rectangular(e, cols) && Lead(e[t]) == Lead(m[t]) && PivotReady(e, i, t, Lead(m[t]))
  {
    EliminateRows(m, t, cols);
    LeadsBelowPivot(m, i, t);
    KeptLeads(m, i, t, cols);
    ClearedColumns(m, i, t, cols);
    LaterLeads(m, i, t, cols);
  }

  /** The rows reduced so far lead before the pivot column. */
  lemma LeadsBelowPivot(m: seq<seq<Bit>>, i: int, t: int)
    requires Reduced(m, i) && i <= t < |m| && Lead(m[t]) >= 0
    requires forall k :: i <= k < |m| ==> Lead(m[k]) == -1 || Lead(m[k]) >= Lead(m[t])
    ensures forall a :: 0 <= a < i ==> 0 <= Lead(m[a]) < Lead(m[t])
  {
    forall a | 0 <= a < i ensures Lead(m[a]) < Lead(m[t]) {
      if a < i - 1 {
        assert Lead(m[a]) < Lead(m[i - 1]);
      }
    }
  }

  /** The elimination keeps the leads of the rows reduced so far. */
  lemma KeptLeads(m: seq<seq<Bit>>, i: int, t: int, cols: int)
    requires Reduced(m, i) && Rectangular(m, cols) && i <= t < |m| && Lead(m[t]) >= 0
    requires forall a :: 0 <= a < i ==> 0 <= Lead(m[a]) < Lead(m[t])
    ensures forall a :: 0 <= a < i ==> Lead(Eliminate(m, t, Lead(m[t]))[a]) == Lead(m[a])
    ensures var e := Eliminate(m, t, Lead(m[t]));
      (forall a :: 0 <= a < i ==> 0 <= Lead(e[a]) < Lead(m[t])) &&
      (forall a, b :: 0 <= a < b < i ==> Lead(e[a]) < Lead(e[b]))
  {
    var e := Eliminate(m, t, Lead(m[t]));
    EliminateRows(m, t, cols);
    forall a | 0 <= a < i ensures Lead(e[a]) == Lead(m[a]) {
      LeadOfAgreeing(m[a], e[a]);
    }
  }

  /** The lead columns of the rows reduced so far stay clear in every other row. */
  lemma ClearedColumns(m: seq<seq<Bit>>, i: int, t: int, cols: int)
    requires Reduced(m, i) && Rectangular(m, cols) && i <= t < |m| && Lead(m[t]) >= 0
    requires forall a :: 0 <= a < i ==> 0 <= Lead(m[a]) < Lead(m[t])
    requires forall a :: 0 <= a < i ==> Lead(Eliminate(m, t, Lead(m[t]))[a]) == Lead(m[a])
    ensures var e := Eliminate(m, t, Lead(m[t]));
      forall a, k :: 0 <= a < i && 0 <= k < |m| && k != a ==> At(e[k], Lead(e[a])) == 0
  {
    var e := Eliminate(m, t, Lead(m[t]));
    EliminateRows(m, t, cols);
    forall a, k | 0 <= a < i && 0 <= k < |m| && k != a ensures At(e[k], Lead(e[a])) == 0 {
      assert At(m[k], Lead(m[a])) == 0;
    }
  }

  /** The other rows from i on lead after the pivot column once it is cleared. */
  lemma LaterLeads(m: seq<seq<Bit>>, i: int, t: int, cols: int)
    requires Reduced(m, i) && Rectangular(m, cols) && i <= t < |m| && Lead(m[t]) >= 0
    requires forall k :: i <= k < |m| ==> Lead(m[k]) == -1 || Lead(m[k]) >= Lead(m[t])
    ensures var e := Eliminate(m, t, Lead(m[t]));
      forall k :: i <= k < |m| && k != t ==> Lead(e[k]) == -1 || Lead(e[k]) > Lead(m[t])
  {
    var j := Lead(m[t]);
    var e := Eliminate(m, t, j);
    EliminateRows(m, t, cols);
    forall k | i <= k < |m| && k != t ensures Lead(e[k]) == -1 || Lead(e[k]) > j {
      LeadAfter(e[k], j);
    }
  }

  /** The state between the elimination and the swap of one pass: rows before i are
      reduced with leads below j, column j is clear outside row t, and the other rows from
      i on lead after j. */
  ghost predicate PivotReady(e: seq<seq<Bit>>, i: int, t: int, j: int)
  {
    0 <= i <= t < |e| &&
    (forall a :: 0 <= a < i ==> 0 <= Lead(e[a]) < j) &&
    (forall a, b :: 0 <= a < b < i ==> Lead(e[a]) < Lead(e[b])) &&
    (forall a, k :: 0 <= a < i && 0 <= k < |e| && k != a ==> At(e[k], Lead(e[a])) == 0) &&
    (forall k :: 0 <= k < |e| && k != t ==> At(e[k], j) == 0) &&
    (forall k :: i <= k < |e| && k != t ==> Lead(e[k]) == -1 || Lead(e[k]) > j)
  }

  /** Moving the pivot row t to place i extends the reduced prefix by one row. */
  lemma SwapStep(e: seq<seq<Bit>>, i: int, t: int, j: int)
    requires PivotReady(e, i, t, j) && Lead(e[t]) == j && j >= 0
    ensures Reduced(Swap(e, i, t), i + 1)
  {
    var s := Swap(e, i, t);
    assert s[i] == e[t];
    assert forall k :: 0 <= k < |e| && k != i && k != t ==> s[k] == e[k];
    assert t != i ==> s[t] == e[i];
    forall a | 0 <= a < i + 1 ensures Lead(s[a]) >= 0 {
      if a < i {
        assert s[a] == e[a];
      }
    }
    forall a, b | 0 <= a < b < i + 1 ensures Lead(s[a]) < Lead(s[b]) {
      assert s[a] == e[a];
      if b < i {
        assert s[b] == e[b];
      }
    }
    forall a, k | 0 <= a < i + 1 && 0 <= k < |s| && k != a ensures At(s[k], Lead(s[a])) == 0 {
      if a < i {
        assert s[a] == e[a];
      }
    }
    forall k | i + 1 <= k < |s| ensures Lead(s[k]) == -1 || Lead(s[k]) > Lead(s[i]) {
    }
  }

  /** One pass of the outer loop extends the reduced prefix by one row. */
  lemma ReduceStep(m: seq<seq<Bit>>, i: int, t: int, cols: int)
    requires Reduced(m, i) && Rectangular(m, cols) && i <= t < |m|
    requires Lead(m[t]) >= 0
    requires forall k :: i <= k < |m| ==> Lead(m[k]) == -1 || Lead(m[k]) >= Lead(m[t])
    ensures Reduced(Swap(Eliminate(m, t, Lead(m[t])), i, t), i + 1)
  {
    EliminateStep(m, i, t, cols);
    SwapStep(Eliminate(m, t, Lead(m[t])), i, t, Lead(m[t]));
  }

  /** One pass of the outer loop of rowReduce, with the pivot row t holding the smallest
      lead among the rows from i on: the reduced prefix grows by one row, the shape and the
      null space stay. */
  lemma PassStep(m: seq<seq<Bit>>, m0: seq<seq<Bit>>, i: int, t: int, cols: int)
    requires Reduced(m, i) && Rectangular(m, cols) && NullEquiv(m, m0) && i <= t < |m|
    requires Lead(m[t]) >= 0
    requires forall k :: i <= k < |m| ==> Lead(m[k]) == -1 || Lead(m[k]) >= Lead(m[t])
    ensures Reduced(Swap(Eliminate(m, t, Lead(m[t])), i, t), i + 1)
    ensures Rectangular(Swap(Eliminate(m, t, Lead(m[t])), i, t), cols)
    ensures NullEquiv(Swap(Eliminate(m, t, Lead(m[t])), i, t), m0)
  {
    var e := Eliminate(m, t, Lead(m[t]));
    ReduceStep(m, i, t, cols);
    EliminateKeepsNullSpace(m, t, Lead(m[t]), cols);
    SwapKeepsNullSpace(e, i, t, cols);
    NullEquivTrans(Swap(e, i, t), e, m);
    NullEquivTrans(Swap(e, i, t), m, m0);
  }

  /** The non-negative leads of the rows, in row order: the `pivots` of line 61. */
  function Pivots(m: seq<seq<Bit>>): (piv: seq<int>)
    ensures |piv| <= |m|
    ensures forall c :: 0 <= c < |piv| ==> piv[c] >= 0
  {
    if |m| == 0 then []
    else (if Lead(m[0]) >= 0 then [Lead(m[0])] else []) + Pivots(m[1..])
  }

  /** For a reduced matrix the pivots are the leads of the first rows, and every later
      row is zero. */
  lemma {:induction false} PivotsOfRref(m: seq<seq<Bit>>)
    requires IsRref(m)
    ensures forall c :: 0 <= c < |Pivots(m)| ==> Pivots(m)[c] == Lead(m[c])
    ensures forall k :: |Pivots(m)| <= k < |m| ==> Lead(m[k]) == -1
  {
    if |m| > 0 {
      var rest := m[1..];
      assert IsRref(rest) by {
        forall a, b | 0 <= a < b < |rest| && Lead(rest[b]) >= 0
          ensures Lead(rest[a]) >= 0 && Lead(rest[a]) < Lead(rest[b])
        {
          assert rest[a] == m[a + 1] && rest[b] == m[b + 1];
        }
        forall a, k | 0 <= a < |rest| && 0 <= k < |rest| && k != a && Lead(rest[a]) >= 0
          ensures At(rest[k], Lead(rest[a])) == 0
        {
          assert rest[a] == m[a + 1] && rest[k] == m[k + 1];
        }
      }
      PivotsOfRref(rest);
      if Lead(m[0]) >= 0 {
        assert Pivots(m) == [Lead(m[0])] + Pivots(rest);
        forall k | |Pivots(m)| <= k < |m| ensures Lead(m[k]) == -1 {
          assert m[k] == rest[k - 1];
        }
      } else {
        forall k | 0 <= k < |m| ensures Lead(m[k]) == -1 {
        }
        NoPivots(m);
      }
    }
  }

  lemma {:induction false} NoPivots(m: seq<seq<Bit>>)
    requires forall k :: 0 <= k < |m| ==> Lead(m[k]) == -1
    ensures Pivots(m) == []
  {
    if |m| > 0 {
      NoPivots(m[1..]);
    }
  }

  /** Pivots of a reduced matrix strictly increase and lie below the row length. */
  lemma PivotsIncrease(m: seq<seq<Bit>>, cols: int)
    requires IsRref(m) && Rectangular(m, cols)
    ensures forall a, b :: 0 <= a < b < |Pivots(m)| ==> Pivots(m)[a] < Pivots(m)[b]
    ensures forall a :: 0 <= a < |Pivots(m)| ==> 0 <= Pivots(m)[a] < cols
  {
    PivotsOfRref(m);
  }

  // ---------------------------------------------------------------------------
  // Counting free columns

  /** The number of columns below n that are not pivots. */
  function FreeBelow(piv: seq<int>, n: int): (c: nat)
    decreases if n < 0 then 0 else n
  {
    if n <= 0 then 0 else FreeBelow(piv, n - 1) + (if n - 1 in piv then 0 else 1)
  }

  /** Only the pivots below n matter to FreeBelow(_, n). */
  lemma {:induction false} FreeBelowIgnoresLarge(piv: seq<int>, x: int, n: int)
    requires x >= n
    ensures FreeBelow(piv + [x], n) == FreeBelow(piv, n)
    decreases if n < 0 then 0 else n
  {
    if n > 0 {
      FreeBelowIgnoresLarge(piv, x, n - 1);
      assert (n - 1 in piv + [x]) <==> (n - 1 in piv);
    }
  }

  /** With k strictly increasing pivots in [0, n), exactly n - k columns are free. */
  lemma {:induction false} FreeBelowCount(piv: seq<int>, n: int)
    requires n >= 0
    requires forall a, b :: 0 <= a < b < |piv| ==> piv[a] < piv[b]
    requires forall a :: 0 <= a < |piv| ==> 0 <= piv[a] < n
    ensures FreeBelow(piv, n) == n - |piv|
    decreases n
  {
    if n > 0 {
      if |piv| > 0 && piv[|piv| - 1] == n - 1 {
        var front := piv[..|piv| - 1];
        assert piv == front + [n - 1];
        FreeBelowIgnoresLarge(front, n - 1, n - 1);
        FreeBelowCount(front, n - 1);
      } else {
        forall a | 0 <= a < |piv| ensures piv[a] < n - 1 {
          if |piv| > 0 {
            assert piv[a] <= piv[|piv| - 1];
          }
        }
        FreeBelowCount(piv, n - 1);
      }
    }
  }

  /** Lines 65-70: the first column j from which on the free columns counted up to and
      including j exceed k, or the row length when there is none. */
  function FirstFree(piv: seq<int>, k: int, j: int, cols: int): (r: int)
    requires 0 <= j <= cols
    ensures j <= r <= cols
    decreases cols - j
  {
    if j == cols then cols
    else if FreeBelow(piv, j + 1) > k then j
    else FirstFree(piv, k, j + 1, cols)
  }

  /** The column FirstFree finds is the k-th free column (counting from 0), and it is the
      row length only when fewer than k + 1 columns are free. */
  lemma {:induction false} FirstFreeIsKthFree(piv: seq<int>, k: int, j: int, cols: int)
    requires 0 <= j <= cols && FreeBelow(piv, j) <= k
    ensures var r := FirstFree(piv, k, j, cols);
      (r < cols ==> r !in piv && FreeBelow(piv, r) == k) &&
      (r == cols ==> FreeBelow(piv, cols) <= k)
    decreases cols - j
  {
    if j < cols && FreeBelow(piv, j + 1) <= k {
      FirstFreeIsKthFree(piv, k, j + 1, cols);
    }
  }

  /** Lines 74-79: the pivots of the first n rows that have a 1 in column j. The test
      n - 1 < |piv| only keeps the function total: on a reduced matrix every such row has a
      pivot (HitRowIsPivot), and the source is only called on reduced matrices. */
  function Hits(m: seq<seq<Bit>>, piv: seq<int>, j: int, n: int): (h: seq<int>)
    requires 0 <= n <= |m|
  {
    if n == 0 then []
    else Hits(m, piv, j, n - 1) + (if At(m[n - 1], j) == 1 && n - 1 < |piv| then [piv[n - 1]] else [])
  }

  /** Lines 60-81: the k-th null-space basis vector read off a reduced matrix. */
  function NullVec(m: seq<seq<Bit>>, k: int, cols: int): (v: seq<int>)
    requires cols >= 0
    ensures |v| >= 1
  {
    var piv := Pivots(m);
    var j := FirstFree(piv, k, 0, cols);
    [j] + Hits(m, piv, j, |m|)
  }

  /** In a reduced matrix column Lead(m[i]) is 1 in row i and 0 in every other row. */
  lemma PivotColumn(m: seq<seq<Bit>>, i: int, l: int)
    requires IsRref(m) && 0 <= i < |m| && 0 <= l < |m| && Lead(m[i]) >= 0
    ensures At(m[l], Lead(m[i])) == if l == i then 1 else 0
  {
  }

  /** In a reduced matrix a row with a 1 is one of the first |Pivots(m)| rows, and its
      pivot is its lead. */
  lemma HitRowIsPivot(m: seq<seq<Bit>>, i: int, j: int)
    requires IsRref(m) && 0 <= i < |m| && At(m[i], j) == 1
    ensures i < |Pivots(m)| && Pivots(m)[i] == Lead(m[i]) && Lead(m[i]) >= 0
  {
    PivotsOfRref(m);
    assert m[i][j] == 1;
  }

  /** Hits grows by at most the pivot of row n - 1. */
  lemma HitsSnoc(m: seq<seq<Bit>>, piv: seq<int>, j: int, n: int)
    requires 0 < n <= |m|
    ensures [j] + Hits(m, piv, j, n) == ([j] + Hits(m, piv, j, n - 1))
      + (if At(m[n - 1], j) == 1 && n - 1 < |piv| then [piv[n - 1]] else [])
  {
  }

  /** Adding the pivot of each row with a 1 in the free column j clears that row's parity. */
  lemma {:induction false} HitsParity(m: seq<seq<Bit>>, j: int, n: int, cols: int, l: int)
    requires IsRref(m) && Rectangular(m, cols) && 0 <= j < cols && 0 <= n <= |m|
    requires 0 <= l < |m|
    ensures Parity(m[l], [j] + Hits(m, Pivots(m), j, n)) == if l < n then 0 else m[l][j]
  {
    var piv := Pivots(m);
    if n == 0 {
      assert [j] + Hits(m, piv, j, 0) == [j];
      assert [j][..0] == [];
    } else {
      var i := n - 1;
      HitsParity(m, j, i, cols, l);
      var prev := [j] + Hits(m, piv, j, i);
      var p := Parity(m[l], prev);
      HitsSnoc(m, piv, j, n);
      if At(m[i], j) == 1 {
        HitRowIsPivot(m, i, j);
        ParitySnoc(m[l], prev, piv[i]);
        PivotColumn(m, i, l);
        assert Parity(m[l], [j] + Hits(m, piv, j, n)) == Xor(p, if l == i then 1 else 0);
      } else {
        assert prev + [] == prev;
      }
    }
  }

  /** The entries of Hits are pivots of the first n rows, in increasing order. */
  lemma {:induction false} HitsIncrease(m: seq<seq<Bit>>, j: int, n: int, cols: int)
    requires IsRref(m) && Rectangular(m, cols) && 0 <= n <= |m|
    ensures forall a :: 0 <= a < |Hits(m, Pivots(m), j, n)| ==>
      Hits(m, Pivots(m), j, n)[a] in Pivots(m) && 0 <= Hits(m, Pivots(m), j, n)[a] < cols
    ensures forall a :: 0 <= a < |Hits(m, Pivots(m), j, n)| && n < |Pivots(m)| ==>
      Hits(m, Pivots(m), j, n)[a] < Pivots(m)[n]
    ensures forall a, b :: 0 <= a < b < |Hits(m, Pivots(m), j, n)| ==>
      Hits(m, Pivots(m), j, n)[a] < Hits(m, Pivots(m), j, n)[b]
  {
    var piv := Pivots(m);
    PivotsIncrease(m, cols);
    if n > 0 {
      HitsIncrease(m, j, n - 1, cols);
      var h := Hits(m, piv, j, n - 1);
      var h' := Hits(m, piv, j, n);
      if At(m[n - 1], j) == 1 && n - 1 < |piv| {
        assert h' == h + [piv[n - 1]];
        forall a | 0 <= a < |h'| ensures h'[a] in piv && 0 <= h'[a] < cols {
          if a < |h| {
            assert h'[a] == h[a];
          } else {
            assert h'[a] == piv[n - 1];
          }
        }
        forall a | 0 <= a < |h'| && n < |piv| ensures h'[a] < piv[n] {
          if a < |h| {
            assert h'[a] == h[a];
          } else {
            assert h'[a] == piv[n - 1];
          }
        }
        forall a, b | 0 <= a < b < |h'| ensures h'[a] < h'[b] {
          assert h'[a] == h[a];
          if b < |h| {
            assert h'[b] == h[b];
          } else {
            assert h'[b] == piv[n - 1];
          }
        }
      } else {
        assert h' == h;
        forall a | 0 <= a < |h| && n < |piv| ensures h[a] < piv[n] {
          assert h[a] < piv[n - 1];
        }
      }
    }
  }

  /** The k-th null vector of a reduced matrix with more than k free columns: its columns
      XOR to zero, lie in range, are distinct, and start with the k-th free column. */
  lemma NullVecKills(m: seq<seq<Bit>>, k: int, cols: int)
    requires IsRref(m) && Rectangular(m, cols) && 0 <= k < cols - |Pivots(m)|
    ensures Kills(m, NullVec(m, k, cols))
    ensures NullVec(m, k, cols)[0] !in Pivots(m)
    ensures FreeBelow(Pivots(m), NullVec(m, k, cols)[0]) == k
    ensures forall c :: 0 <= c < |NullVec(m, k, cols)| ==> 0 <= NullVec(m, k, cols)[c] < cols
    ensures forall a, b :: 0 <= a < b < |NullVec(m, k, cols)| ==>
      NullVec(m, k, cols)[a] != NullVec(m, k, cols)[b]
  {
    var piv := Pivots(m);
    PivotsIncrease(m, cols);
    FreeBelowCount(piv, cols);
    FirstFreeIsKthFree(piv, k, 0, cols);
    var j := FirstFree(piv, k, 0, cols);
    var v := NullVec(m, k, cols);
    forall l | 0 <= l < |m| ensures Parity(m[l], v) == 0 {
      HitsParity(m, j, |m|, cols, l);
    }
    HitsIncrease(m, j, |m|, cols);
    FreshThenIncreasing(j, Hits(m, piv, j, |m|), piv);
  }

  /** A column outside piv followed by strictly increasing members of piv are distinct. */
  lemma FreshThenIncreasing(j: int, h: seq<int>, piv: seq<int>)
    requires j !in piv && forall a :: 0 <= a < |h| ==> h[a] in piv
    requires forall a, b :: 0 <= a < b < |h| ==> h[a] < h[b]
    ensures forall a, b :: 0 <= a < b < |[j] + h| ==> ([j] + h)[a] != ([j] + h)[b]
  {
    var v := [j] + h;
    forall a, b | 0 <= a < b < |v| ensures v[a] != v[b] {
      if a > 0 {
        assert v[a] == h[a - 1] && v[b] == h[b - 1];
      } else {
        assert v[b] == h[b - 1];
      }
    }
  }
}
