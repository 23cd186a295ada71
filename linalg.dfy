/** The imperative linear algebra of src/components/Linalg/index.js: argmin, ixor, the
    in-place row reduction over GF(2) and the null-space read-off. A matrix is an array of
    row arrays, as in the source, and Rows gives its contents as sequences. */
module Linalg {
  import opened Gf2
  import opened Wrappers

  /** The contents of a matrix of row arrays. */
  ghost function Rows(m: array<array<Bit>>): (r: seq<seq<Bit>>)
    reads m, m[..]
    ensures |r| == m.Length
    ensures forall i :: 0 <= i < m.Length ==> r[i] == m[i][..]
  {
    seq(m.Length, i reads m, m[..] requires 0 <= i < m.Length => m[i][..])
  }

  /** The row arrays of m, in order. */
  ghost function RowObjects(m: array<array<Bit>>): seq<array<Bit>>
    reads m
  {
    m[..]
  }

  /** The row arrays of m are pairwise distinct objects. */
  ghost predicate DistinctRows(m: array<array<Bit>>)
    reads m
  {
    forall a, b :: 0 <= a < b < m.Length ==> m[a] != m[b]
  }

  /** Lines 11-21: the first index holding the smallest entry in [0, max), or None when
      no entry lies in that range. */
  method Argmin(arr: seq<int>, max: int) returns (out: Option<nat>)
    ensures out.None? <==> forall i :: 0 <= i < |arr| ==> !(0 <= arr[i] < max)
    ensures out.Some? ==> out.value < |arr| && 0 <= arr[out.value] < max
    ensures out.Some? ==> forall i :: 0 <= i < |arr| && 0 <= arr[i] < max ==> arr[out.value] <= arr[i]
    ensures out.Some? ==> forall i :: 0 <= i < out.value && 0 <= arr[i] ==> arr[i] > arr[out.value]
  {
    var min := max;
    out := None;
    var i := 0;
    while i < |arr|
      invariant 0 <= i <= |arr|
      invariant out.None? <==> forall l :: 0 <= l < i ==> !(0 <= arr[l] < max)
      invariant out.None? ==> min == max
      invariant out.Some? ==> out.value < i && min == arr[out.value] && 0 <= min < max
      invariant forall l :: 0 <= l < i && 0 <= arr[l] < max ==> min <= arr[l]
      invariant out.Some? ==> forall l :: 0 <= l < out.value && 0 <= arr[l] ==> arr[l] > min
    {
      if arr[i] >= 0 && arr[i] < min {
        min := arr[i];
        out := Some(i);
      }
      i := i + 1;
    }
  }

  /** Lines 24-28: a[i] := a[i] ^ b[i] for every index of a, a missing b[i] counting as 0.
      The same array may be passed twice, which clears it. */
  method Ixor(a: array<Bit>, b: array<Bit>)
    modifies a
    ensures a[..] == XorRows(old(a[..]), old(b[..]))
  {
    var i := 0;
    while i < a.Length
      invariant 0 <= i <= a.Length
      invariant forall k :: 0 <= k < i ==> a[k] == Xor(old(a[k]), At(old(b[..]), k))
      invariant forall k :: i <= k < a.Length ==> a[k] == old(a[k])
      invariant forall k :: i <= k < b.Length ==> b[k] == old(b[k])
    {
      a[i] := Xor(a[i], if i < b.Length then b[i] else 0);
      i := i + 1;
    }
  }

  /** Lines 46-50: every row k other than t with a 1 in column j is XOR-ed with row t. */
  method EliminateColumn(matrix: array<array<Bit>>, t: int, j: int)
    requires 0 <= t < matrix.Length && DistinctRows(matrix)
    modifies matrix[..]
    ensures Rows(matrix) == Eliminate(old(Rows(matrix)), t, j)
    ensures RowObjects(matrix) == old(RowObjects(matrix))
  {
    ghost var m1 := Rows(matrix);
    var rows := matrix.Length;
    var k := 0;
    while k < rows
      invariant 0 <= k <= rows
      invariant forall l :: 0 <= l < rows ==>
        matrix[l][..] == if l < k then Eliminate(m1, t, j)[l] else m1[l]
    {
      if k != t && 0 <= j < matrix[k].Length && matrix[k][j] == 1 {
        Ixor(matrix[k], matrix[t]);
      }
      k := k + 1;
    }
  }

  /** Lines 53-55: rows i and t change places. */
  method SwapRows(matrix: array<array<Bit>>, i: int, t: int)
    requires 0 <= i < matrix.Length && 0 <= t < matrix.Length && DistinctRows(matrix)
    modifies matrix
    ensures Rows(matrix) == Swap(old(Rows(matrix)), i, t)
    ensures DistinctRows(matrix)
    ensures multiset(RowObjects(matrix)) == multiset(old(RowObjects(matrix)))
  {
    ghost var before := matrix[..];
    matrix[i], matrix[t] := matrix[t], matrix[i];
    assert matrix[..] == before[i := before[t]][t := before[i]];
    assert forall k :: 0 <= k < matrix.Length ==>
      matrix[k] == before[if k == i then t else if k == t then i else k];
  }

  /** Lines 37-41: the row from i on whose leading 1 is leftmost (the first one on a tie)
      and its lead column, or None when no row from i on holds a 1 in [0, cols). */
  method FindPivot(matrix: array<array<Bit>>, i: int, cols: int) returns (target: Option<nat>, j: int)
    requires 0 <= i <= matrix.Length
    ensures target.None? <==> forall k :: i <= k < matrix.Length ==> !(0 <= Lead(Rows(matrix)[k]) < cols)
    ensures target.Some? ==> i <= target.value < matrix.Length && j == Lead(Rows(matrix)[target.value])
    ensures target.Some? ==> 0 <= j < cols
    ensures target.Some? ==> forall k :: i <= k < matrix.Length && 0 <= Lead(Rows(matrix)[k]) < cols ==>
      j <= Lead(Rows(matrix)[k])
    ensures target.Some? ==> forall k :: i <= k < target.value ==> Lead(Rows(matrix)[k]) != j
  {
    var pivots := seq(matrix.Length - i, l requires 0 <= l < matrix.Length - i reads matrix, matrix[..] =>
      Lead(matrix[i + l][..]));
    ghost var R := Rows(matrix);
    assert forall l :: 0 <= l < |pivots| ==> pivots[l] == Lead(R[i + l]);
    var found := Argmin(pivots, cols);
    if found.None? {
      target, j := None, -1;
      NoPivotLeft(R, i, cols, pivots);
    } else {
      target, j := Some(found.value + i), pivots[found.value];
      FirstLeastPivot(R, i, cols, pivots, found.value);
    }
  }

  /** No lead of the rows from i on lies below cols when none of their leads does. */
  lemma NoPivotLeft(R: seq<seq<Bit>>, i: int, cols: int, pivots: seq<int>)
    requires 0 <= i <= |R| && |pivots| == |R| - i
    requires forall l :: 0 <= l < |pivots| ==> pivots[l] == Lead(R[i + l])
    requires forall l :: 0 <= l < |pivots| ==> !(0 <= pivots[l] < cols)
    ensures forall k :: i <= k < |R| ==> !(0 <= Lead(R[k]) < cols)
  {
    forall k | i <= k < |R| ensures !(0 <= Lead(R[k]) < cols) {
      assert pivots[k - i] == Lead(R[k]);
    }
  }

  /** The first least lead among the rows from i on, read back as a row index. */
  lemma FirstLeastPivot(R: seq<seq<Bit>>, i: int, cols: int, pivots: seq<int>, f: int)
    requires 0 <= i <= |R| && |pivots| == |R| - i && 0 <= f < |pivots|
    requires forall l :: 0 <= l < |pivots| ==> pivots[l] == Lead(R[i + l])
    requires 0 <= pivots[f] < cols
    requires forall l :: 0 <= l < |pivots| && 0 <= pivots[l] < cols ==> pivots[f] <= pivots[l]
    requires forall l :: 0 <= l < f && 0 <= pivots[l] ==> pivots[l] > pivots[f]
    ensures forall k :: i <= k < |R| && 0 <= Lead(R[k]) < cols ==> pivots[f] <= Lead(R[k])
    ensures forall k :: i <= k < f + i ==> Lead(R[k]) != pivots[f]
  {
    forall k | i <= k < |R| && 0 <= Lead(R[k]) < cols ensures pivots[f] <= Lead(R[k]) {
      assert pivots[k - i] == Lead(R[k]);
    }
    forall k | i <= k < f + i ensures Lead(R[k]) != pivots[f] {
      assert pivots[k - i] == Lead(R[k]);
    }
  }

  /** Lines 45-55: row t clears its lead column j from every other row and moves to
      place i. */
  method PlacePivot(matrix: array<array<Bit>>, i: int, t: int, j: int)
    requires 0 <= i <= t < matrix.Length && DistinctRows(matrix)
    modifies matrix, matrix[..]
    ensures Rows(matrix) == Swap(Eliminate(old(Rows(matrix)), t, j), i, t)
    ensures DistinctRows(matrix)
    ensures multiset(RowObjects(matrix)) == multiset(old(RowObjects(matrix)))
  {
    EliminateColumn(matrix, t, j);
    SwapRows(matrix, i, t);
  }

  /** Lines 37-55, one pass of the outer loop of rowReduce. When no row from i on holds a
      1 the pass reports that the matrix is already reduced. */
  method ReducePass(matrix: array<array<Bit>>, i: int, cols: int, ghost m0: seq<seq<Bit>>)
    returns (done: bool)
    requires 0 <= i < matrix.Length && DistinctRows(matrix)
    requires Rectangular(Rows(matrix), cols) && Reduced(Rows(matrix), i)
    requires NullEquiv(Rows(matrix), m0)
    modifies matrix, matrix[..]
    ensures DistinctRows(matrix)
    ensures multiset(RowObjects(matrix)) == multiset(old(RowObjects(matrix)))
    ensures Rectangular(Rows(matrix), cols) && NullEquiv(Rows(matrix), m0)
    ensures done ==> IsRref(Rows(matrix))
    ensures !done ==> Reduced(Rows(matrix), i + 1)
  {
    ghost var cur := Rows(matrix);
    var target, j := FindPivot(matrix, i, cols);
    assert Rows(matrix) == cur;
    if target.None? {
      NoLeadInRange(cur, i, cols);
      ReducedIsRref(cur, i);
      return true;
    }
    var t := target.value;
    PassStep(cur, m0, i, t, cols);
    PlacePivot(matrix, i, t, j);
    done := false;
  }

  /** Lines 31-57: Gaussian elimination over GF(2) in place. The rows are XOR-ed and
      swapped only, so the null space is kept, and the result is in reduced echelon form. */
  method RowReduce(matrix: array<array<Bit>>)
    requires matrix.Length >= 1
    requires DistinctRows(matrix)
    requires Rectangular(Rows(matrix), matrix[0].Length)
    modifies matrix, matrix[..]
    ensures IsRref(Rows(matrix))
    ensures NullEquiv(Rows(matrix), old(Rows(matrix)))
    ensures Rectangular(Rows(matrix), old(matrix[0].Length))
    ensures DistinctRows(matrix)
    ensures multiset(RowObjects(matrix)) == multiset(old(RowObjects(matrix)))
  {
    var cols := matrix[0].Length;
    var rows := matrix.Length;
    ghost var m0 := Rows(matrix);
    ghost var objs := RowObjects(matrix);
    ReducedStart(m0);
    var i := 0;
    while i < rows
      invariant 0 <= i <= rows && Rectangular(Rows(matrix), cols)
      invariant ReduceInv(matrix, i, m0, objs)
    {
      forall k | 0 <= k < rows ensures matrix[k] in objs {
        assert matrix[k] in multiset(RowObjects(matrix));
      }
      var done := ReducePass(matrix, i, cols, m0);
      if done {
        return;
      }
      i := i + 1;
    }
    ReducedIsRref(Rows(matrix), rows);
  }

  /** The invariant of rowReduce's outer loop: the first i rows are reduced, the rows are
      the original row objects and the null space is the original one. */
  ghost predicate ReduceInv(matrix: array<array<Bit>>, i: int, m0: seq<seq<Bit>>,
                            objs: seq<array<Bit>>)
    reads matrix, matrix[..]
  {
    DistinctRows(matrix) && multiset(RowObjects(matrix)) == multiset(objs) &&
    Reduced(Rows(matrix), i) && NullEquiv(Rows(matrix), m0)
  }

  /** Lines 60-81: the k-th null-space basis vector of mat, read off as in the source: the
      k-th column that holds no pivot, then the pivot column of every row with a 1 there.
      NullVecKills states what the vector is worth on a reduced matrix. */
  method NullSpace(mat: array<array<Bit>>, k: int) returns (output: seq<int>)
    requires mat.Length >= 1 && IsRref(Rows(mat))
    ensures output == NullVec(Rows(mat), k, mat[0].Length)
  {
    var m := seq(mat.Length, i reads mat, mat[..] requires 0 <= i < mat.Length => mat[i][..]);
    assert m == Rows(mat);
    var pivots := Pivots(m);
    var j := FreeColumn(pivots, k, mat[0].Length);
    output := HitPivots(mat, m, pivots, j);
  }

  /** Lines 64-71: the first column at which more than k non-pivot columns have been seen,
      or the row length. */
  method FreeColumn(pivots: seq<int>, k: int, cols: int) returns (j: int)
    requires cols >= 0
    ensures j == FirstFree(pivots, k, 0, cols)
  {
    j := 0;
    var count := 0;
    while j < cols
      invariant 0 <= j <= cols
      invariant count == FreeBelow(pivots, j)
      invariant FirstFree(pivots, k, j, cols) == FirstFree(pivots, k, 0, cols)
    {
      if j !in pivots {
        count := count + 1;
      }
      if count > k {
        break;
      }
      j := j + 1;
    }
  }

  /** Lines 73-80: column j followed by the pivot of every row with a 1 in column j. On a
      reduced matrix every such row has a pivot, so `pivots[i]` is always defined. */
  method HitPivots(mat: array<array<Bit>>, ghost m: seq<seq<Bit>>, pivots: seq<int>, j: int)
    returns (output: seq<int>)
    requires m == Rows(mat) && IsRref(m) && pivots == Pivots(m)
    ensures output == [j] + Hits(m, pivots, j, |m|)
  {
    output := [j];
    var i := 0;
    while i < mat.Length
      invariant 0 <= i <= mat.Length
      invariant output == [j] + Hits(m, pivots, j, i)
    {
      assert m[i] == mat[i][..];
      if 0 <= j < mat[i].Length && mat[i][j] == 1 {
        HitRowIsPivot(m, i, j);
        output := output + [pivots[i]];
      }
      i := i + 1;
    }
  }

  /** The rows of a matrix as fresh, pairwise distinct row arrays: the array-of-arrays
      form in which the source keeps the pruned matrix that computeMatrix returns. */
  method ToArrays(m: seq<seq<Bit>>) returns (a: array<array<Bit>>)
    ensures fresh(a) && (forall i :: 0 <= i < a.Length ==> fresh(a[i]))
    ensures Rows(a) == m && DistinctRows(a)
  {
    var empty := new Bit[0];
    a := new array<Bit>[|m|](_ => empty);
    for i := 0 to |m|
      invariant forall l :: 0 <= l < i ==> fresh(a[l]) && a[l][..] == m[l]
      invariant forall l, l' :: 0 <= l < l' < i ==> a[l] != a[l']
    {
      var row := new Bit[|m[i]|](j requires 0 <= j < |m[i]| => m[i][j]);
      a[i] := row;
    }
  }
}
