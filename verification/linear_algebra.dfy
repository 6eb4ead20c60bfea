/** The dense matrix helpers of the fit: transpose, matrix and matrix-vector
    products, and the Gauss-Jordan solver for the normal equations. Matrices
    are lists of rows. */
module LinearAlgebra {
  import opened Optional

  type Matrix = seq<seq<real>>

  /** `matrix.first?.count ?? 0`. */
  function Cols(m: Matrix): nat
  {
    if |m| == 0 then 0 else |m[0]|
  }

  /** Every row has the length of the first. */
  predicate Rectangular(m: Matrix)
  {
    forall i :: 0 <= i < |m| ==> |m[i]| == Cols(m)
  }

  /** `sum_{k < n} u[k] * v[k]`, accumulated from `k = 0` up as the loops do. */
  function Dot(u: seq<real>, v: seq<real>, n: nat): real
    requires n <= |u| && n <= |v|
  {
    if n == 0 then 0.0 else Dot(u, v, n - 1) + u[n - 1] * v[n - 1]
  }

  /** Column `j` of the first `n` rows. */
  function Column(m: Matrix, j: nat, n: nat): (c: seq<real>)
    requires n <= |m| && forall k :: 0 <= k < n ==> j < |m[k]|
    ensures |c| == n
  {
    seq(n, k requires 0 <= k < n => m[k][j])
  }

  /** Reference transpose: row `j` of the result is column `j` of `m`. */
  function TransposeOf(m: Matrix): (t: Matrix)
    requires Rectangular(m)
    ensures |t| == Cols(m)
    ensures forall j :: 0 <= j < |t| ==> |t[j]| == |m|
  {
    seq(Cols(m), j requires 0 <= j < Cols(m) => Column(m, j, |m|))
  }

  /** `transpose`: dimensions swap and `t[j][i] == m[i][j]`. Rows past the
      first must be at least as long as the first (otherwise the read traps). */
  method Transpose(m: Matrix) returns (t: Matrix)
    requires forall i :: 0 <= i < |m| ==> |m[i]| >= Cols(m)
    ensures |t| == Cols(m)
    ensures forall j :: 0 <= j < |t| ==> |t[j]| == |m|
    ensures forall i, j :: 0 <= i < |m| && 0 <= j < |t| ==> t[j][i] == m[i][j]
  {
    var rows, cols := |m|, Cols(m);
    t := seq(cols, _ => seq(rows, _ => 0.0));
    for i := 0 to rows
      invariant |t| == cols && forall j :: 0 <= j < cols ==> |t[j]| == rows
      invariant forall i', j :: 0 <= i' < i && 0 <= j < cols ==> t[j][i'] == m[i'][j]
    {
      for j := 0 to cols
        invariant |t| == cols && forall j' :: 0 <= j' < cols ==> |t[j']| == rows
        invariant forall i', j' :: 0 <= i' < i && 0 <= j' < cols ==> t[j'][i'] == m[i'][j']
        invariant forall j' :: 0 <= j' < j ==> t[j'][i] == m[i][j']
      {
        t := t[j := t[j][i := m[i][j]]];
      }
    }
  }

  /** Transposing a rectangular matrix with at least one column twice gives
      it back. */
  lemma TransposeInvolution(m: Matrix)
    requires Rectangular(m) && Cols(m) > 0
    ensures Rectangular(TransposeOf(m))
    ensures TransposeOf(TransposeOf(m)) == m
  {
    var t := TransposeOf(m);
    var tt := TransposeOf(t);
    assert Cols(t) == |m|;
    assert |tt| == |m|;
    forall i | 0 <= i < |m|
      ensures tt[i] == m[i]
    {
      assert |tt[i]| == |m[i]|;
      forall j | 0 <= j < |m[i]|
        ensures tt[i][j] == m[i][j]
      {
        assert tt[i][j] == t[j][i];
      }
    }
  }

  /** `matrixMultiply`: entry `(i, j)` is `sum_k a[i][k] * b[k][j]` over the
      columns of `a`'s first row. Nothing of `b` is read when its first row is
      empty. */
  method MatrixMultiply(a: Matrix, b: Matrix) returns (c: Matrix)
    requires |a| > 0 && Cols(b) > 0 ==>
      (forall i :: 0 <= i < |a| ==> |a[i]| >= Cols(a))
      && |b| >= Cols(a) && forall k :: 0 <= k < Cols(a) ==> |b[k]| >= Cols(b)
    ensures |c| == |a|
    ensures forall i :: 0 <= i < |c| ==> |c[i]| == Cols(b)
    ensures forall i, j :: 0 <= i < |c| && 0 <= j < Cols(b) ==>
      c[i][j] == Dot(a[i], Column(b, j, Cols(a)), Cols(a))
  {
    var rowsA, colsA, colsB := |a|, Cols(a), Cols(b);
    c := seq(rowsA, _ => seq(colsB, _ => 0.0));
    for i := 0 to rowsA
      invariant |c| == rowsA && forall i' :: 0 <= i' < rowsA ==> |c[i']| == colsB
      invariant forall i', j :: 0 <= i' < i && 0 <= j < colsB ==> c[i'][j] == Dot(a[i'], Column(b, j, colsA), colsA)
    {
      for j := 0 to colsB
        invariant |c| == rowsA && forall i' :: 0 <= i' < rowsA ==> |c[i']| == colsB
        invariant forall i', j' :: 0 <= i' < i && 0 <= j' < colsB ==> c[i'][j'] == Dot(a[i'], Column(b, j', colsA), colsA)
        invariant forall j' :: 0 <= j' < j ==> c[i][j'] == Dot(a[i], Column(b, j', colsA), colsA)
      {
        ghost var col := Column(b, j, colsA);
        var acc := 0.0;
        for k := 0 to colsA
          invariant acc == Dot(a[i], col, k)
        {
          acc := acc + a[i][k] * b[k][j];
        }
        c := c[i := c[i][j := acc]];
      }
    }
  }

  /** The Gram matrix `A^T A` of the normal equations is symmetric. */
  lemma GramSymmetric(a: Matrix, i: nat, j: nat)
    requires Rectangular(a) && i < Cols(a) && j < Cols(a)
    ensures Dot(TransposeOf(a)[i], Column(a, j, |a|), |a|) == Dot(TransposeOf(a)[j], Column(a, i, |a|), |a|)
  {
    DotColumns(a, i, j, |a|);
  }

  lemma {:induction false} DotColumns(a: Matrix, i: nat, j: nat, n: nat)
    requires Rectangular(a) && i < Cols(a) && j < Cols(a) && n <= |a|
    ensures Dot(Column(a, i, |a|), Column(a, j, |a|), n) == Dot(Column(a, j, |a|), Column(a, i, |a|), n)
  {
    if n > 0 {
      DotColumns(a, i, j, n - 1);
    }
  }

  /** `matrixVectorMultiply`: one entry per row, `sum_j a[i][j] * v[j]` over
      the columns of the first row. */
  method MatrixVectorMultiply(a: Matrix, v: seq<real>) returns (y: seq<real>)
    requires |a| > 0 ==> (forall i :: 0 <= i < |a| ==> |a[i]| >= Cols(a)) && |v| >= Cols(a)
    ensures |y| == |a|
    ensures forall i :: 0 <= i < |y| ==> y[i] == Dot(a[i], v, Cols(a))
  {
    var rows, cols := |a|, Cols(a);
    y := seq(rows, _ => 0.0);
    for i := 0 to rows
      invariant |y| == rows
      invariant forall i' :: 0 <= i' < i ==> y[i'] == Dot(a[i'], v, cols)
    {
      var acc := 0.0;
      for j := 0 to cols
        invariant acc == Dot(a[i], v, j)
      {
        acc := acc + a[i][j] * v[j];
      }
      y := y[i := acc];
    }
  }

  // ---- Gauss-Jordan elimination ----

  /** `a x == b`, row by row. */
  predicate Solves(a: Matrix, b: seq<real>, x: seq<real>)
    requires Rectangular(a) && |b| == |a| && |x| == Cols(a)
  {
    forall r :: 0 <= r < |a| ==> Dot(a[r], x, |x|) == b[r]
  }

  /** An `n x (n+1)` augmented matrix. */
  predicate Augmented(aug: Matrix, n: nat)
  {
    |aug| == n && forall r :: 0 <= r < n ==> |aug[r]| == n + 1
  }

  /** `x` satisfies every row of the augmented system. */
  predicate Sat(aug: Matrix, n: nat, x: seq<real>)
    requires Augmented(aug, n) && |x| == n
  {
    forall r :: 0 <= r < n ==> Dot(aug[r], x, n) == aug[r][n]
  }

  /** The first `i` columns are those of the identity. */
  predicate UnitColumns(aug: Matrix, n: nat, i: nat)
    requires Augmented(aug, n) && i <= n
  {
    forall r, c :: 0 <= r < n && 0 <= c < i ==> aug[r][c] == (if r == c then 1.0 else 0.0)
  }

  /** Divide the entries from column `i` on by the pivot (the first j loop). */
  function ScaleTail(u: seq<real>, i: nat, p: real): (w: seq<real>)
    requires p != 0.0
    ensures |w| == |u|
  {
    seq(|u|, c requires 0 <= c < |u| => if c >= i then u[c] / p else u[c])
  }

  /** Subtract `f` times the pivot row from column `i` on (the second j loop). */
  function EliminateTail(u: seq<real>, w: seq<real>, i: nat, f: real): (e: seq<real>)
    requires |w| == |u|
    ensures |e| == |u|
  {
    seq(|u|, c requires 0 <= c < |u| => if c >= i then u[c] - f * w[c] else u[c])
  }

  lemma {:induction false} DotAppend(u: seq<real>, extra: seq<real>, v: seq<real>, n: nat)
    requires n <= |u| && n <= |v|
    ensures Dot(u + extra, v, n) == Dot(u, v, n)
  {
    if n > 0 {
      DotAppend(u, extra, v, n - 1);
    }
  }

  /** Adding one term to a sum that was scaled by `p`. */
  lemma MulStep(total: real, ds: real, ts: real, orig: real, d: real, t: real, p: real)
    requires total == ds + ts && orig == d + t
    requires ds * p == d && ts * p == t
    ensures total * p == orig
  {
  }

  /** One term of a dot product, multiplied back by the pivot. */
  lemma TermMul(x: real, y: real, w: real, p: real)
    requires x * p == y
    ensures x * w * p == y * w
  {
  }

  /** A row whose entries times `p` give `u` has dot product times `p`
      equal to `u`'s. */
  lemma {:induction false} DotMul(a: seq<real>, u: seq<real>, v: seq<real>, n: nat, p: real)
    requires n <= |a| && n <= |u| && n <= |v|
    requires forall c :: 0 <= c < n ==> a[c] * p == u[c]
    ensures Dot(a, v, n) * p == Dot(u, v, n)
  {
    if n > 0 {
      DotMul(a, u, v, n - 1, p);
      TermMul(a[n - 1], u[n - 1], v[n - 1], p);
      MulStep(Dot(a, v, n), Dot(a, v, n - 1), a[n - 1] * v[n - 1], Dot(u, v, n), Dot(u, v, n - 1), u[n - 1] * v[n - 1], p);
    }
  }

  /** Each entry of the scaled row, times the pivot, is the original entry. */
  lemma ScaleTailMul(u: seq<real>, i: nat, p: real)
    requires p != 0.0
    requires forall c :: 0 <= c < i && c < |u| ==> u[c] == 0.0
    ensures forall c :: 0 <= c < |u| ==> ScaleTail(u, i, p)[c] * p == u[c]
  {
    var s := ScaleTail(u, i, p);
    forall c | 0 <= c < |u|
      ensures s[c] * p == u[c]
    {
      if c >= i {
        assert s[c] == u[c] / p;
      }
    }
  }

  /** Eliminating with a pivot row that is zero before column `i` is a
      whole-row operation. */
  lemma DotEliminateTail(u: seq<real>, w: seq<real>, i: nat, f: real, v: seq<real>, n: nat)
    requires |w| == |u| && n <= |u| && n <= |v|
    requires forall c :: 0 <= c < i && c < |w| ==> w[c] == 0.0
    ensures Dot(EliminateTail(u, w, i, f), v, n) == Dot(u, v, n) - f * Dot(w, v, n)
  {
    EliminateIsCombine(u, w, i, f);
    DotCombine(u, w, f, v, n);
  }

  /** `u - f * w`, entry by entry. */
  function Combine(u: seq<real>, w: seq<real>, f: real): (e: seq<real>)
    requires |w| == |u|
    ensures |e| == |u|
  {
    seq(|u|, c requires 0 <= c < |u| => u[c] - f * w[c])
  }

  /** With the pivot row zero before column `i`, skipping those columns
      changes nothing. */
  lemma EliminateIsCombine(u: seq<real>, w: seq<real>, i: nat, f: real)
    requires |w| == |u|
    requires forall c :: 0 <= c < i && c < |w| ==> w[c] == 0.0
    ensures EliminateTail(u, w, i, f) == Combine(u, w, f)
  {
    forall c | 0 <= c < |u|
      ensures EliminateTail(u, w, i, f)[c] == Combine(u, w, f)[c]
    {
      if c < i {
        assert w[c] == 0.0;
      }
    }
  }

  /** The dot product is linear in the row. */
  lemma {:induction false} DotCombine(u: seq<real>, w: seq<real>, f: real, v: seq<real>, n: nat)
    requires |w| == |u| && n <= |u| && n <= |v|
    ensures Dot(Combine(u, w, f), v, n) == Dot(u, v, n) - f * Dot(w, v, n)
  {
    if n > 0 {
      var e := Combine(u, w, f);
      DotCombine(u, w, f, v, n - 1);
      ElimTerm(e[n - 1], u[n - 1], w[n - 1], v[n - 1], f);
    }
  }

  /** One entry of an eliminated row times `v[c]`. */
  lemma ElimTerm(e: real, u: real, w: real, v: real, f: real)
    requires e == u - f * w
    ensures e * v == u * v - f * (w * v)
  {
  }

  /** A row equal to the unit vector `e_r` picks out `v[r]`. */
  lemma {:induction false} DotUnit(u: seq<real>, r: nat, v: seq<real>, n: nat)
    requires n <= |u| && n <= |v|
    requires forall c :: 0 <= c < n ==> u[c] == (if c == r then 1.0 else 0.0)
    ensures Dot(u, v, n) == (if r < n then v[r] else 0.0)
  {
    if n > 0 {
      DotUnit(u, r, v, n - 1);
    }
  }

  /** Scaling the pivot row keeps the solution set, and makes the pivot 1. */
  lemma ScalePreservesSolutions(aug: Matrix, n: nat, i: nat, p: real)
    requires Augmented(aug, n) && i < n && p != 0.0 && aug[i][i] == p
    requires UnitColumns(aug, n, i)
    ensures Augmented(aug[i := ScaleTail(aug[i], i, p)], n)
    ensures UnitColumns(aug[i := ScaleTail(aug[i], i, p)], n, i)
    ensures aug[i := ScaleTail(aug[i], i, p)][i][i] == 1.0
    ensures forall v :: |v| == n ==> (Sat(aug[i := ScaleTail(aug[i], i, p)], n, v) <==> Sat(aug, n, v))
  {
    var next := aug[i := ScaleTail(aug[i], i, p)];
    forall v | |v| == n
      ensures Sat(next, n, v) <==> Sat(aug, n, v)
    {
      ScaledSat(aug, n, i, p, v);
    }
  }

  /** Dividing both sides of row `i` by its pivot keeps the row's solutions. */
  lemma ScaledSat(aug: Matrix, n: nat, i: nat, p: real, v: seq<real>)
    requires Augmented(aug, n) && i < n && p != 0.0 && UnitColumns(aug, n, i) && |v| == n
    ensures Augmented(aug[i := ScaleTail(aug[i], i, p)], n)
    ensures Sat(aug[i := ScaleTail(aug[i], i, p)], n, v) <==> Sat(aug, n, v)
  {
    var next := aug[i := ScaleTail(aug[i], i, p)];
    assert forall c :: 0 <= c < i ==> aug[i][c] == 0.0;
    ScaleTailMul(aug[i], i, p);
    DotMul(next[i], aug[i], v, n, p);
    MulEq(Dot(next[i], v, n), next[i][n], Dot(aug[i], v, n), aug[i][n], p);
    assert forall r :: 0 <= r < n && r != i ==> next[r] == aug[r];
  }

  /** Multiplying both sides by a non-zero pivot keeps an equation. */
  lemma MulEq(a: real, b: real, c: real, d: real, p: real)
    requires p != 0.0 && a * p == c && b * p == d
    ensures a == b <==> c == d
  {
    if c == d {
      assert (a - b) * p == 0.0;
    }
  }

  /** Eliminating one row against a different pivot row keeps the solution
      set. */
  lemma EliminatePreservesSolutions(aug: Matrix, n: nat, i: nat, k: nat, f: real)
    requires Augmented(aug, n) && i < n && k < n && k != i
    requires forall c :: 0 <= c < i ==> aug[i][c] == 0.0
    ensures Augmented(aug[k := EliminateTail(aug[k], aug[i], i, f)], n)
    ensures forall v :: |v| == n ==> (Sat(aug[k := EliminateTail(aug[k], aug[i], i, f)], n, v) <==> Sat(aug, n, v))
  {
    var next := aug[k := EliminateTail(aug[k], aug[i], i, f)];
    forall v | |v| == n
      ensures Sat(next, n, v) <==> Sat(aug, n, v)
    {
      DotEliminateTail(aug[k], aug[i], i, f, v, n);
      assert next[k][n] == aug[k][n] - f * aug[i][n];
      assert next[i] == aug[i];
      assert forall r :: 0 <= r < n && r != k ==> next[r] == aug[r];
    }
  }

  /** The augmented matrix `[a | b]` has the solutions of `a x == b`. */
  lemma AugmentKeepsSolutions(a: Matrix, b: seq<real>, aug: Matrix)
    requires Rectangular(a) && Cols(a) == |a| && |b| == |a|
    requires aug == seq(|a|, r requires 0 <= r < |a| => a[r] + [b[r]])
    ensures Augmented(aug, |a|)
    ensures forall v :: |v| == |a| ==> (Sat(aug, |a|, v) <==> Solves(a, b, v))
  {
    var n := |a|;
    forall v | |v| == n
      ensures Sat(aug, n, v) <==> Solves(a, b, v)
    {
      forall r | 0 <= r < n
        ensures Dot(aug[r], v, n) == Dot(a[r], v, n) && aug[r][n] == b[r]
      {
        DotAppend(a[r], [b[r]], v, n);
      }
    }
  }

  /** Once every column is a unit column the last column is the only
      solution. */
  lemma ReducedSolution(aug: Matrix, n: nat, sol: seq<real>)
    requires Augmented(aug, n) && UnitColumns(aug, n, n)
    requires sol == seq(n, r requires 0 <= r < n => aug[r][n])
    ensures forall v :: |v| == n ==> (Sat(aug, n, v) <==> v == sol)
  {
    forall v | |v| == n
      ensures Sat(aug, n, v) <==> v == sol
    {
      forall r | 0 <= r < n
        ensures Dot(aug[r], v, n) == v[r]
      {
        DotUnit(aug[r], r, v, n);
      }
    }
  }

  /** Column `i` cleared in the rows before `k` other than the pivot row, in
      the order the loop over `k` visits them; each row is combined with the
      pivot row, its own entry in column `i` being the factor. */
  function ClearRows(m: Matrix, n: nat, i: nat, k: nat): (r: Matrix)
    requires Augmented(m, n) && i < n && k <= n
    ensures Augmented(r, n) && r[i] == m[i]
  {
    if k == 0 then
      m
    else
      var prev := ClearRows(m, n, i, k - 1);
      if k - 1 == i then prev
      else prev[k - 1 := EliminateTail(prev[k - 1], prev[i], i, prev[k - 1][i])]
  }

  /** The system once the first `i` pivot columns have been processed, or
      `None` when one of their pivots was exactly zero. */
  function ReducedThrough(aug: Matrix, n: nat, i: nat): (r: Option<Matrix>)
    requires Augmented(aug, n) && i <= n
    ensures r.Some? ==> Augmented(r.value, n)
  {
    if i == 0 then
      Some(aug)
    else
      match ReducedThrough(aug, n, i - 1)
      case None => None
      case Some(cur) =>
        var p := cur[i - 1][i - 1];
        if p == 0.0 then None
        else Some(ClearRows(cur[i - 1 := ScaleTail(cur[i - 1], i - 1, p)], n, i - 1, n))
  }

  /** Step `i` of the elimination is reached and finds a zero pivot. */
  predicate ZeroPivotAt(aug: Matrix, n: nat, i: nat)
    requires Augmented(aug, n) && i < n
  {
    ReducedThrough(aug, n, i).Some? && ReducedThrough(aug, n, i).value[i][i] == 0.0
  }

  /** The first `i` pivots the reduction meets are all non-zero. */
  predicate PivotsNonZero(aug: Matrix, n: nat, i: nat)
    requires Augmented(aug, n) && i <= n
  {
    forall j :: 0 <= j < i ==> !ZeroPivotAt(aug, n, j)
  }

  /** One more column: a non-zero pivot extends the reduction by scaling its
      row and clearing the column elsewhere. */
  lemma ReduceStep(aug: Matrix, n: nat, i: nat, cur: Matrix)
    requires Augmented(aug, n) && i < n
    requires ReducedThrough(aug, n, i) == Some(cur)
    requires cur[i][i] != 0.0
    requires PivotsNonZero(aug, n, i)
    ensures PivotsNonZero(aug, n, i + 1)
    ensures ReducedThrough(aug, n, i + 1) == Some(ClearRows(cur[i := ScaleTail(cur[i], i, cur[i][i])], n, i, n))
  {
  }

  /** Once a step has given up, every later step has too. */
  lemma {:induction false} StaysNone(aug: Matrix, n: nat, i: nat, j: nat)
    requires Augmented(aug, n) && i <= j <= n
    requires ReducedThrough(aug, n, i) == None
    ensures ReducedThrough(aug, n, j) == None
    decreases j - i
  {
    if i < j {
      StaysNone(aug, n, i + 1, j);
    }
  }

  /** One pass of the elimination loop over `k` for pivot column `i`, whose
      pivot is already 1: every other row gets a zero in column `i`. */
  method EliminateColumn(aug: Matrix, n: nat, i: nat) returns (out: Matrix)
    requires Augmented(aug, n) && i < n
    requires UnitColumns(aug, n, i) && aug[i][i] == 1.0
    ensures out == ClearRows(aug, n, i, n)
    ensures Augmented(out, n)
    ensures UnitColumns(out, n, i + 1)
    ensures forall v :: |v| == n ==> (Sat(out, n, v) <==> Sat(aug, n, v))
  {
    out := aug;
    for k := 0 to n
      invariant out == ClearRows(aug, n, i, k)
      invariant Augmented(out, n)
      invariant out[i] == aug[i]
      invariant forall r :: k <= r < n ==> out[r] == aug[r]
      invariant forall r :: 0 <= r < k && r != i ==> out[r][i] == 0.0
      invariant UnitColumns(out, n, i)
      invariant forall v :: |v| == n ==> (Sat(out, n, v) <==> Sat(aug, n, v))
    {
      ClearStep(aug, n, i, k, out);
      if k != i {
        var factor := out[k][i];
        EliminatePreservesSolutions(out, n, i, k, factor);
        out := out[k := EliminateTail(out[k], out[i], i, factor)];
      }
    }
  }

  /** One row of `EliminateColumn`: clearing row `k` zeroes its entry in
      column `i`, keeps the unit columns before `i` and leaves the later rows
      alone. */
  lemma ClearStep(aug: Matrix, n: nat, i: nat, k: nat, out: Matrix)
    requires Augmented(aug, n) && i < n && k < n
    requires UnitColumns(aug, n, i) && aug[i][i] == 1.0
    requires out == ClearRows(aug, n, i, k)
    requires forall r :: k <= r < n ==> out[r] == aug[r]
    requires forall r :: 0 <= r < k && r != i ==> out[r][i] == 0.0
    requires UnitColumns(out, n, i)
    ensures ClearRows(aug, n, i, k + 1)
            == if k == i then out else out[k := EliminateTail(out[k], out[i], i, out[k][i])]
    ensures var next := ClearRows(aug, n, i, k + 1);
            && (forall r :: k + 1 <= r < n ==> next[r] == aug[r])
            && (forall r :: 0 <= r < k + 1 && r != i ==> next[r][i] == 0.0)
            && UnitColumns(next, n, i)
  {
  }

  /** The outer elimination loop: for each column, divide the pivot row by
      its pivot and clear the column elsewhere; give up on a zero pivot. It
      gives up exactly when some step meets a zero pivot, and otherwise
      leaves the identity beside the solution. */
  method Reduce(aug: Matrix, n: nat) returns (res: Option<Matrix>)
    requires Augmented(aug, n)
    ensures res == ReducedThrough(aug, n, n)
    ensures res.None? <==> exists i :: 0 <= i < n && ZeroPivotAt(aug, n, i)
    ensures n > 0 && aug[0][0] == 0.0 ==> res == None
    ensures res.Some? ==> Augmented(res.value, n) && UnitColumns(res.value, n, n)
    ensures res.Some? ==> forall v :: |v| == n ==> (Sat(res.value, n, v) <==> Sat(aug, n, v))
  {
    var cur := aug;
    for i := 0 to n
      invariant ReducedThrough(aug, n, i) == Some(cur)
      invariant PivotsNonZero(aug, n, i)
      invariant Augmented(cur, n)
      invariant UnitColumns(cur, n, i)
      invariant forall v :: |v| == n ==> (Sat(cur, n, v) <==> Sat(aug, n, v))
      invariant i == 0 ==> cur == aug
      invariant i > 0 ==> aug[0][0] != 0.0
    {
      var pivot := cur[i][i];
      if pivot == 0.0 {
        assert ZeroPivotAt(aug, n, i);
        StaysNone(aug, n, i + 1, n);
        return None;
      }
      ScalePreservesSolutions(cur, n, i, pivot);
      ReduceStep(aug, n, i, cur);
      cur := cur[i := ScaleTail(cur[i], i, pivot)];
      cur := EliminateColumn(cur, n, i);
    }
    assert UnitColumns(cur, n, n);
    return Some(cur);
  }

  /** `[a | b]`: each row of `a` with the matching entry of `b` appended. */
  function Augment(a: Matrix, b: seq<real>): (aug: Matrix)
    requires |b| == |a|
    ensures Rectangular(a) && Cols(a) == |a| ==> Augmented(aug, |a|)
  {
    seq(|a|, r requires 0 <= r < |a| => a[r] + [b[r]])
  }

  /** `solveLeastSquares`: Gauss-Jordan elimination without row exchanges.
      It gives up (`None`) exactly when `a` is not square with as many rows
      as `b` has entries, or when some step meets a diagonal pivot that is
      exactly zero. A returned vector solves `a x == b`, and is the only
      solution. */
  method SolveLeastSquares(a: Matrix, b: seq<real>) returns (x: Option<seq<real>>)
    requires Rectangular(a)
    ensures x.None? <==>
      (!(|a| > 0 && Cols(a) == |a| && |b| == |a|)
       || exists i :: 0 <= i < |a| && ZeroPivotAt(Augment(a, b), |a|, i))
    ensures !(|a| > 0 && Cols(a) == |a| && |b| == |a|) ==> x == None
    ensures |a| > 0 && Cols(a) == |a| && |b| == |a| && a[0][0] == 0.0 ==> x == None
    ensures x.Some? ==> |a| > 0 && Cols(a) == |a| && |b| == |a| && |x.value| == |a|
    ensures x.Some? ==> Solves(a, b, x.value)
    ensures x.Some? ==> forall v :: |v| == |a| && Solves(a, b, v) ==> v == x.value
  {
    if !(|a| > 0 && Cols(a) == |a| && |b| == |a|) {
      return None;
    }
    var n := |a|;
    var aug := Augment(a, b);
    AugmentKeepsSolutions(a, b, aug);
    assert aug[0][0] == a[0][0];
    var reduced := Reduce(aug, n);
    if reduced.None? {
      return None;
    }
    var sol := seq(n, r requires 0 <= r < n => reduced.value[r][n]);
    ReducedSolution(reduced.value, n, sol);
    assert Sat(reduced.value, n, sol);
    return Some(sol);
  }

  /** The row-exchange matrix `[[0, 1], [1, 0]]` is invertible: every right
      side has exactly one solution. Its first pivot is zero, so the solver
      returns `None` for it (`ZeroPivotAt` holds at step 0). */
  lemma SwapSystemSolvable(b0: real, b1: real)
    ensures Rectangular([[0.0, 1.0], [1.0, 0.0]])
    ensures Solves([[0.0, 1.0], [1.0, 0.0]], [b0, b1], [b1, b0])
    ensures forall v :: |v| == 2 && Solves([[0.0, 1.0], [1.0, 0.0]], [b0, b1], v) ==> v == [b1, b0]
  {
    var a := [[0.0, 1.0], [1.0, 0.0]];
    var x := [b1, b0];
    assert Dot(a[0], x, 1) == 0.0;
    assert Dot(a[0], x, 2) == Dot(a[0], x, 1) + 1.0 * b0;
    assert Dot(a[1], x, 1) == b1;
    assert Dot(a[1], x, 2) == Dot(a[1], x, 1) + 0.0 * b0;
    forall v | |v| == 2 && Solves(a, [b0, b1], v)
      ensures v == [b1, b0]
    {
      assert Dot(a[0], v, 1) == 0.0;
      assert Dot(a[1], v, 1) == v[0];
      assert Dot(a[0], v, 2) == v[1];
      assert Dot(a[1], v, 2) == v[0];
      assert v == [v[0], v[1]];
    }
  }
}
