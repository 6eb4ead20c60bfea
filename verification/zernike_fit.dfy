/** `analyzePolarData`: normalise the radii, evaluate every Zernike mode at
    every sample, and solve the normal equations for the coefficients. */
module ZernikeFit {
  import opened Numeric
  import opened Optional
  import opened RingMaps
  import opened PolarHeight
  import opened ZernikeBasis
  import opened LinearAlgebra

  /** What the analysis publishes: coefficients, the mode list and the
      per-angle (radius, height) pairs. */
  datatype FitState = FitState(coefficients: seq<real>, modes: seq<Mode>, heights: map<int, seq<(real, real)>>)

  const Cleared := FitState([], [], map[])

  /** `rNorm`: divide by the largest radius when it is positive, otherwise
      leave the radii as they are. */
  function Normalise(r: seq<real>): (rho: seq<real>)
    requires |r| > 0
    ensures |rho| == |r|
  {
    var maxR := SeqMax(r);
    seq(|r|, i requires 0 <= i < |r| => if maxR > 0.0 then r[i] / maxR else r[i])
  }

  /** Every normalised radius lies in the closed unit disc's radial range
      from above, so no basis value is NaN. */
  lemma NormalisedWithinUnit(r: seq<real>)
    requires |r| > 0
    ensures forall i :: 0 <= i < |r| ==> Normalise(r)[i] <= 1.0
    ensures (forall i :: 0 <= i < |r| ==> 0.0 <= r[i]) ==> forall i :: 0 <= i < |r| ==> 0.0 <= Normalise(r)[i]
  {
    var maxR := SeqMax(r);
    forall i | 0 <= i < |r|
      ensures Normalise(r)[i] <= 1.0
      ensures 0.0 <= r[i] ==> 0.0 <= Normalise(r)[i]
    {
      if maxR > 0.0 {
        DivAtMostOne(r[i], maxR);
      }
    }
  }

  /** The design matrix `A[j][i]`: mode `i` at sample `j`. */
  function Design(trig: Trig, modes: seq<Mode>, rho: seq<real>, theta: seq<real>): (a: Matrix)
    requires |theta| >= |rho|
    requires forall j :: 0 <= j < |rho| ==> rho[j] <= 1.0
    ensures |a| == |rho|
    ensures forall j :: 0 <= j < |a| ==> |a[j]| == |modes|
  {
    seq(|rho|, j requires 0 <= j < |rho| =>
      seq(|modes|, i requires 0 <= i < |modes| => ZernikeAt(trig, modes[i].n, modes[i].m, rho[j], theta[j]).x))
  }

  /** The loop filling `A` column by column from `zernikePolynomial`. */
  method BuildDesign(trig: Trig, modes: seq<Mode>, rho: seq<real>, theta: seq<real>) returns (a: Matrix)
    requires |theta| == |rho|
    requires forall j :: 0 <= j < |rho| ==> rho[j] <= 1.0
    requires forall i :: 0 <= i < |modes| ==> ValidMode(modes[i].n, modes[i].m)
    ensures a == Design(trig, modes, rho, theta)
  {
    a := seq(|rho|, _ => seq(|modes|, _ => 0.0));
    for i := 0 to |modes|
      invariant |a| == |rho| && forall j :: 0 <= j < |rho| ==> |a[j]| == |modes|
      invariant forall j, i' :: 0 <= j < |rho| && 0 <= i' < i ==>
        a[j][i'] == ZernikeAt(trig, modes[i'].n, modes[i'].m, rho[j], theta[j]).x
    {
      var col := DesignColumn(trig, modes[i], rho, theta);
      a := SetColumn(a, i, col);
    }
    ghost var d := Design(trig, modes, rho, theta);
    forall j | 0 <= j < |rho|
      ensures a[j] == d[j]
    {
    }
  }

  /** `zernikePolynomial` of one valid mode over samples in the disc: every
      value is a number. */
  method DesignColumn(trig: Trig, md: Mode, rho: seq<real>, theta: seq<real>) returns (col: seq<real>)
    requires |theta| == |rho| && ValidMode(md.n, md.m)
    requires forall j :: 0 <= j < |rho| ==> rho[j] <= 1.0
    ensures |col| == |rho|
    ensures forall j :: 0 <= j < |rho| ==> col[j] == ZernikeAt(trig, md.n, md.m, rho[j], theta[j]).x
  {
    var values := ZernikePolynomial(trig, md.n, md.m, rho, theta);
    col := seq(|rho|, j requires 0 <= j < |rho| => values[j].x);
  }

  /** The inner loop: `A[j][i] = values[j]` for every sample `j`; nothing
      else changes. */
  method SetColumn(a: Matrix, i: nat, col: seq<real>) returns (b: Matrix)
    requires |col| == |a| && forall j :: 0 <= j < |a| ==> i < |a[j]|
    ensures |b| == |a| && forall j :: 0 <= j < |a| ==> |b[j]| == |a[j]|
    ensures forall j :: 0 <= j < |a| ==> b[j][i] == col[j]
    ensures forall j, c :: 0 <= j < |a| && 0 <= c < |a[j]| && c != i ==> b[j][c] == a[j][c]
  {
    b := a;
    for j := 0 to |a|
      invariant |b| == |a| && forall j' :: 0 <= j' < |a| ==> |b[j']| == |a[j']|
      invariant forall j' :: 0 <= j' < j ==> b[j'][i] == col[j']
      invariant forall j', c :: 0 <= j' < |a| && 0 <= c < |a[j']| && (c != i || j' >= j) ==> b[j'][c] == a[j'][c]
    {
      b := b[j := b[j][i := col[j]]];
    }
  }

  /** The Gram matrix `A^T A`. */
  function Gram(a: Matrix): (g: Matrix)
    requires Rectangular(a)
    ensures |g| == Cols(a) && Rectangular(g) && Cols(g) == Cols(a)
  {
    var n := Cols(a);
    seq(n, i requires 0 <= i < n =>
      seq(n, j requires 0 <= j < n => Dot(Column(a, i, |a|), Column(a, j, |a|), |a|)))
  }

  /** `A^T z`. */
  function AtVec(a: Matrix, z: seq<real>): (y: seq<real>)
    requires Rectangular(a) && |z| >= |a|
    ensures |y| == Cols(a)
  {
    seq(Cols(a), i requires 0 <= i < Cols(a) => Dot(Column(a, i, |a|), z, |a|))
  }

  /** `c` satisfies the normal equations `A^T A c == A^T z`, i.e. it is a
      least-squares fit of `z` by the columns of `A`. */
  predicate NormalEquations(a: Matrix, z: seq<real>, c: seq<real>)
    requires Rectangular(a) && |z| >= |a| && |c| == Cols(a)
  {
    Solves(Gram(a), AtVec(a, z), c)
  }

  lemma {:induction false} DotSameEntries(u: seq<real>, u': seq<real>, v: seq<real>, n: nat)
    requires n <= |u| && n <= |u'| && n <= |v|
    requires forall k :: 0 <= k < n ==> u[k] == u'[k]
    ensures Dot(u, v, n) == Dot(u', v, n)
  {
    if n > 0 {
      DotSameEntries(u, u', v, n - 1);
    }
  }

  /** The products the method computes are the Gram matrix and `A^T z`. */
  lemma {:induction false} ProductsAreNormalEquations(a: Matrix, z: seq<real>, at: Matrix, ata: Matrix, atz: seq<real>)
    requires Rectangular(a) && |a| > 0 && |z| >= |a|
    requires |at| == Cols(a) && forall i :: 0 <= i < |at| ==> |at[i]| == |a|
    requires forall r, i :: 0 <= r < |a| && 0 <= i < |at| ==> at[i][r] == a[r][i]
    requires |ata| == |at| && forall i :: 0 <= i < |ata| ==> |ata[i]| == Cols(a)
    requires forall i, j :: 0 <= i < |ata| && 0 <= j < Cols(a) ==> ata[i][j] == Dot(at[i], Column(a, j, Cols(at)), Cols(at))
    requires |atz| == |at| && forall i :: 0 <= i < |atz| ==> atz[i] == Dot(at[i], z, Cols(at))
    ensures ata == Gram(a) && atz == AtVec(a, z)
  {
    var n := Cols(a);
    if n > 0 {
      assert Cols(at) == |a|;
    }
    forall i | 0 <= i < n
      ensures at[i] == Column(a, i, |a|)
    {
    }
    forall i, j | 0 <= i < n && 0 <= j < n
      ensures ata[i][j] == Gram(a)[i][j]
    {
    }
    forall i | 0 <= i < n
      ensures ata[i] == Gram(a)[i]
    {
    }
  }

  /** `coefficients` is the one solution of the normal equations for the
      samples of `m` and the given modes. */
  ghost predicate UniqueFit(trig: Trig, m: RingMap, modes: seq<Mode>, coefficients: seq<real>)
  {
    var pd := ProcessPolarData(m);
    && |pd.r| > 0
    && |coefficients| == |modes|
    && (NormalisedWithinUnit(pd.r);
        var a := Design(trig, modes, Normalise(pd.r), pd.theta);
        && (|a| > 0 ==> Cols(a) == |modes|)
        && Rectangular(a)
        && NormalEquations(a, pd.z, coefficients)
        && forall c :: |c| == |modes| && NormalEquations(a, pd.z, c) ==> c == coefficients)
  }

  /** Gauss-Jordan on the normal equations `A^T A c == A^T z` meets a
      diagonal pivot that is exactly zero at some step, so the solve gives
      up. */
  predicate PivotFails(a: Matrix, z: seq<real>)
    requires Rectangular(a) && |z| >= |a|
  {
    exists i :: 0 <= i < Cols(a) && ZeroPivotAt(Augment(Gram(a), AtVec(a, z)), Cols(a), i)
  }

  /** The solve on the design matrix of the given samples: the design loop,
      transpose, the two products and Gauss-Jordan. It gives up exactly when
      the elimination meets a zero pivot. */
  method FitCoefficients(trig: Trig, modes: seq<Mode>, rho: seq<real>, theta: seq<real>, z: seq<real>)
    returns (sol: Option<seq<real>>)
    requires |rho| > 0 && |theta| == |rho| && |z| == |rho| && |modes| > 0
    requires forall j :: 0 <= j < |rho| ==> rho[j] <= 1.0
    requires forall i :: 0 <= i < |modes| ==> ValidMode(modes[i].n, modes[i].m)
    ensures var a := Design(trig, modes, rho, theta);
      && Rectangular(a) && Cols(a) == |modes|
      && (sol.None? <==> PivotFails(a, z))
      && (sol.Some? ==> |sol.value| == |modes| && NormalEquations(a, z, sol.value))
      && (sol.Some? ==> forall c :: |c| == |modes| && NormalEquations(a, z, c) ==> c == sol.value)
  {
    var a := BuildDesign(trig, modes, rho, theta);
    var at := Transpose(a);
    var ata := MatrixMultiply(at, a);
    var atz := MatrixVectorMultiply(at, z);
    ProductsAreNormalEquations(a, z, at, ata, atz);
    sol := SolveLeastSquares(ata, atz);
  }

  /** `analyzePolarData`. With no samples it clears everything. Otherwise it
      publishes the mode list and the height map whether or not the solve
      succeeds. The coefficients are empty exactly when the elimination meets
      a zero pivot; otherwise they are the unique solution of the normal
      equations of the design matrix. */
  method AnalyzePolarData(trig: Trig, m: RingMap, maxOrder: nat) returns (fit: FitState)
    ensures TotalCount(m) == 0 ==> fit == Cleared
    ensures TotalCount(m) > 0 ==> fit.modes == ModeList(maxOrder) && fit.heights == ProcessPolarData(m).heights
    ensures TotalCount(m) > 0 ==> fit.coefficients == [] || |fit.coefficients| == |fit.modes|
    ensures TotalCount(m) > 0 && fit.coefficients != [] ==> UniqueFit(trig, m, fit.modes, fit.coefficients)
    ensures TotalCount(m) > 0 ==>
      var pd := ProcessPolarData(m);
      (NormalisedWithinUnit(pd.r);
       fit.coefficients == [] <==> PivotFails(Design(trig, ModeList(maxOrder), Normalise(pd.r), pd.theta), pd.z))
  {
    var pd := ProcessPolarData(m);
    if |pd.r| == 0 {
      return Cleared;
    }
    var rho := Normalise(pd.r);
    NormalisedWithinUnit(pd.r);
    var modes := ModeList(maxOrder);
    ModeListValid(maxOrder);
    ModeListCount(maxOrder);
    var sol := FitCoefficients(trig, modes, rho, pd.theta, pd.z);
    var coefficients := if sol.Some? then sol.value else [];
    return FitState(coefficients, modes, pd.heights);
  }
}
