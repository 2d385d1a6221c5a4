/** Adding a new variable to the filter: the isotropic-noise check shared by
    `initialize` and `initialize_invertible`, and the covariance augmentation.
    The numbers themselves (the Givens rotations, `M_a`, `P_LL`, the
    Mahalanobis distance and the chi-squared quantile) are computed outside
    the model and passed in. */
module Initializer {
  import opened Results
  import opened Matrix
  import opened Layout
  import opened FilterState
  import opened Accessors
  import opened Marginalizer

  //--------------------------------------------------------------------------
  // The noise check
  //--------------------------------------------------------------------------

  /** Entry `(r, c)` of a noise matrix passes: diagonal entries equal the
      first one, off-diagonal entries are zero. */
  predicate EntryOk(R: Mat, n: nat, r: nat, c: nat)
    requires Square(R, n) && n > 0 && r < n && c < n
  {
    if r == c then R[r][c] == R[0][0] else R[r][c] == 0.0
  }

  /** `(r1, c1)` comes before `(r2, c2)` in row-major order. */
  predicate Before(r1: nat, c1: nat, r2: nat, c2: nat)
  {
    r1 < r2 || (r1 == r2 && c1 < c2)
  }

  /** Every entry before `(r, c)` in row-major order passes. */
  predicate PassedBefore(R: Mat, n: nat, r: nat, c: nat)
    requires Square(R, n) && n > 0
  {
    forall r', c' :: 0 <= r' < n && 0 <= c' < n && Before(r', c', r, c) ==> EntryOk(R, n, r', c')
  }

  /** The first failing entry at or after `(r, c)` in row-major order. */
  function ScanFrom(R: Mat, n: nat, r: nat, c: nat): (v: Option<(nat, nat)>)
    requires Square(R, n) && n > 0 && r <= n && c <= n
    ensures v.None? ==>
              forall r', c' :: 0 <= r' < n && 0 <= c' < n && !Before(r', c', r, c) ==> EntryOk(R, n, r', c')
    ensures v.Some? ==>
              && v.value.0 < n && v.value.1 < n
              && !Before(v.value.0, v.value.1, r, c)
              && !EntryOk(R, n, v.value.0, v.value.1)
              && forall r', c' :: 0 <= r' < n && 0 <= c' < n && !Before(r', c', r, c) && Before(r', c', v.value.0, v.value.1) ==>
                   EntryOk(R, n, r', c')
    decreases n - r, n - c
  {
    if r == n then None
    else if c == n then ScanFrom(R, n, r + 1, 0)
    else if !EntryOk(R, n, r, c) then Some((r, c))
    else ScanFrom(R, n, r, c + 1)
  }

  /** The verdict of the noise check on an Eigen matrix with `|R|` rows and
      `cols` columns: not square, empty, or the first entry (row by row) that
      breaks isotropy. */
  function NoiseVerdict(R: Mat, cols: nat): (o: Outcome)
    requires Rect(R, |R|, cols)
    ensures |R| != cols ==> o == Fail(NoiseNotSquare)
    ensures |R| == cols == 0 ==> o == Fail(NoiseEmpty)
    ensures o.Pass? <==> |R| == cols && |R| > 0 && R == ScaledIdentity(|R|, R[0][0])
    ensures o.Fail? && o.error.NoiseNotIsotropic? ==>
              var (r, c) := (o.error.row, o.error.col);
              && r == c && c < |R| == cols
              && R[r][c] != R[0][0] && PassedBefore(R, |R|, r, c)
    ensures o.Fail? && o.error.NoiseNotDiagonal? ==>
              var (r, c) := (o.error.row, o.error.col);
              && r != c && r < |R| == cols && c < |R|
              && R[r][c] != 0.0 && PassedBefore(R, |R|, r, c)
  {
    var n := |R|;
    if n != cols then Fail(NoiseNotSquare)
    else if n == 0 then Fail(NoiseEmpty)
    else
      match ScanFrom(R, n, 0, 0)
      case None =>
        IsotropicByEntries(R, n);
        Pass
      case Some((r, c)) =>
        IsotropicByEntries(R, n);
        if r == c then Fail(NoiseNotIsotropic(r, c)) else Fail(NoiseNotDiagonal(r, c))
  }

  /** A noise matrix is a multiple of the identity exactly when all its
      entries pass. */
  lemma IsotropicByEntries(R: Mat, n: nat)
    requires Square(R, n) && n > 0
    ensures (forall r, c :: 0 <= r < n && 0 <= c < n ==> EntryOk(R, n, r, c)) <==> R == ScaledIdentity(n, R[0][0])
  {
    var I := ScaledIdentity(n, R[0][0]);
    if forall r, c :: 0 <= r < n && 0 <= c < n ==> EntryOk(R, n, r, c) {
      forall r, c | 0 <= r < n && 0 <= c < n
        ensures R[r][c] == I[r][c]
      {
        assert EntryOk(R, n, r, c);
      }
      SameEntries(R, I, n);
    }
  }

  /** The two nested loops of the noise check, stopping at the first failing
      entry; the verdict is that of `NoiseVerdict`. */
  method CheckNoise(R: Mat, cols: nat) returns (o: Outcome)
    requires Rect(R, |R|, cols)
    ensures o == NoiseVerdict(R, cols)
  {
    if |R| != cols {
      return Fail(NoiseNotSquare);
    }
    if |R| == 0 {
      return Fail(NoiseEmpty);
    }
    var n := |R|;
    var r := 0;
    while r < n
      invariant 0 <= r <= n
      invariant ScanFrom(R, n, 0, 0) == ScanFrom(R, n, r, 0)
    {
      var c := 0;
      while c < n
        invariant 0 <= c <= n
        invariant ScanFrom(R, n, 0, 0) == ScanFrom(R, n, r, c)
      {
        if r == c && R[0][0] != R[r][c] {
          return Fail(NoiseNotIsotropic(r, c));
        } else if r != c && R[r][c] != 0.0 {
          return Fail(NoiseNotDiagonal(r, c));
        }
        c := c + 1;
      }
      r := r + 1;
    }
    return Pass;
  }

  /** The leading block of an isotropic noise matrix is isotropic. */
  lemma TopLeftOfIsotropic(R: Mat, k: nat)
    requires Rect(R, |R|, |R|) && NoiseVerdict(R, |R|) == Pass && 0 < k <= |R|
    ensures Rect(TopLeft(R, k), k, k) && NoiseVerdict(TopLeft(R, k), k) == Pass
  {
    var T := TopLeft(R, k);
    assert T[0][0] == R[0][0];
    SameEntries(T, ScaledIdentity(k, R[0][0]), k);
  }

  //--------------------------------------------------------------------------
  // Augmenting the covariance
  //--------------------------------------------------------------------------

  /** The covariance grown by `k` rows and columns: the new upper cross block
      is `C` (`-M_a H_L^-T`), the new lower cross block its transpose, and the
      new diagonal block `D` (`P_LL`). Nothing old changes. */
  function AppendBlock(P: Mat, C: Mat, D: Mat, k: nat): (r: Mat)
    requires Square(P, |P|) && Rect(C, |P|, k) && Square(D, k)
    ensures Square(r, |P| + k)
    ensures forall g, h :: 0 <= g < |P| && 0 <= h < |P| ==> r[g][h] == P[g][h]
    ensures forall g, y :: 0 <= g < |P| && 0 <= y < k ==> r[g][|P| + y] == C[g][y] && r[|P| + y][g] == C[g][y]
    ensures forall x, y :: 0 <= x < k && 0 <= y < k ==> r[|P| + x][|P| + y] == D[x][y]
  {
    var n := |P|;
    seq(n + k, g requires 0 <= g < n + k =>
      seq(n + k, h requires 0 <= h < n + k =>
        if g < n && h < n then P[g][h]
        else if g < n then C[g][h - n]
        else if h < n then C[h][g - n]
        else D[g - n][h - n]))
  }

  /** With a symmetric new block, augmenting keeps the covariance symmetric. */
  lemma AppendBlockSymmetric(P: Mat, C: Mat, D: Mat, k: nat)
    requires Symmetric(P) && Rect(C, |P|, k) && Symmetric(D) && |D| == k
    ensures Symmetric(AppendBlock(P, C, D, k))
  {
  }

  /** Removing the appended block gives back the covariance it was added to. */
  lemma RemoveAppendedBlock(P: Mat, C: Mat, D: Mat, k: nat)
    requires Square(P, |P|) && Rect(C, |P|, k) && Square(D, k)
    ensures RemoveBlock(AppendBlock(P, C, D, k), |P|, k) == P
  {
    SameEntries(RemoveBlock(AppendBlock(P, C, D, k), |P|, k), P, |P|);
  }

  //--------------------------------------------------------------------------
  // initialize_invertible
  //--------------------------------------------------------------------------

  /** Row and column counts of the measurement system handed to the
      initializers: `H_R` (Jacobian in the existing variables), `H_L`
      (Jacobian in the new variable) and the residual `res`. */
  datatype Dims = Dims(hrRows: nat, hrCols: nat, hlRows: nat, hlCols: nat, resRows: nat)

  /** `initialize_invertible`: appends the new variable `v` at the end of the
      covariance, with cross covariance `cross` and covariance `pLL` computed
      from an invertible system. Fails when `v` is already active, when the
      noise `R` is not isotropic, or when the system's dimensions disagree. */
  function InitializeInvertible(st: State, v: Var, hOrder: seq<Var>, R: Mat, rCols: nat, dims: Dims, cross: Mat, pLL: Mat): (r: Result<State>)
    requires Wf(st) && v.size > 0 && InBounds(hOrder, |st.cov|)
    requires Rect(R, |R|, rCols) && Rect(cross, |st.cov|, v.size) && Square(pLL, v.size)
    ensures v.handle in Handles(st.vars) ==> r == Err(AlreadyInState)
    ensures v.handle !in Handles(st.vars) && NoiseVerdict(R, rCols).Fail? ==> r == Err(NoiseVerdict(R, rCols).error)
    ensures r.Ok? <==>
              && v.handle !in Handles(st.vars)
              && NoiseVerdict(R, rCols).Pass?
              && dims.resRows == |R| == dims.hlRows == dims.hrRows
              && dims.hrCols == SumSizes(hOrder)
              && dims.hlRows == dims.hlCols == v.size
    ensures r.Ok? ==>
              && Wf(r.value)
              && r.value.vars == st.vars + [v.(id := |st.cov|)]
              && r.value.cov == AppendBlock(st.cov, cross, pLL, v.size)
  {
    if v.handle in Handles(st.vars) then Err(AlreadyInState)
    else if NoiseVerdict(R, rCols).Fail? then Err(NoiseVerdict(R, rCols).error)
    else if !(dims.resRows == |R| && dims.hlRows == dims.resRows && dims.hlRows == dims.hrRows) then Err(DimensionMismatch)
    else if dims.hrCols != SumSizes(hOrder) then Err(DimensionMismatch)
    else if !(dims.hlRows == dims.hlCols && dims.hlRows == v.size) then Err(DimensionMismatch)
    else
      var nv := v.(id := |st.cov|);
      var cov := AppendBlock(st.cov, cross, pLL, v.size);
      AppendKeepsWf(st, nv, cov);
      Ok(State(cov, st.vars + [nv]))
  }

  /** Marginalizing a freshly initialized variable gives back the filter it
      was added to. */
  lemma MarginalizeUndoesInitialize(st: State, v: Var, hOrder: seq<Var>, R: Mat, rCols: nat, dims: Dims, cross: Mat, pLL: Mat)
    requires Wf(st) && v.size > 0 && InBounds(hOrder, |st.cov|)
    requires Rect(R, |R|, rCols) && Rect(cross, |st.cov|, v.size) && Square(pLL, v.size)
    requires InitializeInvertible(st, v, hOrder, R, rCols, dims, cross, pLL).Ok?
    ensures Marginalize(InitializeInvertible(st, v, hOrder, R, rCols, dims, cross, pLL).value, v.handle)
              == Ok(Marginalized(st, v.(id := -1)))
  {
    var s := InitializeInvertible(st, v, hOrder, R, rCols, dims, cross, pLL).value;
    var vs := st.vars;
    assert Handles(s.vars)[|vs|] == v.handle;
    var m := Find(s.vars, v.handle).value;
    assert m == |vs|;
    RemoveAppendedBlock(st.cov, cross, pLL, v.size);
    var out := Marginalize(s, v.handle).value.state;
    assert out.vars == vs;
  }

  //--------------------------------------------------------------------------
  // initialize
  //--------------------------------------------------------------------------

  /** What `initialize` reports: the measurement failed the chi-squared gate,
      or the variable was added, with `updateRows` rows of the separated
      system left for an ordinary update. */
  datatype Admission = Rejected | Admitted(state: State, updateRows: nat)

  /** `initialize`: after the same checks as `initialize_invertible`, the
      rotated system is split into a `v.size`-row invertible part and an
      update part. The Givens sweep reads rows of `res` and `H_R` as deep as
      `H_L`'s last row, and the update part's residual must match its noise
      block, so those row counts are checked too. The update part's Mahalanobis distance `chi2` is gated
      against `mult` times the 95% chi-squared quantile `chi2Check`, and a
      passing measurement initializes `v` from the invertible part. */
  function Initialize(st: State, v: Var, hOrder: seq<Var>, R: Mat, rCols: nat, dims: Dims,
                      chi2: real, mult: real, chi2Check: real, cross: Mat, pLL: Mat): (r: Result<Admission>)
    requires Wf(st) && v.size > 0 && InBounds(hOrder, |st.cov|)
    requires Rect(R, |R|, rCols) && Rect(cross, |st.cov|, v.size) && Square(pLL, v.size)
    ensures v.handle in Handles(st.vars) ==> r == Err(AlreadyInState)
    ensures v.handle !in Handles(st.vars) && NoiseVerdict(R, rCols).Fail? ==> r == Err(NoiseVerdict(R, rCols).error)
    ensures r.Ok? <==>
              && v.handle !in Handles(st.vars)
              && NoiseVerdict(R, rCols).Pass?
              && dims.hlCols == v.size
              && v.size <= dims.hlRows && v.size <= dims.hrRows && v.size <= dims.resRows && v.size <= |R|
              && |R| == dims.hrRows == dims.resRows
              && (dims.hlRows < 2 || (dims.hlRows <= dims.resRows && dims.hlRows <= dims.hrRows))
              && dims.hrCols == SumSizes(hOrder)
    ensures r.Ok? && chi2 > mult * chi2Check ==> r.value == Rejected
    ensures r.Ok? && chi2 <= mult * chi2Check ==>
              && r.value.Admitted?
              && r.value.updateRows == dims.hrRows - v.size
              && v.size <= |R|
              && InitializeInvertible(st, v, hOrder, TopLeft(R, v.size), v.size,
                                      Dims(v.size, dims.hrCols, v.size, v.size, v.size), cross, pLL)
                   == Ok(r.value.state)
  {
    if v.handle in Handles(st.vars) then Err(AlreadyInState)
    else if NoiseVerdict(R, rCols).Fail? then Err(NoiseVerdict(R, rCols).error)
    else if dims.hlCols != v.size then Err(DimensionMismatch)
    else if !(v.size <= dims.hlRows && v.size <= dims.hrRows && v.size <= dims.resRows && v.size <= |R|) then Err(DimensionMismatch)
    else if !(dims.hlRows < 2 || (dims.hlRows <= dims.resRows && dims.hlRows <= dims.hrRows)) then Err(DimensionMismatch)
    else if |R| - v.size != dims.hrRows - v.size then Err(DimensionMismatch)
    else if dims.resRows - v.size != dims.hrRows - v.size then Err(DimensionMismatch)
    else if dims.hrCols != SumSizes(hOrder) then Err(DimensionMismatch)
    else if chi2 > mult * chi2Check then Ok(Rejected)
    else
      TopLeftOfIsotropic(R, v.size);
      var inner := InitializeInvertible(st, v, hOrder, TopLeft(R, v.size), v.size,
                                        Dims(v.size, dims.hrCols, v.size, v.size, v.size), cross, pLL);
      Ok(Admitted(inner.value, dims.hrRows - v.size))
  }

  /** A residual whose length differs from the noise's, or an `H_L` of two
      or more rows taller than the residual or `H_R`, is never admitted:
      once the duplicate and noise checks pass it is a dimension error. */
  lemma InitializeChecksRows(st: State, v: Var, hOrder: seq<Var>, R: Mat, rCols: nat, dims: Dims,
                             chi2: real, mult: real, chi2Check: real, cross: Mat, pLL: Mat)
    requires Wf(st) && v.size > 0 && InBounds(hOrder, |st.cov|)
    requires Rect(R, |R|, rCols) && Rect(cross, |st.cov|, v.size) && Square(pLL, v.size)
    requires dims.resRows != |R| || (dims.hlRows >= 2 && (dims.hlRows > dims.resRows || dims.hlRows > dims.hrRows))
    ensures Initialize(st, v, hOrder, R, rCols, dims, chi2, mult, chi2Check, cross, pLL).Err?
    ensures v.handle !in Handles(st.vars) && NoiseVerdict(R, rCols).Pass? ==>
              Initialize(st, v, hOrder, R, rCols, dims, chi2, mult, chi2Check, cross, pLL) == Err(DimensionMismatch)
  {
  }
}
