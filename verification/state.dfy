/** The covariance container: one dense covariance plus the ordered list of
    active variables whose blocks it holds. */
module FilterState {
  import opened Matrix
  import opened Layout

  datatype State = State(cov: Mat, vars: seq<Var>)

  /** The invariant every operation keeps: the covariance is square, the
      active variables tile it in list order (each one starts where the
      previous one ends, the first at 0, the last ending at the dimension),
      and no variable is listed twice. `InBounds` follows from the tiling
      (`TiledShape`) and is listed so that block bounds are at hand. */
  predicate Wf(st: State)
  {
    && Square(st.cov, |st.cov|)
    && Tiled(st.vars, |st.cov|)
    && InBounds(st.vars, |st.cov|)
    && DistinctHandles(st.vars)
  }

  /** Appending a new variable at the end of a grown covariance keeps the
      invariant. */
  lemma AppendKeepsWf(st: State, c: Var, cov: Mat)
    requires Wf(st) && c.handle !in Handles(st.vars)
    requires c.id == |st.cov| && c.size > 0 && Square(cov, |st.cov| + c.size)
    ensures Wf(State(cov, st.vars + [c]))
  {
    var vs := st.vars;
    var ext := vs + [c];
    assert ext[..|vs|] == vs;
    OffsetInPrefix(ext, |vs|);
    OffsetAll(vs);
    OffsetStep(ext, |vs|);
    OffsetAll(ext);
    TiledShape(ext, |cov|);
    forall i, j | 0 <= i < j < |ext|
      ensures ext[i].handle != ext[j].handle
    {
      if j == |vs| {
        assert Handles(vs)[i] == vs[i].handle;
      }
    }
  }
}
