/** Stochastic cloning: `clone` copies a variable (or a component of one) to
    the end of the covariance, and `augment_clone` uses it to add the current
    pose to the sliding window. */
module Cloner {
  import opened Results
  import opened Matrix
  import opened Layout
  import opened FilterState
  import opened Accessors
  import opened Marginalizer

  //--------------------------------------------------------------------------
  // The covariance
  //--------------------------------------------------------------------------

  /** Row (or column) of the old covariance that row `g` of the grown one
      copies: the old rows stay, the `k` new ones copy the source block at `o`. */
  function Source(g: nat, n: nat, o: nat): nat
  {
    if g < n then g else o + (g - n)
  }

  /** The covariance grown by a copy of the `k` rows and columns at `o`: the
      new diagonal block is the source's, and the new cross blocks are the
      source's rows and columns. Nothing old changes. */
  function AppendCopy(P: Mat, o: nat, k: nat): (r: Mat)
    requires Square(P, |P|) && o + k <= |P|
    ensures Square(r, |P| + k)
    ensures forall g, h :: 0 <= g < |P| && 0 <= h < |P| ==> r[g][h] == P[g][h]
    ensures forall g, h :: 0 <= g < |P| && o <= h < o + k ==> r[g][|P| + (h - o)] == P[g][h]
    ensures forall g, h :: o <= g < o + k && 0 <= h < |P| ==> r[|P| + (g - o)][h] == P[g][h]
    ensures forall g, h :: o <= g < o + k && o <= h < o + k ==> r[|P| + (g - o)][|P| + (h - o)] == P[g][h]
  {
    var r := Copied(P, o, k);
    CopiedBlocks(P, o, k);
    r
  }

  /** Every entry of the grown covariance, read through `Source`. */
  function Copied(P: Mat, o: nat, k: nat): (r: Mat)
    requires Square(P, |P|) && o + k <= |P|
    ensures Square(r, |P| + k)
    ensures forall g, h :: 0 <= g < |P| + k && 0 <= h < |P| + k ==> r[g][h] == P[Source(g, |P|, o)][Source(h, |P|, o)]
  {
    var n := |P|;
    seq(n + k, g requires 0 <= g < n + k =>
      seq(n + k, h requires 0 <= h < n + k => P[Source(g, n, o)][Source(h, n, o)]))
  }

  /** The same entries, block by block. */
  lemma CopiedBlocks(P: Mat, o: nat, k: nat)
    requires Square(P, |P|) && o + k <= |P|
    ensures forall g, h :: 0 <= g < |P| && 0 <= h < |P| ==> Copied(P, o, k)[g][h] == P[g][h]
    ensures forall g, h :: 0 <= g < |P| && o <= h < o + k ==> Copied(P, o, k)[g][|P| + (h - o)] == P[g][h]
    ensures forall g, h :: o <= g < o + k && 0 <= h < |P| ==> Copied(P, o, k)[|P| + (g - o)][h] == P[g][h]
    ensures forall g, h :: o <= g < o + k && o <= h < o + k ==> Copied(P, o, k)[|P| + (g - o)][|P| + (h - o)] == P[g][h]
  {
  }

  /** Cloning keeps a symmetric covariance symmetric. */
  lemma AppendCopySymmetric(P: Mat, o: nat, k: nat)
    requires Symmetric(P) && o + k <= |P|
    ensures Symmetric(AppendCopy(P, o, k))
  {
    var r := AppendCopy(P, o, k);
    var n := |P|;
    forall g, h | 0 <= g < n + k && 0 <= h < n + k
      ensures r[g][h] == r[h][g]
    {
      assert P[Source(g, n, o)][Source(h, n, o)] == P[Source(h, n, o)][Source(g, n, o)];
    }
  }

  /** The grown covariance is the joint covariance of all variables followed
      by the cloned block: the clone is perfectly correlated with its source. */
  lemma AppendCopyIsMarginal(P: Mat, vs: seq<Var>, src: Var)
    requires Square(P, |P|) && Tiled(vs, |P|) && 0 <= src.id && src.id + src.size <= |P|
    ensures InBounds(vs + [src], |P|)
    ensures AppendCopy(P, src.id, src.size) == GetMarginalCovariance(P, vs + [src])
  {
    var n := |P|;
    var ext := vs + [src];
    TiledShape(vs, n);
    assert ext[..|vs|] == vs;
    OffsetAll(vs);
    OffsetStep(ext, |vs|);
    OffsetAll(ext);
    var A := AppendCopy(P, src.id, src.size);
    var G := GetMarginalCovariance(P, ext);
    forall a: nat | a < n + src.size
      ensures a < SumSizes(ext) && GlobalIndex(ext, a) == Source(a, n, src.id)
    {
      ExtendedIndex(vs, n, src, a);
    }
    forall g, h | 0 <= g < n + src.size && 0 <= h < n + src.size
      ensures A[g][h] == G[g][h]
    {
      assert G[g][h] == P[Source(g, n, src.id)][Source(h, n, src.id)];
    }
    SameEntries(A, G, n + src.size);
  }

  lemma ExtendedIndex(vs: seq<Var>, n: nat, src: Var, a: nat)
    requires Tiled(vs, n) && 0 <= src.id && a < n + src.size
    ensures a < SumSizes(vs + [src]) && GlobalIndex(vs + [src], a) == Source(a, n, src.id)
  {
    var ext := vs + [src];
    assert ext[..|vs|] == vs;
    OffsetAll(vs);
    OffsetStep(ext, |vs|);
    OffsetAll(ext);
    if a < n {
      var i := BlockOf(vs, a);
      OffsetInPrefix(ext, |vs|);
      BlockOfUnique(ext, i, a);
    } else {
      BlockOfUnique(ext, |vs|, a);
    }
  }

  /** Removing the appended copy gives back the covariance it was made from. */
  lemma RemoveAppendedCopy(P: Mat, o: nat, k: nat)
    requires Square(P, |P|) && o + k <= |P|
    ensures RemoveBlock(AppendCopy(P, o, k), |P|, k) == P
  {
    var r := RemoveBlock(AppendCopy(P, o, k), |P|, k);
    SameEntries(r, P, |P|);
  }

  //--------------------------------------------------------------------------
  // clone
  //--------------------------------------------------------------------------

  /** Variable `parent` of the state answers for `v`: it is `v` itself, or
      its sub-variable lookup (`check_if_subvariable`, supplied as
      `isComponent`) returns `v`. */
  predicate Resolves(parent: Var, v: Var, isComponent: (Handle, Handle) -> bool)
  {
    parent.handle == v.handle || isComponent(parent.handle, v.handle)
  }

  /** What `StateHelper::clone` relies on about the variable to clone: a handle names
      one object, so a listed `v` is the listed variable, and a component
      lies inside its parent's block. */
  predicate CloneSourceSane(st: State, v: Var, isComponent: (Handle, Handle) -> bool)
  {
    && v.size > 0
    && (forall i :: 0 <= i < |st.vars| && st.vars[i].handle == v.handle ==> st.vars[i] == v)
    && (forall i :: 0 <= i < |st.vars| && isComponent(st.vars[i].handle, v.handle) ==>
          st.vars[i].id <= v.id && v.id + v.size <= st.vars[i].id + st.vars[i].size)
  }

  /** The first active variable that answers for `v` (the search loop). */
  function FindSource(vs: seq<Var>, v: Var, isComponent: (Handle, Handle) -> bool): (r: Option<nat>)
    ensures r.None? <==> forall i :: 0 <= i < |vs| ==> !Resolves(vs[i], v, isComponent)
    ensures r.Some? ==> r.value < |vs| && Resolves(vs[r.value], v, isComponent)
  {
    if |vs| == 0 then None
    else if Resolves(vs[0], v, isComponent) then Some(0)
    else
      match FindSource(vs[1..], v, isComponent)
      case None => None
      case Some(i) => Some(i + 1)
  }

  /** The filter after a clone, and the new variable. */
  datatype Cloned = Cloned(state: State, clone: Var)

  /** `clone`: appends a copy of `v` (an active variable or a component of
      one) under the new handle `newHandle`, at the end of the covariance.
      Fails when no active variable answers for `v`. */
  function Clone(st: State, v: Var, isComponent: (Handle, Handle) -> bool, newHandle: Handle): (r: Result<Cloned>)
    requires Wf(st) && CloneSourceSane(st, v, isComponent) && newHandle !in Handles(st.vars)
    ensures r.Err? <==> forall i :: 0 <= i < |st.vars| ==> !Resolves(st.vars[i], v, isComponent)
    ensures r.Err? ==> r.error == CloneSourceMissing
    ensures r.Ok? ==>
              var out := r.value.state;
              && 0 <= v.id && v.id + v.size <= |st.cov|
              && Wf(out)
              && r.value.clone == Var(newHandle, |st.cov|, v.size)
              && out.vars == st.vars + [r.value.clone]
              && out.cov == AppendCopy(st.cov, v.id, v.size)
  {
    match FindSource(st.vars, v, isComponent)
    case None => Err(CloneSourceMissing)
    case Some(k) =>
      var c := Var(newHandle, |st.cov|, v.size);
      CloneKeepsWf(st, v, isComponent, k, c);
      Ok(Cloned(State(AppendCopy(st.cov, v.id, v.size), st.vars + [c]), c))
  }

  lemma CloneKeepsWf(st: State, v: Var, isComponent: (Handle, Handle) -> bool, k: nat, c: Var)
    requires Wf(st) && CloneSourceSane(st, v, isComponent) && c.handle !in Handles(st.vars)
    requires k < |st.vars| && Resolves(st.vars[k], v, isComponent)
    requires c == Var(c.handle, |st.cov|, v.size)
    ensures 0 <= v.id && v.id + v.size <= |st.cov|
    ensures Wf(State(AppendCopy(st.cov, v.id, v.size), st.vars + [c]))
  {
    AppendKeepsWf(st, c, AppendCopy(st.cov, v.id, v.size));
  }

  /** Marginalizing a new clone gives back the filter it was made from. */
  lemma MarginalizeUndoesClone(st: State, v: Var, isComponent: (Handle, Handle) -> bool, newHandle: Handle)
    requires Wf(st) && CloneSourceSane(st, v, isComponent) && newHandle !in Handles(st.vars)
    requires Clone(st, v, isComponent, newHandle).Ok?
    ensures Marginalize(Clone(st, v, isComponent, newHandle).value.state, newHandle)
              == Ok(Marginalized(st, Var(newHandle, -1, v.size)))
  {
    var c := Clone(st, v, isComponent, newHandle).value;
    var vs := st.vars;
    assert Handles(c.state.vars)[|vs|] == newHandle;
    var m := Find(c.state.vars, newHandle).value;
    assert m == |vs|;
    RemoveAppendedCopy(st.cov, v.id, v.size);
    var out := Marginalize(c.state, newHandle).value.state;
    assert out.vars == vs;
  }

  //--------------------------------------------------------------------------
  // augment_clone
  //--------------------------------------------------------------------------

  /** `augment_clone`: clones the current IMU pose and files the clone in the
      window under the current timestamp. Fails when a clone already sits at
      that timestamp, or when the pose cannot be resolved. */
  function AugmentClone(w: Window, timestamp: real, pose: Var, isComponent: (Handle, Handle) -> bool, newHandle: Handle): (r: Result<Window>)
    requires Wf(w.state) && CloneSourceSane(w.state, pose, isComponent) && newHandle !in Handles(w.state.vars)
    ensures timestamp in w.clones ==> r == Err(CloneTimeTaken)
    ensures timestamp !in w.clones ==> (r.Ok? <==> Clone(w.state, pose, isComponent, newHandle).Ok?)
    ensures r.Ok? ==>
              && r.value.clones == w.clones[timestamp := newHandle]
              && |r.value.clones| == |w.clones| + 1
              && r.value.state == Clone(w.state, pose, isComponent, newHandle).value.state
              && Wf(r.value.state)
              && newHandle in Handles(r.value.state.vars)
  {
    if timestamp in w.clones then Err(CloneTimeTaken)
    else
      match Clone(w.state, pose, isComponent, newHandle)
      case Err(e) => Err(e)
      case Ok(c) =>
        assert Handles(c.state.vars)[|w.state.vars|] == newHandle;
        Ok(Window(c.state, w.clones[timestamp := newHandle]))
  }

  /** Once the window is over its size, marginalizing the clone just added
      undoes `augment_clone`. */
  lemma MarginalizeOldCloneUndoesAugment(w: Window, timestamp: real, pose: Var, isComponent: (Handle, Handle) -> bool, newHandle: Handle, maxCloneSize: int)
    requires Wf(w.state) && CloneSourceSane(w.state, pose, isComponent) && newHandle !in Handles(w.state.vars)
    requires AugmentClone(w, timestamp, pose, isComponent, newHandle).Ok?
    requires |w.clones| + 1 > maxCloneSize
    ensures MarginalizeOldClone(AugmentClone(w, timestamp, pose, isComponent, newHandle).value.state,
                                AugmentClone(w, timestamp, pose, isComponent, newHandle).value.clones,
                                maxCloneSize, Some(timestamp))
              == Ok(w)
  {
    var a := AugmentClone(w, timestamp, pose, isComponent, newHandle).value;
    MarginalizeUndoesClone(w.state, pose, isComponent, newHandle);
    assert a.clones[timestamp] == newHandle;
    OldCloneOf(a.state, a.clones, maxCloneSize, timestamp, Marginalized(w.state, Var(newHandle, -1, pose.size)));
    assert a.clones - {timestamp} == w.clones;
  }

  /** `marginalize_old_clone` over its size removes the chosen clone. */
  lemma OldCloneOf(st: State, clones: map<real, Handle>, maxCloneSize: int, t: real, m: Marginalized)
    requires Wf(st) && |clones| > maxCloneSize && t in clones && Marginalize(st, clones[t]) == Ok(m)
    ensures MarginalizeOldClone(st, clones, maxCloneSize, Some(t)) == Ok(Window(m.state, clones - {t}))
  {
  }
}
