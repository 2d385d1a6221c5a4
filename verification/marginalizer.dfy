/** Removing variables from the filter: `marginalize` and the two policies
    built on it, `marginalize_old_clone` and `marginalize_slam`. */
module Marginalizer {
  import opened Results
  import opened Matrix
  import opened Layout
  import opened FilterState
  import opened Accessors

  //--------------------------------------------------------------------------
  // The covariance
  //--------------------------------------------------------------------------

  /** The covariance after deleting the `k` rows and columns starting at `m`:
      the blocks before (`x_1`) and after (`x_2`) the removed one close up.
      The lower cross block is written as the transpose of the upper one, so
      it reads the upper cross block of `P`. */
  function RemoveBlock(P: Mat, m: nat, k: nat): (r: Mat)
    requires Square(P, |P|) && m + k <= |P|
    ensures Square(r, |P| - k)
    ensures forall g, h :: 0 <= g < m && 0 <= h < m ==> r[g][h] == P[g][h]
    ensures forall g, h :: 0 <= g < m && m + k <= h < |P| ==> r[g][h - k] == P[g][h]
    ensures forall g, h :: 0 <= h < m && m + k <= g < |P| ==> r[g - k][h] == P[h][g]
    ensures forall g, h :: m + k <= g < |P| && m + k <= h < |P| ==> r[g - k][h - k] == P[g][h]
  {
    var n := |P|;
    var r := seq(n - k, a requires 0 <= a < n - k =>
               seq(n - k, b requires 0 <= b < n - k => RemovedEntry(P, m, k, a, b)));
    r
  }

  /** Where entry `(a, b)` of the reduced covariance is read from. */
  function RemovedEntry(P: Mat, m: nat, k: nat, a: nat, b: nat): real
    requires Square(P, |P|) && m + k <= |P| && a < |P| - k && b < |P| - k
  {
    if a >= m && b < m then P[b][a + k] else P[Kept(a, m, k)][Kept(b, m, k)]
  }

  /** The row of the old covariance that row `a` of the reduced one keeps. */
  function Kept(a: nat, m: nat, k: nat): nat
  {
    if a < m then a else a + k
  }

  /** Removing a block from a symmetric covariance leaves it symmetric. */
  lemma RemoveBlockSymmetric(P: Mat, m: nat, k: nat)
    requires Symmetric(P) && m + k <= |P|
    ensures Symmetric(RemoveBlock(P, m, k))
  {
    var r := RemoveBlock(P, m, k);
    forall g, h | 0 <= g < |r| && 0 <= h < |r|
      ensures r[g][h] == r[h][g]
    {
      assert P[Kept(g, m, k)][Kept(h, m, k)] == P[Kept(h, m, k)][Kept(g, m, k)];
    }
  }

  //--------------------------------------------------------------------------
  // The variable list
  //--------------------------------------------------------------------------

  /** A surviving variable after the removal of the `margSize` rows at
      `margId`: those placed beyond the removed block move forward. */
  function Shifted(v: Var, margId: int, margSize: nat): Var
  {
    if v.id > margId then v.(id := v.id - margSize) else v
  }

  /** The loop that rebuilds the variable list: every variable except `marg`
      is kept, in order, and shifted. */
  function Survivors(vs: seq<Var>, marg: Handle, margId: int, margSize: nat): (r: seq<Var>)
    ensures forall h :: h in Handles(r) <==> h in Handles(vs) && h != marg
  {
    if |vs| == 0 then []
    else
      var rest := Survivors(vs[1..], marg, margId, margSize);
      assert Handles(vs) == [vs[0].handle] + Handles(vs[1..]);
      if vs[0].handle == marg then rest
      else
        var r := [Shifted(vs[0], margId, margSize)] + rest;
        assert Handles(r) == [vs[0].handle] + Handles(rest);
        r
  }

  /** Without `marg` in the list every variable survives, shifted. */
  lemma {:induction false} SurvivorsAll(vs: seq<Var>, marg: Handle, margId: int, margSize: nat)
    requires forall j :: 0 <= j < |vs| ==> vs[j].handle != marg
    ensures |Survivors(vs, marg, margId, margSize)| == |vs|
    ensures forall i :: 0 <= i < |vs| ==> Survivors(vs, marg, margId, margSize)[i] == Shifted(vs[i], margId, margSize)
  {
    if |vs| > 0 {
      SurvivorsAll(vs[1..], marg, margId, margSize);
    }
  }

  /** With `marg` listed once, at `m`, the survivors are the others in order:
      those before `m` first, then those after it. */
  lemma {:induction false} SurvivorsSkip(vs: seq<Var>, marg: Handle, margId: int, margSize: nat, m: nat)
    requires m < |vs| && vs[m].handle == marg
    requires forall j :: 0 <= j < |vs| && j != m ==> vs[j].handle != marg
    ensures |Survivors(vs, marg, margId, margSize)| == |vs| - 1
    ensures forall i :: 0 <= i < |vs| - 1 ==>
              Survivors(vs, marg, margId, margSize)[i] == Shifted(vs[if i < m then i else i + 1], margId, margSize)
  {
    if m == 0 {
      SurvivorsAll(vs[1..], marg, margId, margSize);
    } else {
      SurvivorsSkip(vs[1..], marg, margId, margSize, m - 1);
    }
  }

  /** Offsets in a list with its `m`-th entry dropped (only sizes matter). */
  lemma OffsetSkip(vs: seq<Var>, ws: seq<Var>, m: nat, i: nat)
    requires m < |vs| && |ws| == |vs| - 1
    requires forall j :: 0 <= j < |ws| ==> ws[j].size == vs[if j < m then j else j + 1].size
    requires i <= |ws|
    ensures i <= m ==> Offset(ws, i) == Offset(vs, i)
    ensures m <= i ==> Offset(ws, i) + vs[m].size == Offset(vs, i + 1)
  {
    var p := if i <= m then i else m;
    SumSizesBySize(ws[..p], vs[..p]);
    if m <= i {
      OffsetStep(vs, m);
      assert ws[..i] == ws[..m] + ws[m..i];
      SumSizesAppend(ws[..m], ws[m..i]);
      assert vs[..i + 1] == vs[..m + 1] + vs[m + 1..i + 1];
      SumSizesAppend(vs[..m + 1], vs[m + 1..i + 1]);
      SumSizesBySize(ws[m..i], vs[m + 1..i + 1]);
    }
  }

  /** Dropping the `m`-th block of a tiling and moving the later blocks
      forward by its size tiles the smaller covariance. */
  lemma TiledAfterRemoval(vs: seq<Var>, ws: seq<Var>, n: nat, m: nat)
    requires Tiled(vs, n) && m < |vs| && |ws| == |vs| - 1
    requires forall i :: 0 <= i < m ==> ws[i] == vs[i]
    requires forall i :: m <= i < |ws| ==> ws[i] == vs[i + 1].(id := vs[i + 1].id - vs[m].size)
    ensures n >= vs[m].size && Tiled(ws, n - vs[m].size)
  {
    forall i | 0 <= i < |ws|
      ensures ws[i].id == Offset(ws, i) && ws[i].size > 0
    {
      OffsetSkip(vs, ws, m, i);
    }
    OffsetSkip(vs, ws, m, |ws|);
    OffsetAll(vs);
    OffsetAll(ws);
  }

  //--------------------------------------------------------------------------
  // marginalize
  //--------------------------------------------------------------------------

  /** The filter after a marginalization, and the removed variable (whose id
      is set to `-1`, `StateHelper`'s mark of an inactive variable). */
  datatype Marginalized = Marginalized(state: State, removed: Var)

  /** `marginalize`: drops the active variable `marg` with its rows and
      columns. Fails when `marg` is not a top-level active variable. The
      variables before it keep their place, those after it move forward by
      its size, and the invariant is kept. */
  function Marginalize(st: State, marg: Handle): (r: Result<Marginalized>)
    requires Wf(st)
    ensures r.Err? <==> marg !in Handles(st.vars)
    ensures r.Err? ==> r.error == NotInState
    ensures r.Ok? ==>
              var m := Find(st.vars, marg).value;
              var v := st.vars[m];
              var out := r.value.state;
              && Wf(out)
              && r.value.removed == v.(id := -1)
              && |out.cov| == |st.cov| - v.size
              && out.cov == RemoveBlock(st.cov, v.id, v.size)
              && |out.vars| == |st.vars| - 1
              && (forall i :: 0 <= i < m ==> out.vars[i] == st.vars[i])
              && (forall i :: m <= i < |out.vars| ==> out.vars[i] == st.vars[i + 1].(id := st.vars[i + 1].id - v.size))
              && (forall h :: h in Handles(out.vars) <==> h in Handles(st.vars) && h != marg)
  {
    match Find(st.vars, marg)
    case None => Err(NotInState)
    case Some(m) =>
      var v := st.vars[m];
      var cov := RemoveBlock(st.cov, v.id, v.size);
      var vars := Survivors(st.vars, marg, v.id, v.size);
      MarginalizeKeepsWf(st, m, vars);
      Ok(Marginalized(State(cov, vars), v.(id := -1)))
  }

  lemma MarginalizeKeepsWf(st: State, m: nat, vars: seq<Var>)
    requires Wf(st) && m < |st.vars|
    requires vars == Survivors(st.vars, st.vars[m].handle, st.vars[m].id, st.vars[m].size)
    ensures |vars| == |st.vars| - 1
    ensures forall i :: 0 <= i < m ==> vars[i] == st.vars[i]
    ensures forall i :: m <= i < |vars| ==> vars[i] == st.vars[i + 1].(id := st.vars[i + 1].id - st.vars[m].size)
    ensures Wf(State(RemoveBlock(st.cov, st.vars[m].id, st.vars[m].size), vars))
  {
    var vs := st.vars;
    var v := vs[m];
    SurvivorsOfTiling(vs, |st.cov|, m, vars);
    TiledAfterRemoval(vs, vars, |st.cov|, m);
    TiledShape(vars, |st.cov| - v.size);
    forall i, j | 0 <= i < j < |vars|
      ensures vars[i].handle != vars[j].handle
    {
      var i' := if i < m then i else i + 1;
      var j' := if j < m then j else j + 1;
      assert vars[i].handle == vs[i'].handle && vars[j].handle == vs[j'].handle;
    }
  }

  /** In a tiling with distinct handles, the survivors of the `m`-th block's
      removal are the blocks before it unchanged and those after it moved
      forward. */
  lemma SurvivorsOfTiling(vs: seq<Var>, n: nat, m: nat, vars: seq<Var>)
    requires Tiled(vs, n) && DistinctHandles(vs) && m < |vs|
    requires vars == Survivors(vs, vs[m].handle, vs[m].id, vs[m].size)
    ensures |vars| == |vs| - 1
    ensures forall i :: 0 <= i < m ==> vars[i] == vs[i]
    ensures forall i :: m <= i < |vars| ==> vars[i] == vs[i + 1].(id := vs[i + 1].id - vs[m].size)
  {
    var v := vs[m];
    TiledShape(vs, n);
    forall j | 0 <= j < |vs| && j != m
      ensures vs[j].handle != v.handle
    {
      if j < m {
        assert vs[j].handle != vs[m].handle;
      } else {
        assert vs[m].handle != vs[j].handle;
      }
    }
    SurvivorsSkip(vs, v.handle, v.id, v.size, m);
    forall i | 0 <= i < m
      ensures vars[i] == vs[i]
    {
      assert vs[i].id < v.id;
    }
    forall i | m <= i < |vars|
      ensures vars[i] == vs[i + 1].(id := vs[i + 1].id - v.size)
    {
      assert v.id < vs[i + 1].id;
    }
  }

  /** The covariance left by `marginalize` is the joint covariance of the
      remaining variables: removing a block is gathering the others. */
  lemma MarginalizeIsMarginal(st: State, m: nat)
    requires Wf(st) && Symmetric(st.cov) && m < |st.vars|
    ensures InBounds(st.vars[..m] + st.vars[m + 1..], |st.cov|)
    ensures RemoveBlock(st.cov, st.vars[m].id, st.vars[m].size)
              == GetMarginalCovariance(st.cov, st.vars[..m] + st.vars[m + 1..])
  {
    var vs := st.vars;
    var P := st.cov;
    var v := vs[m];
    var rest := vs[..m] + vs[m + 1..];
    assert forall j :: 0 <= j < |rest| ==> rest[j] == vs[if j < m then j else j + 1];
    var R := RemoveBlock(P, v.id, v.size);
    var G := GetMarginalCovariance(P, rest);
    RestShape(vs, |P|, m, rest);
    forall a: nat | a < |R|
      ensures a < SumSizes(rest) && GlobalIndex(rest, a) == Kept(a, v.id, v.size)
    {
      RestIndex(vs, |P|, m, a);
    }
    forall a, b | 0 <= a < |R| && 0 <= b < |R|
      ensures R[a][b] == G[a][b]
    {
      assert G[a][b] == P[Kept(a, v.id, v.size)][Kept(b, v.id, v.size)];
      assert R[a][b] == RemovedEntry(P, v.id, v.size, a, b);
    }
    SameEntries(R, G, |R|);
  }

  /** The other blocks, in order, fill all but the `m`-th block's rows. */
  lemma RestShape(vs: seq<Var>, n: nat, m: nat, rest: seq<Var>)
    requires Tiled(vs, n) && m < |vs| && rest == vs[..m] + vs[m + 1..]
    ensures |rest| == |vs| - 1
    ensures forall j :: 0 <= j < |rest| ==> rest[j] == vs[if j < m then j else j + 1]
    ensures InBounds(rest, n)
    ensures SumSizes(rest) + vs[m].size == n
  {
    assert forall j :: 0 <= j < |rest| ==> rest[j] == vs[if j < m then j else j + 1];
    TiledShape(vs, n);
    OffsetSkip(vs, rest, m, |rest|);
    OffsetAll(vs);
    OffsetAll(rest);
  }

  /** Position `a` of the compact layout of the other blocks is row
      `Kept(a, ...)` of the covariance. */
  lemma RestIndex(vs: seq<Var>, n: nat, m: nat, a: nat)
    requires Tiled(vs, n) && m < |vs| && a + vs[m].size < n
    ensures a < SumSizes(vs[..m] + vs[m + 1..])
    ensures GlobalIndex(vs[..m] + vs[m + 1..], a) == Kept(a, vs[m].id, vs[m].size)
  {
    var rest := vs[..m] + vs[m + 1..];
    var v := vs[m];
    RestShape(vs, n, m, rest);
    var i := BlockOf(rest, a);
    OffsetSkip(vs, rest, m, i);
    if i < m {
      assert rest[i] == vs[i];
      OffsetGrows(vs, i, m);
      assert a < v.id;
    } else {
      RestIndexAfter(vs, rest, m, i, a);
    }
  }

  lemma RestIndexAfter(vs: seq<Var>, rest: seq<Var>, m: nat, i: nat, a: nat)
    requires m <= i < |rest| && |rest| == |vs| - 1
    requires forall j :: 0 <= j < |vs| - 1 ==> rest[j] == vs[if j < m then j else j + 1]
    requires forall j :: 0 <= j < |vs| ==> vs[j].id == Offset(vs, j)
    requires Offset(rest, i) <= a
    ensures a >= vs[m].id
  {
    OffsetSkip(vs, rest, m, m);
    OffsetStep(vs, m);
    if m < i {
      OffsetGrows(rest, m, i);
    }
  }

  //--------------------------------------------------------------------------
  // marginalize_old_clone
  //--------------------------------------------------------------------------

  /** The filter together with its sliding window of pose clones, keyed by
      timestamp. */
  datatype Window = Window(state: State, clones: map<real, Handle>)

  /** `marginalize_old_clone`: once the window holds more than
      `maxCloneSize` clones, the clone at `marginalTime` (chosen by the
      state's policy; `None` stands for its "no clone" answer, infinity) is
      marginalized and dropped from the window. */
  function MarginalizeOldClone(st: State, clones: map<real, Handle>, maxCloneSize: int, marginalTime: Option<real>): (r: Result<Window>)
    requires Wf(st)
    ensures |clones| <= maxCloneSize ==> r == Ok(Window(st, clones))
    ensures |clones| > maxCloneSize ==>
              (r.Err? <==> marginalTime.None? || marginalTime.value !in clones || clones[marginalTime.value] !in Handles(st.vars))
    ensures |clones| > maxCloneSize && r.Ok? ==>
              var t := marginalTime.value;
              && r.value.clones == clones - {t}
              && |r.value.clones| == |clones| - 1
              && Marginalize(st, clones[t]).Ok?
              && r.value.state == Marginalize(st, clones[t]).value.state
              && Wf(r.value.state)
              && clones[t] !in Handles(r.value.state.vars)
  {
    if |clones| <= maxCloneSize then Ok(Window(st, clones))
    else
      match marginalTime
      case None => Err(CloneTimeMissing)
      case Some(t) =>
        if t !in clones then Err(CloneTimeMissing)
        else
          match Marginalize(st, clones[t])
          case Err(e) => Err(e)
          case Ok(m) => Ok(Window(m.state, clones - {t}))
  }

  //--------------------------------------------------------------------------
  // marginalize_slam
  //--------------------------------------------------------------------------

  /** A SLAM landmark: its id (the key of the landmark map), its variable and
      its "should be marginalized" flag. */
  datatype Landmark = Landmark(key: nat, handle: Handle, shouldMarg: bool)

  /** The landmarks `marginalize_slam` removes: flagged, and not among the
      ids reserved for ArUco tags (four corners per tag). */
  predicate Doomed(f: Landmark, maxAruco: int)
  {
    f.shouldMarg && f.key > 4 * maxAruco
  }

  /** When a sweep over `fs` succeeds from the active handles `hs`: every
      doomed landmark is active, and no two doomed entries share a variable
      (the second `marginalize` of a shared one finds it gone). */
  predicate Sweepable(fs: seq<Landmark>, maxAruco: int, hs: seq<Handle>)
  {
    && (forall i :: 0 <= i < |fs| && Doomed(fs[i], maxAruco) ==> fs[i].handle in hs)
    && (forall i, j :: 0 <= i < j < |fs| && Doomed(fs[i], maxAruco) && Doomed(fs[j], maxAruco) ==> fs[i].handle != fs[j].handle)
  }

  /** A kept first landmark does not affect whether the rest can be swept. */
  lemma SweepableSkip(fs: seq<Landmark>, maxAruco: int, hs: seq<Handle>)
    requires |fs| > 0 && !Doomed(fs[0], maxAruco)
    ensures Sweepable(fs, maxAruco, hs) <==> Sweepable(fs[1..], maxAruco, hs)
  {
    var tail := fs[1..];
    assert forall i :: 0 <= i < |tail| ==> tail[i] == fs[i + 1];
    if Sweepable(tail, maxAruco, hs) {
      forall i, j | 0 <= i < j < |fs| && Doomed(fs[i], maxAruco) && Doomed(fs[j], maxAruco)
        ensures fs[i].handle != fs[j].handle
      {
        assert fs[i] == tail[i - 1] && fs[j] == tail[j - 1];
      }
      forall i | 0 <= i < |fs| && Doomed(fs[i], maxAruco)
        ensures fs[i].handle in hs
      {
        assert fs[i] == tail[i - 1];
      }
    }
  }

  /** A doomed, active first landmark can be swept together with the rest
      exactly when the rest can be swept from the handles left after its
      removal. */
  lemma SweepableTake(fs: seq<Landmark>, maxAruco: int, hs: seq<Handle>, hs': seq<Handle>)
    requires |fs| > 0 && Doomed(fs[0], maxAruco) && fs[0].handle in hs
    requires forall h :: h in hs' <==> h in hs && h != fs[0].handle
    ensures Sweepable(fs, maxAruco, hs) <==> Sweepable(fs[1..], maxAruco, hs')
  {
    var tail := fs[1..];
    assert forall i :: 0 <= i < |tail| ==> tail[i] == fs[i + 1];
    if Sweepable(fs, maxAruco, hs) {
      forall i | 0 <= i < |tail| && Doomed(tail[i], maxAruco)
        ensures tail[i].handle in hs'
      {
        assert fs[0].handle != fs[i + 1].handle;
      }
      forall i, j | 0 <= i < j < |tail| && Doomed(tail[i], maxAruco) && Doomed(tail[j], maxAruco)
        ensures tail[i].handle != tail[j].handle
      {
        assert fs[i + 1].handle != fs[j + 1].handle;
      }
    }
    if Sweepable(tail, maxAruco, hs') {
      forall i, j | 0 <= i < j < |fs| && Doomed(fs[i], maxAruco) && Doomed(fs[j], maxAruco)
        ensures fs[i].handle != fs[j].handle
      {
        if i == 0 {
          assert tail[j - 1].handle in hs';
        } else {
          assert fs[i] == tail[i - 1] && fs[j] == tail[j - 1];
        }
      }
      forall i | 0 <= i < |fs| && Doomed(fs[i], maxAruco)
        ensures fs[i].handle in hs
      {
        if i > 0 {
          assert tail[i - 1].handle in hs';
        }
      }
    }
  }

  function DoomedHandles(fs: seq<Landmark>, maxAruco: int): set<Handle>
  {
    set f | f in fs && Doomed(f, maxAruco) :: f.handle
  }

  /** The filter after a SLAM sweep, the landmarks kept (in the map's
      iteration order) and the
      number removed. */
  datatype Sweep = Sweep(state: State, kept: seq<Landmark>, removed: nat)

  /** `marginalize_slam`: walks the landmark map in its iteration order,
      marginalizing and erasing every doomed landmark. Fails exactly when a
      doomed landmark is not an active variable, or when two doomed entries
      share one variable; otherwise the kept landmarks are the others, and
      the active variables lose exactly the doomed landmarks. */
  function MarginalizeSlam(st: State, features: seq<Landmark>, maxAruco: int): (r: Result<Sweep>)
    requires Wf(st)
    ensures r.Ok? <==> Sweepable(features, maxAruco, Handles(st.vars))
    ensures r.Err? ==> r.error == NotInState
    ensures r.Ok? ==> Wf(r.value.state)
    ensures r.Ok? ==> forall f :: f in r.value.kept <==> f in features && !Doomed(f, maxAruco)
    ensures r.Ok? ==> r.value.removed + |r.value.kept| == |features|
    ensures r.Ok? ==> forall h :: h in Handles(r.value.state.vars) <==> h in Handles(st.vars) && h !in DoomedHandles(features, maxAruco)
    decreases |features|
  {
    if |features| == 0 then Ok(Sweep(st, [], 0))
    else
      var f := features[0];
      var tail := features[1..];
      assert forall g :: g in features <==> g == f || g in tail;
      assert DoomedHandles(features, maxAruco) == (if Doomed(f, maxAruco) then {f.handle} else {}) + DoomedHandles(tail, maxAruco);
      if Doomed(f, maxAruco) then
        match Marginalize(st, f.handle)
        case Err(e) => Err(e)
        case Ok(m) =>
          SweepableTake(features, maxAruco, Handles(st.vars), Handles(m.state.vars));
          match MarginalizeSlam(m.state, tail, maxAruco)
          case Err(e) => Err(e)
          case Ok(s) => Ok(Sweep(s.state, s.kept, s.removed + 1))
      else
        SweepableSkip(features, maxAruco, Handles(st.vars));
        match MarginalizeSlam(st, tail, maxAruco)
        case Err(e) => Err(e)
        case Ok(s) => Ok(Sweep(s.state, [f] + s.kept, s.removed))
  }

  /** Two map entries for one doomed landmark make the sweep fail: the
      second `marginalize` finds the variable already gone. */
  lemma MarginalizeSlamSharedLandmark(st: State, k1: nat, k2: nat, h: Handle, maxAruco: int)
    requires Wf(st) && k1 > 4 * maxAruco && k2 > 4 * maxAruco
    ensures MarginalizeSlam(st, [Landmark(k1, h, true), Landmark(k2, h, true)], maxAruco) == Err(NotInState)
  {
    var fs := [Landmark(k1, h, true), Landmark(k2, h, true)];
    assert Doomed(fs[0], maxAruco) && Doomed(fs[1], maxAruco) && fs[0].handle == fs[1].handle;
  }

  /** The variables of `vs` whose handles are not in `gone`, in list order,
      ids unchanged. */
  function Without(vs: seq<Var>, gone: set<Handle>): (r: seq<Var>)
    ensures |r| <= |vs|
  {
    if |vs| == 0 then []
    else (if vs[0].handle in gone then [] else [vs[0]]) + Without(vs[1..], gone)
  }

  lemma {:induction false} WithoutAppend(a: seq<Var>, b: seq<Var>, gone: set<Handle>)
    ensures Without(a + b, gone) == Without(a, gone) + Without(b, gone)
  {
    if |a| > 0 {
      assert (a + b)[1..] == a[1..] + b;
      WithoutAppend(a[1..], b, gone);
    } else {
      assert a + b == b;
    }
  }

  /** Only the membership of the listed handles matters. */
  lemma {:induction false} WithoutAgree(vs: seq<Var>, gone: set<Handle>, gone': set<Handle>)
    requires forall i :: 0 <= i < |vs| ==> (vs[i].handle in gone <==> vs[i].handle in gone')
    ensures Without(vs, gone) == Without(vs, gone')
  {
    if |vs| > 0 {
      WithoutAgree(vs[1..], gone, gone');
    }
  }

  /** Every survivor is one of the listed variables, and none is gone. */
  lemma {:induction false} WithoutMembers(vs: seq<Var>, gone: set<Handle>)
    ensures forall v :: v in Without(vs, gone) ==> v in vs && v.handle !in gone
  {
    if |vs| > 0 {
      WithoutMembers(vs[1..], gone);
      var head := if vs[0].handle in gone then [] else [vs[0]];
      assert Without(vs, gone) == head + Without(vs[1..], gone);
      forall v | v in Without(vs, gone)
        ensures v in vs && v.handle !in gone
      {
        if v !in head {
          assert v in Without(vs[1..], gone);
          var k :| 0 <= k < |vs| - 1 && vs[1..][k] == v;
          assert vs[k + 1] == v;
        }
      }
    }
  }

  lemma WithoutInBounds(vs: seq<Var>, gone: set<Handle>, n: nat)
    requires InBounds(vs, n)
    ensures InBounds(Without(vs, gone), n)
  {
    var r := Without(vs, gone);
    WithoutMembers(vs, gone);
    forall i | 0 <= i < |r|
      ensures 0 <= r[i].id && r[i].id + r[i].size <= n
    {
      assert r[i] in vs;
    }
  }

  /** `X` and `Y` list the same variables with the same sizes, in the same
      order; only the ids may differ. */
  predicate SameBlocks(X: seq<Var>, Y: seq<Var>)
  {
    |X| == |Y| && forall i :: 0 <= i < |X| ==> X[i].handle == Y[i].handle && X[i].size == Y[i].size
  }

  /** Dropping the same handles from two lists that pair up block by block
      leaves lists that still pair up: by their handles and sizes, and by
      where the blocks of the first sit in the compact layout of `A`. */
  lemma {:induction false} WithoutPairs(X: seq<Var>, Y: seq<Var>, A: seq<Var>, gone: set<Handle>)
    requires SameBlocks(X, Y)
    ensures SameBlocks(Without(X, gone), Without(Y, gone))
    ensures (forall i :: 0 <= i < |X| ==> Relocates(A, X[i], Y[i])) ==>
              forall i :: 0 <= i < |Without(X, gone)| ==> Relocates(A, Without(X, gone)[i], Without(Y, gone)[i])
  {
    WithoutSameBlocks(X, Y, gone);
    if forall i :: 0 <= i < |X| ==> Relocates(A, X[i], Y[i]) {
      WithoutRelocates(X, Y, A, gone);
    }
  }

  lemma {:induction false} WithoutSameBlocks(X: seq<Var>, Y: seq<Var>, gone: set<Handle>)
    requires SameBlocks(X, Y)
    ensures SameBlocks(Without(X, gone), Without(Y, gone))
  {
    if |X| > 0 {
      WithoutSameBlocks(X[1..], Y[1..], gone);
      assert X[0].handle == Y[0].handle;
    }
  }

  lemma {:induction false} WithoutRelocates(X: seq<Var>, Y: seq<Var>, A: seq<Var>, gone: set<Handle>)
    requires SameBlocks(X, Y)
    requires forall i :: 0 <= i < |X| ==> Relocates(A, X[i], Y[i])
    ensures |Without(X, gone)| == |Without(Y, gone)|
    ensures forall i :: 0 <= i < |Without(X, gone)| ==> Relocates(A, Without(X, gone)[i], Without(Y, gone)[i])
  {
    if |X| > 0 {
      var wx, wy := Without(X[1..], gone), Without(Y[1..], gone);
      assert SameBlocks(X[1..], Y[1..]);
      WithoutRelocates(X[1..], Y[1..], A, gone);
      assert X[0].handle == Y[0].handle;
      if X[0].handle in gone {
        assert Without(X, gone) == wx && Without(Y, gone) == wy;
      } else {
        var kx, ky := Without(X, gone), Without(Y, gone);
        assert kx == [X[0]] + wx && ky == [Y[0]] + wy;
        forall i | 0 <= i < |kx|
          ensures Relocates(A, kx[i], ky[i])
        {
          if i == 0 {
            assert kx[0] == X[0] && ky[0] == Y[0] && Relocates(A, X[0], Y[0]);
          } else {
            assert kx[i] == wx[i - 1] && ky[i] == wy[i - 1];
          }
        }
      }
    }
  }

  /** The landmarks a SLAM sweep keeps, in the map's iteration order. */
  function Spared(fs: seq<Landmark>, maxAruco: int): (r: seq<Landmark>)
    ensures forall f :: f in r ==> f in fs && !Doomed(f, maxAruco)
  {
    if |fs| == 0 then []
    else (if Doomed(fs[0], maxAruco) then [] else [fs[0]]) + Spared(fs[1..], maxAruco)
  }

  /** A SLAM sweep keeps the landmarks it does not remove, in order, and
      counts the others. */
  lemma {:induction false} MarginalizeSlamKept(st: State, features: seq<Landmark>, maxAruco: int)
    requires Wf(st) && MarginalizeSlam(st, features, maxAruco).Ok?
    ensures MarginalizeSlam(st, features, maxAruco).value.kept == Spared(features, maxAruco)
    ensures MarginalizeSlam(st, features, maxAruco).value.removed == |features| - |Spared(features, maxAruco)|
    decreases |features|
  {
    if |features| > 0 {
      var f := features[0];
      if Doomed(f, maxAruco) {
        MarginalizeSlamKept(Marginalize(st, f.handle).value.state, features[1..], maxAruco);
      } else {
        MarginalizeSlamKept(st, features[1..], maxAruco);
      }
    }
  }

  /** The variables a SLAM sweep leaves are the old ones without the doomed
      landmarks, in their old order (each at its new offset), and for a
      symmetric covariance the covariance left is the joint covariance of
      those variables. */
  lemma {:induction false} MarginalizeSlamKeepsOthers(st: State, features: seq<Landmark>, maxAruco: int)
    requires Wf(st) && MarginalizeSlam(st, features, maxAruco).Ok?
    ensures var out := MarginalizeSlam(st, features, maxAruco).value.state;
            var others := Without(st.vars, DoomedHandles(features, maxAruco));
            && SameBlocks(out.vars, others)
            && InBounds(others, |st.cov|)
            && (Symmetric(st.cov) ==> out.cov == GetMarginalCovariance(st.cov, others))
    decreases |features|
  {
    var D := DoomedHandles(features, maxAruco);
    WithoutInBounds(st.vars, D, |st.cov|);
    if |features| == 0 {
      WithoutAgree(st.vars, D, {});
      WithoutGatherAll(st);
      return;
    }
    var f := features[0];
    var tail := features[1..];
    var D' := DoomedHandles(tail, maxAruco);
    assert forall g :: g in features <==> g == f || g in tail;
    assert D == (if Doomed(f, maxAruco) then {f.handle} else {}) + D';
    if !Doomed(f, maxAruco) {
      assert MarginalizeSlam(st, features, maxAruco).value.state == MarginalizeSlam(st, tail, maxAruco).value.state;
      assert D == D';
      MarginalizeSlamKeepsOthers(st, tail, maxAruco);
      return;
    }
    var mst := Marginalize(st, f.handle).value.state;
    var idx := Find(st.vars, f.handle).value;
    MarginalizeSlamKeepsOthers(mst, tail, maxAruco);
    forall j | 0 <= j < |st.vars| && j != idx
      ensures st.vars[j].handle in D <==> st.vars[j].handle in D'
    {
      assert st.vars[j].handle != st.vars[idx].handle by {
        if j < idx { assert st.vars[j].handle != st.vars[idx].handle; }
        else { assert st.vars[idx].handle != st.vars[j].handle; }
      }
    }
    WithoutSkip(st.vars, idx, D, D');
    MarginalizeStep(st, idx, D');
    var out := MarginalizeSlam(st, features, maxAruco).value.state;
    assert out == MarginalizeSlam(mst, tail, maxAruco).value.state;
    var others := Without(st.vars, D);
    var mid := Without(mst.vars, D');
    assert SameBlocks(out.vars, mid) && SameBlocks(mid, others);
    SameBlocksTrans(out.vars, mid, others);
  }

  lemma SameBlocksTrans(X: seq<Var>, Y: seq<Var>, Z: seq<Var>)
    requires SameBlocks(X, Y) && SameBlocks(Y, Z)
    ensures SameBlocks(X, Z)
  {
  }

  /** Dropping the `idx`-th variable, whose handle is gone, and then the
      handles gone from the others, drops all of them. */
  lemma WithoutSkip(vs: seq<Var>, idx: nat, gone: set<Handle>, gone': set<Handle>)
    requires idx < |vs| && vs[idx].handle in gone
    requires forall j :: 0 <= j < |vs| && j != idx ==> (vs[j].handle in gone <==> vs[j].handle in gone')
    ensures Without(vs[..idx] + vs[idx + 1..], gone') == Without(vs, gone)
  {
    var rest := vs[..idx] + vs[idx + 1..];
    WithoutDrop(vs, idx, gone);
    forall i | 0 <= i < |rest|
      ensures rest[i].handle in gone <==> rest[i].handle in gone'
    {
      var k := if i < idx then i else i + 1;
      assert rest[i] == vs[k];
    }
    WithoutAgree(rest, gone, gone');
  }

  lemma WithoutDrop(vs: seq<Var>, idx: nat, gone: set<Handle>)
    requires idx < |vs| && vs[idx].handle in gone
    ensures Without(vs[..idx] + vs[idx + 1..], gone) == Without(vs, gone)
  {
    assert vs == vs[..idx] + [vs[idx]] + vs[idx + 1..];
    WithoutSkipsGone(vs[..idx], vs[idx], vs[idx + 1..], gone);
  }

  /** Dropping a variable whose handle is gone does not change the survivors. */
  lemma WithoutSkipsGone(front: seq<Var>, v: Var, back: seq<Var>, gone: set<Handle>)
    requires v.handle in gone
    ensures Without(front + [v] + back, gone) == Without(front + back, gone)
  {
    WithoutAppend(front + [v], back, gone);
    WithoutAppend(front, [v], gone);
    WithoutGone(v, gone);
    WithoutAppend(front, back, gone);
  }

  lemma WithoutGone(v: Var, gone: set<Handle>)
    requires v.handle in gone
    ensures Without([v], gone) == []
  {
    assert [v][1..] == [];
  }

  /** One step of the sweep: after marginalizing the `idx`-th variable,
      dropping further handles from the survivors matches dropping them
      from the other old variables, block for block, and gathers the same
      covariance. */
  lemma MarginalizeStep(st: State, idx: nat, gone: set<Handle>)
    requires Wf(st) && idx < |st.vars|
    ensures Marginalize(st, st.vars[idx].handle).Ok?
    ensures var mst := Marginalize(st, st.vars[idx].handle).value.state;
            var rest := st.vars[..idx] + st.vars[idx + 1..];
            && InBounds(Without(rest, gone), |st.cov|)
            && InBounds(Without(mst.vars, gone), |mst.cov|)
            && SameBlocks(Without(mst.vars, gone), Without(rest, gone))
            && (Symmetric(st.cov) ==>
                  && Symmetric(mst.cov)
                  && GetMarginalCovariance(mst.cov, Without(mst.vars, gone)) == GetMarginalCovariance(st.cov, Without(rest, gone)))
  {
    var vs := st.vars;
    var h := vs[idx].handle;
    assert Handles(vs)[idx] == h;
    assert Find(vs, h).value == idx;
    var mst := Marginalize(st, h).value.state;
    var rest := vs[..idx] + vs[idx + 1..];
    RestShape(vs, |st.cov|, idx, rest);
    WithoutInBounds(rest, gone, |st.cov|);
    WithoutInBounds(mst.vars, gone, |mst.cov|);
    assert SameBlocks(mst.vars, rest);
    forall i | 0 <= i < |mst.vars|
      ensures Relocates(rest, mst.vars[i], rest[i])
    {
      TilingRelocates(rest, mst.vars, i);
    }
    WithoutPairs(mst.vars, rest, rest, gone);
    if Symmetric(st.cov) {
      MarginalizeIsMarginal(st, idx);
      RemoveBlockSymmetric(st.cov, vs[idx].id, vs[idx].size);
      GatherOfGather(st.cov, rest, Without(mst.vars, gone), Without(rest, gone));
    }
  }

  /** Gathering every variable of a well-formed state gives its covariance. */
  lemma WithoutGatherAll(st: State)
    requires Wf(st)
    ensures Without(st.vars, {}) == st.vars
    ensures GetMarginalCovariance(st.cov, st.vars) == st.cov
  {
    WithoutNone(st.vars);
    FullIsMarginalOfAll(st);
  }

  lemma {:induction false} WithoutNone(vs: seq<Var>)
    ensures Without(vs, {}) == vs
  {
    if |vs| > 0 {
      WithoutNone(vs[1..]);
      assert vs == [vs[0]] + vs[1..];
    }
  }
}
