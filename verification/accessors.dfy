/** Moving blocks between the big covariance and a compact matrix laid out in
    a caller-chosen order of variables (`get_marginal_covariance`,
    `set_initial_covariance`, `get_full_covariance`). */
module Accessors {
  import opened Results
  import opened Matrix
  import opened Layout
  import opened FilterState

  /** `get_marginal_covariance`: the joint covariance of the variables of
      `order`, laid out in that order. Every pairwise block, a variable with
      itself included, is the matching block of `P`. */
  function GetMarginalCovariance(P: Mat, order: seq<Var>): (r: Mat)
    requires Square(P, |P|) && InBounds(order, |P|)
    ensures Square(r, SumSizes(order))
    ensures forall i: nat, k: nat, x: nat, y: nat ::
              i < |order| && k < |order| && x < order[i].size && y < order[k].size ==>
                && Slot(order, i, x) < |r| && Slot(order, k, y) < |r|
                && r[Slot(order, i, x)][Slot(order, k, y)] == P[order[i].id + x][order[k].id + y]
  {
    GlobalIndexInBounds(order, |P|);
    SlotLocates(order);
    var n := SumSizes(order);
    seq(n, a requires 0 <= a < n =>
      seq(n, b requires 0 <= b < n => P[GlobalIndex(order, a)][GlobalIndex(order, b)]))
  }

  /** `get_full_covariance`: a copy of the whole covariance, which is the
      joint covariance of all active variables in list order. */
  function GetFullCovariance(st: State): (r: Mat)
    requires Wf(st)
    ensures InBounds(st.vars, |st.cov|) && r == GetMarginalCovariance(st.cov, st.vars)
  {
    FullIsMarginalOfAll(st);
    st.cov
  }

  lemma FullIsMarginalOfAll(st: State)
    requires Wf(st)
    ensures InBounds(st.vars, |st.cov|) && GetMarginalCovariance(st.cov, st.vars) == st.cov
  {
    var n := |st.cov|;
    TiledShape(st.vars, n);
    var G := GetMarginalCovariance(st.cov, st.vars);
    forall a: nat | a < n
      ensures GlobalIndex(st.vars, a) == a
    {
      var i := BlockOf(st.vars, a);
    }
    SameEntries(G, st.cov, n);
  }

  /** Some variable of `order` owns row `g`. */
  ghost predicate Referenced(order: seq<Var>, g: int)
  {
    exists i :: 0 <= i < |order| && Covers(order[i], g)
  }

  /** Where row `g` of the covariance is read from in the compact matrix:
      the last variable of `order` owning it decides (a later block copy in
      the loops of `set_initial_covariance` overwrites an earlier one). */
  function CompactPos(order: seq<Var>, g: int): (r: Option<nat>)
    ensures r.Some? ==> r.value < SumSizes(order)
    ensures r.None? <==> LastCover(order, g).None?
  {
    match LastCover(order, g)
    case None => None
    case Some(i) =>
      SlotBound(order, i, g - order[i].id);
      Some(Slot(order, i, g - order[i].id))
  }

  /** Entry `(g, h)` after the block copies of `set_initial_covariance`, before
      the final mirror: entries whose row and column are both owned by
      variables of `order` come from the compact matrix, the others keep
      their value. */
  function ScatterEntry(P: Mat, cov: Mat, order: seq<Var>, g: nat, h: nat): real
    requires Square(P, |P|) && Square(cov, SumSizes(order)) && g < |P| && h < |P|
  {
    match (CompactPos(order, g), CompactPos(order, h))
    case (Some(a), Some(b)) => cov[a][b]
    case _ => P[g][h]
  }

  function Scattered(P: Mat, cov: Mat, order: seq<Var>): (r: Mat)
    requires Square(P, |P|) && Square(cov, SumSizes(order))
    ensures Square(r, |P|)
    ensures forall g, h :: 0 <= g < |P| && 0 <= h < |P| ==> r[g][h] == ScatterEntry(P, cov, order, g, h)
  {
    seq(|P|, g requires 0 <= g < |P| =>
      seq(|P|, h requires 0 <= h < |P| => ScatterEntry(P, cov, order, g, h)))
  }

  /** `set_initial_covariance`: writes every pairwise block of `cov` (laid out
      in `order`) into the covariance, then mirrors the upper triangle. The
      result is symmetric; an upper entry whose row and column are both owned
      by variables of `order` holds the compact entry of their last owners,
      and every other upper entry keeps its value. */
  function SetInitialCovariance(P: Mat, cov: Mat, order: seq<Var>): (r: Mat)
    requires Square(P, |P|) && InBounds(order, |P|) && Square(cov, SumSizes(order))
    ensures |r| == |P| && Symmetric(r)
    ensures forall g, h :: 0 <= g <= h < |P| && (!Referenced(order, g) || !Referenced(order, h)) ==>
              r[g][h] == P[g][h]
    ensures forall g, h :: 0 <= g <= h < |P| && CompactPos(order, g).Some? && CompactPos(order, h).Some? ==>
              r[g][h] == cov[CompactPos(order, g).value][CompactPos(order, h).value]
  {
    ScatterPlacement(P, cov, order);
    MirrorUpper(Scattered(P, cov, order))
  }

  /** The block copies alone, before the mirror: entries not owned on both
      sides keep their value. */
  lemma ScatterPlacement(P: Mat, cov: Mat, order: seq<Var>)
    requires Square(P, |P|) && InBounds(order, |P|) && Square(cov, SumSizes(order))
    ensures forall g, h :: 0 <= g < |P| && 0 <= h < |P| && (!Referenced(order, g) || !Referenced(order, h)) ==>
              Scattered(P, cov, order)[g][h] == P[g][h]
  {
    forall g, h | 0 <= g < |P| && 0 <= h < |P| && (!Referenced(order, g) || !Referenced(order, h))
      ensures Scattered(P, cov, order)[g][h] == P[g][h]
    {
      ScatterUnreferenced(P, cov, order, g, h);
    }
  }

  /** In an order of non-overlapping variables row `id + x` of variable `i` is
      read from compact position `Slot(order, i, x)`. */
  lemma CompactPosOfDisjoint(order: seq<Var>, i: nat, x: nat)
    requires Disjoint(order) && i < |order| && x < order[i].size
    ensures CompactPos(order, order[i].id + x) == Some(Slot(order, i, x))
  {
    LastCoverOfDisjoint(order, i, order[i].id + x);
  }

  /** For an order of non-overlapping variables every block of the compact
      matrix lands at its variables' offsets, on both sides of the diagonal. */
  lemma ScatterLandsBlocks(P: Mat, cov: Mat, order: seq<Var>)
    requires Square(P, |P|) && InBounds(order, |P|) && Disjoint(order)
    requires Symmetric(cov) && |cov| == SumSizes(order)
    ensures forall i: nat, k: nat, x: nat, y: nat ::
              i < |order| && k < |order| && x < order[i].size && y < order[k].size ==>
                && Slot(order, i, x) < |cov| && Slot(order, k, y) < |cov|
                && SetInitialCovariance(P, cov, order)[order[i].id + x][order[k].id + y] == cov[Slot(order, i, x)][Slot(order, k, y)]
  {
    forall i: nat, k: nat, x: nat, y: nat | i < |order| && k < |order| && x < order[i].size && y < order[k].size
      ensures && Slot(order, i, x) < |cov| && Slot(order, k, y) < |cov|
              && SetInitialCovariance(P, cov, order)[order[i].id + x][order[k].id + y] == cov[Slot(order, i, x)][Slot(order, k, y)]
    {
      PlacedEntry(P, cov, order, i, k, x, y);
    }
  }

  lemma ScatterUnreferenced(P: Mat, cov: Mat, order: seq<Var>, g: nat, h: nat)
    requires Square(P, |P|) && InBounds(order, |P|) && Square(cov, SumSizes(order))
    requires g < |P| && h < |P| && (!Referenced(order, g) || !Referenced(order, h))
    ensures Scattered(P, cov, order)[g][h] == P[g][h]
  {
    if LastCover(order, g).Some? {
      var i := LastCover(order, g).value;
      assert Referenced(order, g);
    }
    if LastCover(order, h).Some? {
      var k := LastCover(order, h).value;
      assert Referenced(order, h);
    }
  }

  /** Scattering a symmetric compact covariance over non-overlapping variables
      and gathering it back returns it unchanged. */
  lemma ScatterThenGather(P: Mat, cov: Mat, order: seq<Var>)
    requires Square(P, |P|) && InBounds(order, |P|) && Disjoint(order)
    requires Symmetric(cov) && |cov| == SumSizes(order)
    ensures GetMarginalCovariance(SetInitialCovariance(P, cov, order), order) == cov
  {
    var G := GetMarginalCovariance(SetInitialCovariance(P, cov, order), order);
    var n := SumSizes(order);
    forall a, b | 0 <= a < n && 0 <= b < n
      ensures G[a][b] == cov[a][b]
    {
      ScatterThenGatherEntry(P, cov, order, a, b);
    }
    SameEntries(G, cov, n);
  }

  lemma ScatterThenGatherEntry(P: Mat, cov: Mat, order: seq<Var>, a: nat, b: nat)
    requires Square(P, |P|) && InBounds(order, |P|) && Disjoint(order)
    requires Symmetric(cov) && |cov| == SumSizes(order)
    requires a < |cov| && b < |cov|
    ensures GetMarginalCovariance(SetInitialCovariance(P, cov, order), order)[a][b] == cov[a][b]
  {
    GatherOfPlaced(SetInitialCovariance(P, cov, order), cov, order, a, b);
  }

  /** `S` is symmetric and holds, above the diagonal, the compact entry of the
      last owners of every row and column pair owned by `order`: what
      `set_initial_covariance` leaves behind. */
  ghost predicate HoldsCompact(S: Mat, cov: Mat, order: seq<Var>)
  {
    && Symmetric(S) && Square(cov, SumSizes(order))
    && forall g, h :: 0 <= g <= h < |S| && CompactPos(order, g).Some? && CompactPos(order, h).Some? ==>
         S[g][h] == cov[CompactPos(order, g).value][CompactPos(order, h).value]
  }

  /** Gathering from any matrix that holds `cov` returns `cov`'s entries. */
  lemma GatherOfPlaced(S: Mat, cov: Mat, order: seq<Var>, a: nat, b: nat)
    requires HoldsCompact(S, cov, order) && Symmetric(cov) && InBounds(order, |S|) && Disjoint(order)
    requires a < |cov| && b < |cov|
    ensures GetMarginalCovariance(S, order)[a][b] == cov[a][b]
  {
    var i := BlockOf(order, a);
    var k := BlockOf(order, b);
    var x: nat := a - Offset(order, i);
    var y: nat := b - Offset(order, k);
    assert Slot(order, i, x) == a && Slot(order, k, y) == b;
    GatherEntry(S, order, i, k, x, y);
    PlacedIn(S, cov, order, i, k, x, y);
  }

  /** One entry of a gathered matrix. */
  lemma GatherEntry(S: Mat, order: seq<Var>, i: nat, k: nat, x: nat, y: nat)
    requires Square(S, |S|) && InBounds(order, |S|)
    requires i < |order| && k < |order| && x < order[i].size && y < order[k].size
    ensures Slot(order, i, x) < SumSizes(order) && Slot(order, k, y) < SumSizes(order)
    ensures GetMarginalCovariance(S, order)[Slot(order, i, x)][Slot(order, k, y)] == S[order[i].id + x][order[k].id + y]
  {
    SlotBound(order, i, x);
    SlotBound(order, k, y);
  }

  /** One entry of the result of `set_initial_covariance`, on either side of
      the diagonal. */
  lemma PlacedEntry(P: Mat, cov: Mat, order: seq<Var>, i: nat, k: nat, x: nat, y: nat)
    requires Square(P, |P|) && InBounds(order, |P|) && Disjoint(order)
    requires Symmetric(cov) && |cov| == SumSizes(order)
    requires i < |order| && k < |order| && x < order[i].size && y < order[k].size
    ensures Slot(order, i, x) < |cov| && Slot(order, k, y) < |cov|
    ensures SetInitialCovariance(P, cov, order)[order[i].id + x][order[k].id + y] == cov[Slot(order, i, x)][Slot(order, k, y)]
  {
    PlacedIn(SetInitialCovariance(P, cov, order), cov, order, i, k, x, y);
  }

  /** The same for any matrix that holds `cov`. */
  lemma PlacedIn(S: Mat, cov: Mat, order: seq<Var>, i: nat, k: nat, x: nat, y: nat)
    requires HoldsCompact(S, cov, order) && Symmetric(cov) && InBounds(order, |S|) && Disjoint(order)
    requires i < |order| && k < |order| && x < order[i].size && y < order[k].size
    ensures Slot(order, i, x) < |cov| && Slot(order, k, y) < |cov|
    ensures S[order[i].id + x][order[k].id + y] == cov[Slot(order, i, x)][Slot(order, k, y)]
  {
    SlotBound(order, i, x);
    SlotBound(order, k, y);
    CompactPosOfDisjoint(order, i, x);
    CompactPosOfDisjoint(order, k, y);
    MirroredEntry(S, cov, order, order[i].id + x, order[k].id + y);
  }

  /** Below the diagonal such a matrix holds the compact entries of the last
      owners as well. */
  lemma MirroredEntry(S: Mat, cov: Mat, order: seq<Var>, g: nat, h: nat)
    requires HoldsCompact(S, cov, order) && Symmetric(cov) && g < |S| && h < |S|
    requires CompactPos(order, g).Some? && CompactPos(order, h).Some?
    ensures S[g][h] == cov[CompactPos(order, g).value][CompactPos(order, h).value]
  {
    if h < g {
      assert S[h][g] == cov[CompactPos(order, h).value][CompactPos(order, g).value];
    }
  }

  /** Gathering the blocks of a symmetric covariance and scattering them back
      leaves it unchanged, whatever the order. */
  lemma GatherThenScatter(P: Mat, order: seq<Var>)
    requires Symmetric(P) && InBounds(order, |P|)
    ensures SetInitialCovariance(P, GetMarginalCovariance(P, order), order) == P
  {
    var W := Scattered(P, GetMarginalCovariance(P, order), order);
    forall g, h | 0 <= g < |P| && 0 <= h < |P|
      ensures W[g][h] == P[g][h]
    {
      ScatterGatheredEntry(P, order, g, h);
    }
    SameEntries(W, P, |P|);
    MirrorUpperOfSymmetric(P);
  }

  lemma ScatterGatheredEntry(P: Mat, order: seq<Var>, g: nat, h: nat)
    requires Square(P, |P|) && InBounds(order, |P|) && g < |P| && h < |P|
    ensures Scattered(P, GetMarginalCovariance(P, order), order)[g][h] == P[g][h]
  {
    var G := GetMarginalCovariance(P, order);
    match (LastCover(order, g), LastCover(order, h))
    case (Some(i), Some(k)) =>
      var x: nat := g - order[i].id;
      var y: nat := h - order[k].id;
      assert G[Slot(order, i, x)][Slot(order, k, y)] == P[order[i].id + x][order[k].id + y];
    case _ =>
  }

  //--------------------------------------------------------------------------
  // Gathering from a gathered matrix
  //--------------------------------------------------------------------------

  /** Block `b` of a compact matrix laid out in `A` holds the rows of block
      `c` of the covariance: both have the same size, and row `b.id + x` of
      the compact layout was copied from row `c.id + x`. */
  ghost predicate Relocates(A: seq<Var>, b: Var, c: Var)
  {
    && b.size == c.size && 0 <= b.id && b.id + b.size <= SumSizes(A)
    && forall g :: b.id <= g < b.id + b.size ==> GlobalIndex(A, g) == c.id + (g - b.id)
  }

  /** The variables of a tiling of the compact layout of `A`, block for block
      the variables of `A`, hold the rows of those variables. */
  lemma TilingRelocates(A: seq<Var>, X: seq<Var>, i: nat)
    requires |X| == |A| && i < |A|
    requires forall j :: 0 <= j < |A| ==> X[j].size == A[j].size
    requires forall j :: 0 <= j < |X| ==> X[j].id == Offset(X, j)
    ensures Relocates(A, X[i], A[i])
  {
    SumSizesBySize(X[..i], A[..i]);
    OffsetGrows(A, i, |A|);
    OffsetAll(A);
    forall g | X[i].id <= g < X[i].id + X[i].size
      ensures GlobalIndex(A, g) == A[i].id + (g - X[i].id)
    {
      BlockOfUnique(A, i, g);
    }
  }

  /** One entry of a gathered matrix, read through `GlobalIndex`. */
  lemma GatheredAt(P: Mat, order: seq<Var>, a: nat, b: nat)
    requires Square(P, |P|) && InBounds(order, |P|) && a < SumSizes(order) && b < SumSizes(order)
    ensures 0 <= GlobalIndex(order, a) < |P| && 0 <= GlobalIndex(order, b) < |P|
    ensures GetMarginalCovariance(P, order)[a][b] == P[GlobalIndex(order, a)][GlobalIndex(order, b)]
  {
    GlobalIndexInBounds(order, |P|);
  }

  /** Compact position `a` of `B`, looked up in the layout of `A`, is the
      row that position `a` of `C` copies. */
  lemma IndexComposes(A: seq<Var>, B: seq<Var>, C: seq<Var>, a: nat)
    requires |B| == |C| && forall j :: 0 <= j < |B| ==> Relocates(A, B[j], C[j])
    requires a < SumSizes(B)
    ensures a < SumSizes(C) && 0 <= GlobalIndex(B, a) < SumSizes(A)
    ensures GlobalIndex(A, GlobalIndex(B, a)) == GlobalIndex(C, a)
  {
    var j := BlockOf(B, a);
    assert Relocates(A, B[j], C[j]);
    SumSizesBySize(B[..j], C[..j]);
    BlockOfUnique(C, j, a);
  }

  /** Gathering `B` from the joint covariance of `A`, where each block of
      `B` holds the rows of the matching block of `C`, is gathering `C`
      from the covariance itself. */
  lemma GatherOfGather(P: Mat, A: seq<Var>, B: seq<Var>, C: seq<Var>)
    requires Square(P, |P|) && InBounds(A, |P|) && InBounds(C, |P|)
    requires |B| == |C| && forall j :: 0 <= j < |B| ==> Relocates(A, B[j], C[j])
    ensures InBounds(B, SumSizes(A))
    ensures GetMarginalCovariance(GetMarginalCovariance(P, A), B) == GetMarginalCovariance(P, C)
  {
    assert forall j :: 0 <= j < |B| ==> Relocates(A, B[j], C[j]) && B[j].size == C[j].size;
    SumSizesBySize(B, C);
    var G := GetMarginalCovariance(P, A);
    var GG := GetMarginalCovariance(G, B);
    var GC := GetMarginalCovariance(P, C);
    forall a, b | 0 <= a < SumSizes(B) && 0 <= b < SumSizes(B)
      ensures GG[a][b] == GC[a][b]
    {
      IndexComposes(A, B, C, a);
      IndexComposes(A, B, C, b);
      GatheredAt(G, B, a, b);
      GatheredAt(P, A, GlobalIndex(B, a), GlobalIndex(B, b));
      GatheredAt(P, C, a, b);
    }
    SameEntries(GG, GC, SumSizes(B));
  }
}
