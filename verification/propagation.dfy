/** The bookkeeping of `EKFPropagation` and `EKFUpdate`: the checks on the
    variable lists, the offset tables `Phi_id` and `H_id`, and where the
    propagated blocks are written. The products with `Phi`, `Q` and `H` are
    computed outside the model. */
module Propagation {
  import opened Results
  import opened Matrix
  import opened Layout
  import opened Accessors

  /** Where each variable's columns start in a compact Jacobian laid out in
      `order` (`Phi_id` in propagation, `H_id` in the updates): the running
      sum of the sizes before it. */
  method PrefixOffsets(order: seq<Var>) returns (offs: seq<nat>)
    ensures |offs| == |order|
    ensures forall i :: 0 <= i < |order| ==> offs[i] == Offset(order, i)
  {
    var it := 0;
    offs := [];
    for i := 0 to |order|
      invariant |offs| == i && it == Offset(order, i)
      invariant forall j :: 0 <= j < i ==> offs[j] == Offset(order, j)
    {
      offs := offs + [it];
      OffsetStep(order, i);
      it := it + order[i].size;
    }
  }

  /** What propagation works with once the checks pass: the first row of the
      propagated blocks, the sizes of the new and old orders, and `Phi_id`. */
  datatype Plan = Plan(start: int, newSize: nat, oldSize: nat, phiIds: seq<nat>)

  /** The checks at the top of `EKFPropagation`: both orders non-empty, the
      new order contiguous in the covariance, `Phi` of `newSize` by `oldSize`
      and `Q` square of `newSize`. */
  method CheckPropagation(orderNew: seq<Var>, orderOld: seq<Var>, phiRows: nat, phiCols: nat, qRows: nat, qCols: nat)
    returns (r: Result<Plan>)
    ensures (r == Err(EmptyOrder)) <==> |orderNew| == 0 || |orderOld| == 0
    ensures r.Err? && r.error.NonContiguous? ==>
              var at := r.error.at;
              && at + 1 < |orderNew|
              && orderNew[at].id + orderNew[at].size != orderNew[at + 1].id
              && forall j :: 0 <= j < at ==> orderNew[j].id + orderNew[j].size == orderNew[j + 1].id
    ensures |orderNew| > 0 && |orderOld| > 0 ==> (r.Err? && r.error.NonContiguous? <==> !ContiguousPairs(orderNew))
    ensures r.Ok? <==>
              && |orderNew| > 0 && |orderOld| > 0
              && ContiguousPairs(orderNew)
              && phiRows == SumSizes(orderNew) && phiCols == SumSizes(orderOld)
              && qRows == SumSizes(orderNew) && qCols == SumSizes(orderNew)
    ensures r.Ok? ==>
              && r.value.start == orderNew[0].id
              && r.value.newSize == SumSizes(orderNew)
              && r.value.oldSize == SumSizes(orderOld)
              && |r.value.phiIds| == |orderOld|
              && forall i :: 0 <= i < |orderOld| ==> r.value.phiIds[i] == Offset(orderOld, i)
  {
    if |orderNew| == 0 || |orderOld| == 0 {
      return Err(EmptyOrder);
    }
    var sizeNew := orderNew[0].size;
    var i := 0;
    OffsetStep(orderNew, 0);
    while i < |orderNew| - 1
      invariant 0 <= i <= |orderNew| - 1
      invariant sizeNew == Offset(orderNew, i + 1)
      invariant forall j :: 0 <= j < i ==> orderNew[j].id + orderNew[j].size == orderNew[j + 1].id
    {
      if orderNew[i].id + orderNew[i].size != orderNew[i + 1].id {
        return Err(NonContiguous(i));
      }
      OffsetStep(orderNew, i + 1);
      sizeNew := sizeNew + orderNew[i + 1].size;
      i := i + 1;
    }
    OffsetAll(orderNew);
    var sizeOld := orderOld[0].size;
    i := 0;
    OffsetStep(orderOld, 0);
    while i < |orderOld| - 1
      invariant 0 <= i <= |orderOld| - 1
      invariant sizeOld == Offset(orderOld, i + 1)
    {
      OffsetStep(orderOld, i + 1);
      sizeOld := sizeOld + orderOld[i + 1].size;
      i := i + 1;
    }
    OffsetAll(orderOld);
    if !(sizeNew == phiRows && sizeOld == phiCols && sizeNew == qCols && sizeNew == qRows) {
      return Err(DimensionMismatch);
    }
    var phiIds := PrefixOffsets(orderOld);
    return Ok(Plan(orderNew[0].id, sizeNew, sizeOld, phiIds));
  }

  /** A contiguous order covers exactly the rows from its first variable's id
      to that id plus the total size: the rectangle propagation overwrites. */
  lemma ContiguousSpan(order: seq<Var>, g: int)
    requires |order| > 0 && ContiguousPairs(order)
    ensures Referenced(order, g) <==> order[0].id <= g < order[0].id + SumSizes(order)
  {
    var base := order[0].id;
    OffsetAll(order);
    if Referenced(order, g) {
      var i :| 0 <= i < |order| && Covers(order[i], g);
      ContiguousOffset(order, i);
      SlotBound(order, i, g - order[i].id);
    }
    if base <= g < base + SumSizes(order) {
      var i := BlockOf(order, g - base);
      ContiguousOffset(order, i);
      assert Covers(order[i], g);
    }
  }

  /** The joint covariance of a contiguous order is one rectangle of the
      covariance, starting at its first variable. */
  lemma ContiguousMarginalIsRectangle(P: Mat, order: seq<Var>)
    requires Square(P, |P|) && InBounds(order, |P|) && |order| > 0 && ContiguousPairs(order)
    ensures 0 <= order[0].id && order[0].id + SumSizes(order) <= |P|
    ensures forall a, b :: 0 <= a < SumSizes(order) && 0 <= b < SumSizes(order) ==>
              GetMarginalCovariance(P, order)[a][b] == P[order[0].id + a][order[0].id + b]
  {
    ContiguousSpan(order, order[0].id);
    ContiguousSpan(order, order[0].id + SumSizes(order) - 1);
    var G := GetMarginalCovariance(P, order);
    forall a, b | 0 <= a < SumSizes(order) && 0 <= b < SumSizes(order)
      ensures G[a][b] == P[order[0].id + a][order[0].id + b]
    {
      ContiguousEntry(P, order, a, b);
    }
  }

  lemma ContiguousEntry(P: Mat, order: seq<Var>, a: nat, b: nat)
    requires Square(P, |P|) && InBounds(order, |P|) && |order| > 0 && ContiguousPairs(order)
    requires a < SumSizes(order) && b < SumSizes(order)
    ensures 0 <= order[0].id + a < |P| && 0 <= order[0].id + b < |P|
    ensures GetMarginalCovariance(P, order)[a][b] == P[order[0].id + a][order[0].id + b]
  {
    ContiguousIndex(order, a);
    ContiguousIndex(order, b);
    GlobalIndexInBounds(order, |P|);
    var G := GetMarginalCovariance(P, order);
    assert G[a][b] == P[GlobalIndex(order, a)][GlobalIndex(order, b)];
  }

  /** In a contiguous order, compact position `a` is row `a` past the first id. */
  lemma ContiguousIndex(order: seq<Var>, a: nat)
    requires |order| > 0 && ContiguousPairs(order) && a < SumSizes(order)
    ensures GlobalIndex(order, a) == order[0].id + a
  {
    ContiguousOffset(order, BlockOf(order, a));
  }

  /** The three block writes that end `EKFPropagation`: the `k` rows from `s`
      take `C` transposed, the `k` columns from `s` take `C`, and the diagonal
      block takes `D`. Everything outside those rows and columns is kept. */
  function PropagationWrite(P: Mat, s: nat, C: Mat, D: Mat, k: nat): (r: Mat)
    requires Square(P, |P|) && s + k <= |P| && Rect(C, |P|, k) && Square(D, k)
    ensures Square(r, |P|)
    ensures forall g, h :: 0 <= g < |P| && 0 <= h < |P| && !(s <= g < s + k) && !(s <= h < s + k) ==> r[g][h] == P[g][h]
    ensures forall g, y :: 0 <= g < |P| && !(s <= g < s + k) && 0 <= y < k ==> r[g][s + y] == C[g][y] && r[s + y][g] == C[g][y]
    ensures forall x, y :: 0 <= x < k && 0 <= y < k ==> r[s + x][s + y] == D[x][y]
  {
    var n := |P|;
    seq(n, g requires 0 <= g < n =>
      seq(n, h requires 0 <= h < n =>
        if s <= g < s + k && s <= h < s + k then D[g - s][h - s]
        else if s <= h < s + k then C[g][h - s]
        else if s <= g < s + k then C[h][g - s]
        else P[g][h]))
  }

  /** With a symmetric propagated block the covariance stays symmetric. */
  lemma PropagationWriteSymmetric(P: Mat, s: nat, C: Mat, D: Mat, k: nat)
    requires Symmetric(P) && s + k <= |P| && Rect(C, |P|, k) && Symmetric(D) && |D| == k
    ensures Symmetric(PropagationWrite(P, s, C, D, k))
  {
  }

  /** The `k`-by-`k` block of `W` at (`s`, `s`) is `D`. */
  predicate HoldsBlock(W: Mat, s: nat, D: Mat, k: nat)
    requires Square(W, |W|) && s + k <= |W| && Square(D, k)
  {
    forall x, y :: 0 <= x < k && 0 <= y < k ==> W[s + x][s + y] == D[x][y]
  }

  /** A contiguous order over a covariance holding `D` at its span gathers `D`. */
  lemma GathersHeldBlock(W: Mat, order: seq<Var>, D: Mat)
    requires Square(W, |W|) && InBounds(order, |W|) && |order| > 0 && ContiguousPairs(order)
    requires 0 <= order[0].id && order[0].id + SumSizes(order) <= |W| && Square(D, SumSizes(order))
    requires HoldsBlock(W, order[0].id, D, SumSizes(order))
    ensures GetMarginalCovariance(W, order) == D
  {
    var k := SumSizes(order);
    var G := GetMarginalCovariance(W, order);
    forall a | 0 <= a < k
      ensures G[a] == D[a]
    {
      forall b | 0 <= b < k
        ensures G[a][b] == D[a][b]
      {
        ContiguousEntry(W, order, a, b);
      }
    }
  }

  /** After the write, the joint covariance of the contiguous `order_NEW` it
      was planned for is exactly the propagated block `D`. */
  lemma PropagationWriteGathers(P: Mat, order: seq<Var>, C: Mat, D: Mat)
    requires Square(P, |P|) && InBounds(order, |P|) && |order| > 0 && ContiguousPairs(order)
    requires Rect(C, |P|, SumSizes(order)) && Square(D, SumSizes(order))
    ensures 0 <= order[0].id && order[0].id + SumSizes(order) <= |P|
    ensures GetMarginalCovariance(PropagationWrite(P, order[0].id, C, D, SumSizes(order)), order) == D
  {
    ContiguousSpan(order, order[0].id);
    ContiguousSpan(order, order[0].id + SumSizes(order) - 1);
    var k := SumSizes(order);
    var s: nat := order[0].id;
    var W := PropagationWrite(P, s, C, D, k);
    assert HoldsBlock(W, s, D, k);
    GathersHeldBlock(W, order, D);
  }
}
