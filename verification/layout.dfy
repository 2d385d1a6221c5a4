/** How variables are laid out: in the big covariance each variable owns the
    rows and columns `id .. id + size`; in a compact matrix built for a
    caller-chosen `order` the `i`-th variable owns the rows and columns
    starting at the exclusive prefix sum of the sizes before it.
 */
module Layout {
  import opened Results

  /** The identity of a variable object (`StateHelper` shares variables through
      `shared_ptr`s and compares them by address). */
  type Handle = nat

  /** One state block: its identity, its offset in the covariance (`-1` when
      inactive) and its dimension. */
  datatype Var = Var(handle: Handle, id: int, size: nat)

  function SumSizes(vs: seq<Var>): nat
  {
    if |vs| == 0 then 0 else vs[0].size + SumSizes(vs[1..])
  }

  /** Where the `i`-th variable of `vs` starts in a compact matrix laid out in
      the order of `vs`. */
  function Offset(vs: seq<Var>, i: nat): nat
    requires i <= |vs|
  {
    SumSizes(vs[..i])
  }

  /** Row (or column) `x` of the `i`-th block of the compact layout of `vs`. */
  function Slot(vs: seq<Var>, i: nat, x: nat): nat
    requires i <= |vs|
  {
    Offset(vs, i) + x
  }

  /** Row (or column) `g` of the covariance belongs to `v`. */
  predicate Covers(v: Var, g: int)
  {
    v.id <= g < v.id + v.size
  }

  /** Every block of `vs` lies inside an `n` by `n` covariance. */
  predicate InBounds(vs: seq<Var>, n: nat)
  {
    forall i :: 0 <= i < |vs| ==> 0 <= vs[i].id && vs[i].id + vs[i].size <= n
  }

  /** The blocks of `u` and `v` share no row of the covariance. */
  predicate Apart(u: Var, v: Var)
  {
    u.id + u.size <= v.id || v.id + v.size <= u.id
  }

  /** No two blocks of `vs` share a row of the covariance. */
  predicate Disjoint(vs: seq<Var>)
  {
    forall i, j {:trigger Apart(vs[i], vs[j])} :: 0 <= i < |vs| && 0 <= j < |vs| && i != j ==> Apart(vs[i], vs[j])
  }

  /** Each variable of `vs` starts where the previous one ends. */
  predicate ContiguousPairs(vs: seq<Var>)
  {
    forall i :: 0 <= i < |vs| - 1 ==> vs[i].id + vs[i].size == vs[i + 1].id
  }

  /** `vs` tiles the rows `0 .. n` of the covariance in list order, with no
      empty block: the layout every state keeps. */
  predicate Tiled(vs: seq<Var>, n: nat)
  {
    && (forall i :: 0 <= i < |vs| ==> vs[i].id == Offset(vs, i) && vs[i].size > 0)
    && SumSizes(vs) == n
  }

  function Handles(vs: seq<Var>): (hs: seq<Handle>)
    ensures |hs| == |vs|
    ensures forall i :: 0 <= i < |vs| ==> hs[i] == vs[i].handle
  {
    seq(|vs|, i requires 0 <= i < |vs| => vs[i].handle)
  }

  predicate DistinctHandles(vs: seq<Var>)
  {
    forall i, j :: 0 <= i < j < |vs| ==> vs[i].handle != vs[j].handle
  }

  /** The first position of handle `h` in `vs` (`std::find`). */
  function Find(vs: seq<Var>, h: Handle): (r: Option<nat>)
    ensures r.None? <==> h !in Handles(vs)
    ensures r.Some? ==> r.value < |vs| && vs[r.value].handle == h
    ensures r.Some? ==> forall j :: 0 <= j < r.value ==> vs[j].handle != h
  {
    if |vs| == 0 then None
    else if vs[0].handle == h then Some(0)
    else
      match Find(vs[1..], h)
      case None =>
        assert Handles(vs) == [vs[0].handle] + Handles(vs[1..]);
        None
      case Some(i) => Some(i + 1)
  }

  //--------------------------------------------------------------------------
  // Prefix sums of sizes
  //--------------------------------------------------------------------------

  lemma {:induction false} SumSizesAppend(a: seq<Var>, b: seq<Var>)
    ensures SumSizes(a + b) == SumSizes(a) + SumSizes(b)
  {
    if |a| == 0 {
      assert a + b == b;
    } else {
      assert (a + b)[1..] == a[1..] + b;
      SumSizesAppend(a[1..], b);
    }
  }

  /** The sum of sizes ignores everything but the sizes. */
  lemma {:induction false} SumSizesBySize(a: seq<Var>, b: seq<Var>)
    requires |a| == |b|
    requires forall i :: 0 <= i < |a| ==> a[i].size == b[i].size
    ensures SumSizes(a) == SumSizes(b)
  {
    if |a| > 0 {
      SumSizesBySize(a[1..], b[1..]);
    }
  }

  lemma OffsetStep(vs: seq<Var>, i: nat)
    requires i < |vs|
    ensures Offset(vs, i + 1) == Offset(vs, i) + vs[i].size
  {
    assert vs[..i + 1] == vs[..i] + [vs[i]];
    SumSizesAppend(vs[..i], [vs[i]]);
  }

  lemma OffsetAll(vs: seq<Var>)
    ensures Offset(vs, |vs|) == SumSizes(vs)
  {
    assert vs[..|vs|] == vs;
  }

  /** Offsets computed in a prefix of `vs` agree with those in `vs`. */
  lemma OffsetInPrefix(vs: seq<Var>, m: nat)
    requires m <= |vs|
    ensures forall j :: 0 <= j <= m ==> Offset(vs[..m], j) == Offset(vs, j)
  {
    forall j | 0 <= j <= m
      ensures Offset(vs[..m], j) == Offset(vs, j)
    {
      assert vs[..m][..j] == vs[..j];
    }
  }

  /** A block ends no later than any later block starts. */
  lemma {:induction false} OffsetGrows(vs: seq<Var>, i: nat, j: nat)
    requires i < j <= |vs|
    ensures Offset(vs, i) + vs[i].size <= Offset(vs, j)
    decreases j - i
  {
    OffsetStep(vs, i);
    if i + 1 < j {
      OffsetGrows(vs, i + 1, j);
    }
  }

  lemma SlotBound(vs: seq<Var>, i: nat, x: nat)
    requires i < |vs| && x < vs[i].size
    ensures Slot(vs, i, x) < SumSizes(vs)
  {
    OffsetGrows(vs, i, |vs|);
    OffsetAll(vs);
  }

  //--------------------------------------------------------------------------
  // From compact positions back to covariance positions
  //--------------------------------------------------------------------------

  /** The block of the compact layout of `vs` that holds position `a`. */
  function BlockOf(vs: seq<Var>, a: nat): (i: nat)
    requires a < SumSizes(vs)
    ensures i < |vs| && Offset(vs, i) <= a < Offset(vs, i) + vs[i].size
    decreases |vs|
  {
    var n := |vs|;
    OffsetAll(vs);
    OffsetStep(vs, n - 1);
    if a >= Offset(vs, n - 1) then n - 1
    else
      OffsetInPrefix(vs, n - 1);
      OffsetAll(vs[..n - 1]);
      BlockOf(vs[..n - 1], a)
  }

  /** The covariance row (or column) that compact position `a` copies. */
  function GlobalIndex(vs: seq<Var>, a: nat): int
    requires a < SumSizes(vs)
  {
    var i := BlockOf(vs, a);
    vs[i].id + (a - Offset(vs, i))
  }

  lemma BlockOfUnique(vs: seq<Var>, i: nat, a: nat)
    requires i < |vs| && Offset(vs, i) <= a < Offset(vs, i) + vs[i].size
    ensures a < SumSizes(vs) && BlockOf(vs, a) == i
  {
    SlotBound(vs, i, a - Offset(vs, i));
    var j := BlockOf(vs, a);
    if j < i {
      OffsetGrows(vs, j, i);
    } else if j > i {
      OffsetGrows(vs, i, j);
    }
  }

  /** Position `x` of the `i`-th compact block copies row `id + x` of the
      `i`-th variable. */
  lemma SlotLocates(vs: seq<Var>)
    ensures forall i: nat, x: nat :: i < |vs| && x < vs[i].size ==>
              Slot(vs, i, x) < SumSizes(vs) && GlobalIndex(vs, Slot(vs, i, x)) == vs[i].id + x
  {
    forall i: nat, x: nat | i < |vs| && x < vs[i].size
      ensures Slot(vs, i, x) < SumSizes(vs) && GlobalIndex(vs, Slot(vs, i, x)) == vs[i].id + x
    {
      BlockOfUnique(vs, i, Slot(vs, i, x));
    }
  }

  lemma GlobalIndexInBounds(vs: seq<Var>, n: nat)
    requires InBounds(vs, n)
    ensures forall a: nat :: a < SumSizes(vs) ==> 0 <= GlobalIndex(vs, a) < n
  {
  }

  /** The last variable of `vs` that covers row `g` (a later write in the
      loops of `set_initial_covariance` overrides an earlier one). */
  function LastCover(vs: seq<Var>, g: int): (r: Option<nat>)
    ensures r.Some? ==> r.value < |vs| && Covers(vs[r.value], g)
    ensures r.Some? ==> forall j :: r.value < j < |vs| ==> !Covers(vs[j], g)
    ensures r.None? ==> forall j :: 0 <= j < |vs| ==> !Covers(vs[j], g)
  {
    if |vs| == 0 then None
    else if Covers(vs[|vs| - 1], g) then Some(|vs| - 1)
    else LastCover(vs[..|vs| - 1], g)
  }

  /** In a disjoint order the last cover of a row is its only cover. */
  lemma {:induction false} LastCoverOfDisjoint(vs: seq<Var>, i: nat, g: int)
    requires Disjoint(vs) && i < |vs| && Covers(vs[i], g)
    ensures LastCover(vs, g) == Some(i)
  {
    forall j | i < j < |vs|
      ensures !Covers(vs[j], g)
    {
      assert Apart(vs[i], vs[j]);
    }
  }

  //--------------------------------------------------------------------------
  // Contiguity
  //--------------------------------------------------------------------------

  /** In a contiguous order each variable sits at its compact offset from the
      first variable: the compact layout is one rectangle of the covariance. */
  lemma {:induction false} ContiguousOffset(vs: seq<Var>, i: nat)
    requires ContiguousPairs(vs) && i < |vs|
    ensures vs[i].id == vs[0].id + Offset(vs, i)
  {
    if i > 0 {
      ContiguousOffset(vs, i - 1);
      OffsetStep(vs, i - 1);
    }
  }

  /** A tiling is contiguous, in bounds and disjoint. */
  lemma TiledShape(vs: seq<Var>, n: nat)
    requires Tiled(vs, n)
    ensures ContiguousPairs(vs) && InBounds(vs, n) && Disjoint(vs)
    ensures forall i, j :: 0 <= i < j < |vs| ==> vs[i].id < vs[j].id
  {
    OffsetAll(vs);
    forall i | 0 <= i < |vs| - 1
      ensures vs[i].id + vs[i].size == vs[i + 1].id
    {
      OffsetStep(vs, i);
    }
    forall i | 0 <= i < |vs|
      ensures 0 <= vs[i].id && vs[i].id + vs[i].size <= n
    {
      OffsetGrows(vs, i, |vs|);
    }
    forall i, j | 0 <= i < j < |vs|
      ensures vs[i].id + vs[i].size <= vs[j].id
    {
      OffsetGrows(vs, i, j);
    }
    forall i, j | 0 <= i < |vs| && 0 <= j < |vs| && i != j
      ensures Apart(vs[i], vs[j])
    {
      if i < j {
        OffsetGrows(vs, i, j);
      } else {
        OffsetGrows(vs, j, i);
      }
    }
  }
}
