/** Dense matrices as sequences of rows.

    Only shape and entry placement matter to the covariance manager's
    bookkeeping, so entries are plain `real`s and no arithmetic on them is
    modelled.
 */
module Matrix {

  type Mat = seq<seq<real>>

  /** `m` has `n` rows of `n` entries each. */
  predicate Square(m: Mat, n: nat)
  {
    |m| == n && forall g :: 0 <= g < n ==> |m[g]| == n
  }

  /** `m` has `rows` rows of `cols` entries each (every Eigen matrix). */
  predicate Rect(m: Mat, rows: nat, cols: nat)
  {
    |m| == rows && forall g :: 0 <= g < rows ==> |m[g]| == cols
  }

  predicate Symmetric(m: Mat)
  {
    Square(m, |m|) && forall g, h :: 0 <= g < |m| && 0 <= h < |m| ==> m[g][h] == m[h][g]
  }

  /** Two square matrices of the same side that agree entry by entry are equal. */
  lemma SameEntries(a: Mat, b: Mat, n: nat)
    requires Square(a, n) && Square(b, n)
    requires forall g, h :: 0 <= g < n && 0 <= h < n ==> a[g][h] == b[g][h]
    ensures a == b
  {
    forall g | 0 <= g < n
      ensures a[g] == b[g]
    {
      assert forall h :: 0 <= h < n ==> a[g][h] == b[g][h];
    }
  }

  /** Eigen's `selfadjointView<Upper>()` copied into a dense matrix: the upper
      triangle (diagonal included) is kept and mirrored onto the lower one. */
  function MirrorUpper(m: Mat): (r: Mat)
    requires Square(m, |m|)
    ensures Square(r, |m|) && Symmetric(r)
    ensures forall g, h :: 0 <= g <= h < |m| ==> r[g][h] == m[g][h]
  {
    seq(|m|, g requires 0 <= g < |m| => seq(|m|, h requires 0 <= h < |m| => if g <= h then m[g][h] else m[h][g]))
  }

  /** Mirroring a symmetric matrix changes nothing. */
  lemma MirrorUpperOfSymmetric(m: Mat)
    requires Symmetric(m)
    ensures MirrorUpper(m) == m
  {
    SameEntries(MirrorUpper(m), m, |m|);
  }

  /** `s` times the `n` by `n` identity. */
  function ScaledIdentity(n: nat, s: real): (r: Mat)
    ensures Square(r, n)
  {
    seq(n, g => seq(n, h => if g == h then s else 0.0))
  }

  /** The leading `k` by `k` block of `m` (Eigen's `block(0, 0, k, k)`). */
  function TopLeft(m: Mat, k: nat): (r: Mat)
    requires Square(m, |m|) && k <= |m|
    ensures Square(r, k)
    ensures forall g, h :: 0 <= g < k && 0 <= h < k ==> r[g][h] == m[g][h]
  {
    seq(k, g requires 0 <= g < k => m[g][..k])
  }
}
