# Covariance bookkeeping of the OpenVINS MSCKF state helper

This project models the index and block bookkeeping of `StateHelper`, the
covariance manager of the OpenVINS sliding-window filter. The filter keeps one
dense, square covariance matrix and an ordered list of active variables. Each
variable owns the rows and columns `id .. id + size` of that matrix. The
helper adds variables at the end (cloning a pose, initializing a landmark),
removes them (marginalization, followed by renumbering), and moves pairwise
blocks between the big matrix and a compact matrix laid out in a
caller-chosen order.

The model is functional:

- the covariance is a `seq<seq<real>>`;
- a variable is a record `Var(handle, id, size)`, where `handle` stands for
  the identity of the shared object;
- the filter is a `State(cov, vars)`.

Each operation maps one state to a new state or to an error value. The
`std::exit` paths of `StateHelper` become `Err` results with the same trigger
conditions. So do Eigen's size `assert`s on the measurement and noise
matrices (rows and columns of `H_R`, `H_L`, `res`, `R`, `Phi`, `Q`). The
bounds Eigen checks when a block is read at a variable's `id` are not
errors in the model: they are preconditions (`InBounds`), which the filter
invariant `Wf` supplies for the active variables. The properties are about
shape, offsets and which entry goes where; the only decisions that depend on
matrix values are the noise check and the chi-squared gate, which compare
reals. The numbers produced by the linear algebra
(`Cov·Phiᵀ`, `P_LL`, `-M_a·H_L⁻ᵀ`, the Mahalanobis distance, the chi-squared
quantile) are parameters of the model.

The invariant `FilterState.Wf`:

- the covariance is square;
- the active variables tile it in list order, with no gaps or overlaps and
  no empty block;
- no variable is listed twice.

Every operation that changes the state keeps `Wf`.

Modules:

- `Results`: option, result and error types.
- `Matrix`: shapes and entry-wise equality.
- `Layout`: prefix offsets, the compact layout of an order, and tiling.
- `FilterState`: the state and its invariant.
- `Accessors`: gather, scatter and the full copy.
- `Marginalizer`: `marginalize`, `marginalize_old_clone`, `marginalize_slam`.
- `Cloner`: `clone`, `augment_clone`.
- `Initializer`: the noise check, `initialize_invertible`, `initialize`.
- `Propagation`: the list checks and offset tables of `EKFPropagation` and
  `EKFUpdate`, and the propagated block write.

What the code checks, and what it leaves unchecked:

- `EKFPropagation` checks contiguity of `order_NEW` only, not `order_OLD`. It
  writes the propagated rows and columns starting at `order_NEW[0]->id()`.
- Measurement orderings (`H_order`) are never checked for contiguity.
- `set_initial_covariance` does not zero the blocks it does not reference. It
  keeps their old values (their upper-triangle values, after the mirror); its
  own comment (`StateHelper.cpp` line 251) assumes the covariance is block
  diagonal, so those blocks are expected to be zero already.

## Model

| member | source | states |
|---|---|---|
| Accessors.GetMarginalCovariance | ov_msckf/src/state/StateHelper.cpp:273-297 | The result is square, of side the sum of the sizes of the order. Block (i, k) at the prefix offsets of the order equals the covariance block at (id_i, id_k), for every pair, i = k included. |
| Accessors.GetFullCovariance | ov_msckf/src/state/StateHelper.cpp:300-313 | The full copy is the joint covariance of all active variables in list order. |
| Accessors.FullIsMarginalOfAll | ov_msckf/src/state/StateHelper.cpp:309 | For a well-formed state, gathering all variables in list order reproduces the covariance exactly. |
| Accessors.SetInitialCovariance | ov_msckf/src/state/StateHelper.cpp:256-266 | The result is symmetric (the upper triangle is mirrored). An upper entry whose row or column no variable of the order owns keeps its value. Every other upper entry holds the compact entry at the positions of the last variables of the order that own its row and its column: a later block write overrides an earlier one. |
| Accessors.ScatterPlacement | ov_msckf/src/state/StateHelper.cpp:257-265 | After the block copies and before the mirror, entries not owned on both sides keep their value. |
| Accessors.CompactPosOfDisjoint | ov_msckf/src/state/StateHelper.cpp:259-264 | When no two variables of the order overlap, row `id + x` of the i-th variable is read from compact position offset_i + x. |
| Accessors.ScatterLandsBlocks | ov_msckf/src/state/StateHelper.cpp:256-266 | Scattering a symmetric compact covariance over an order of non-overlapping variables puts every entry of every block (i, k) at (id_i + x, id_k + y), on both sides of the diagonal. |
| Accessors.ScatterThenGather | ov_msckf/src/state/StateHelper.cpp:256-266 | Scattering a symmetric compact covariance over non-overlapping variables and then gathering the same order returns it unchanged. |
| Accessors.GatherThenScatter | ov_msckf/src/state/StateHelper.cpp:284-293 | Gathering any order from a symmetric covariance and scattering it back leaves the covariance unchanged. |
| Marginalizer.RemoveBlock | ov_msckf/src/state/StateHelper.cpp:346-366 | Removing k rows and columns at m shrinks the side by exactly k. Entries before m keep their place. Entries after the block move up and left by k. The upper cross block is kept. The lower cross block is the transpose of the upper one. |
| Marginalizer.RemoveBlockSymmetric | ov_msckf/src/state/StateHelper.cpp:359 | Writing the lower cross block as a transpose keeps a symmetric covariance symmetric. |
| Marginalizer.Survivors | ov_msckf/src/state/StateHelper.cpp:372-382 | The rebuilt list holds exactly the handles of the old list other than the removed one. |
| Marginalizer.SurvivorsSkip | ov_msckf/src/state/StateHelper.cpp:372-382 | When the removed handle is listed once, at m, the survivors are the other variables in their old order, each shifted, and there is one fewer. |
| Marginalizer.SurvivorsOfTiling | ov_msckf/src/state/StateHelper.cpp:376-379 | In a tiling, variables before the removed one keep their id, and every variable after it has its id reduced by exactly the removed size. |
| Marginalizer.TiledAfterRemoval | ov_msckf/src/state/StateHelper.cpp:372-391 | Dropping a block and moving the later ones forward tiles the smaller covariance. |
| Marginalizer.Marginalize | ov_msckf/src/state/StateHelper.cpp:326-391 | The result is an error (NotInState) exactly when the handle is not a listed variable. Otherwise it keeps the invariant and shrinks the covariance by the variable's size, computing it by `RemoveBlock`. It keeps the survivors' order, shifting those after the removed variable. The removed variable gets id -1 and its handle is no longer listed. |
| Marginalizer.MarginalizeIsMarginal | ov_msckf/src/state/StateHelper.cpp:346-366 | For a symmetric covariance, the covariance after marginalization is the joint covariance of the remaining variables. |
| Marginalizer.MarginalizeOldClone | ov_msckf/src/state/StateHelper.cpp:685-696 | With at most `max_clone_size` clones nothing changes. Otherwise it fails exactly when the chosen time is missing or its clone is not active. On success it marginalizes that clone and erases its timestamp, so one entry fewer. |
| Marginalizer.MarginalizeSlam | ov_msckf/src/state/StateHelper.cpp:698-711 | It fails exactly when a landmark to remove is not active, or when two entries to remove share one variable (the second removal finds it gone). Any landmark map is accepted. A landmark is removed exactly when its flag is set and its key exceeds 4·max_aruco_features; all others are kept. The active variables lose exactly the removed landmarks. The invariant holds. Which landmarks survive, which variables survive and the covariance left are fixed by `MarginalizeSlamKept` and `MarginalizeSlamKeepsOthers`. |
| Marginalizer.MarginalizeSlamKept | ov_msckf/src/state/StateHelper.cpp:702-711 | When the sweep succeeds, the landmarks left in the map are exactly those it does not remove, in their old order, and the count of removals is the number of landmarks minus those kept. |
| Marginalizer.MarginalizeSlamKeepsOthers | ov_msckf/src/state/StateHelper.cpp:702-711 | When the sweep succeeds, the variables left are the old variables without the removed landmarks, in their old order and with the same sizes. For a symmetric covariance, the covariance left equals the joint covariance of those variables gathered from the old covariance, so repeated removal is one marginalization. |
| Marginalizer.MarginalizeSlamSharedLandmark | ov_msckf/src/state/StateHelper.cpp:702-707 | Two map entries for one flagged landmark, both above the ArUco range, make the sweep fail with NotInState, whatever the state. |
| Marginalizer.MarginalizeStep | ov_msckf/src/state/StateHelper.cpp:326-391 | A single removal always succeeds for a listed handle. Dropping further handles from the survivors matches dropping them from the other old variables, block for block. For a symmetric covariance, both lists gather the same covariance. |
| Marginalizer.WithoutMembers | ov_msckf/src/state/StateHelper.cpp:702-711 | Every variable left after dropping handles was listed before, and its handle is not among those dropped. |
| Accessors.GatherOfGather | ov_msckf/src/state/StateHelper.cpp:273-297 | Gathering blocks from a gathered covariance equals gathering the corresponding blocks from the full covariance directly, when each inner block relocates to its outer one. |
| Cloner.AppendCopy | ov_msckf/src/state/StateHelper.cpp:399-430 | The side grows by exactly k and every old entry is unchanged. The new diagonal block equals the source's diagonal block. The new rows and columns against the old state equal the source's rows and columns. |
| Cloner.AppendCopySymmetric | ov_msckf/src/state/StateHelper.cpp:428-430 | Cloning keeps a symmetric covariance symmetric. |
| Cloner.AppendCopyIsMarginal | ov_msckf/src/state/StateHelper.cpp:428-430 | The grown covariance is the joint covariance of all old variables followed by the cloned source. |
| Cloner.RemoveAppendedCopy | ov_msckf/src/state/StateHelper.cpp:406-430 | Removing the appended rows and columns gives back the original covariance. |
| Cloner.FindSource | ov_msckf/src/state/StateHelper.cpp:413-422 | The search finds no variable exactly when no active variable is the source or has it as a component. |
| Cloner.Clone | ov_msckf/src/state/StateHelper.cpp:394-447 | The result is an error (CloneSourceMissing) exactly when no active variable answers for the source. Otherwise the clone gets id = old dimension and the source's size, is appended last, the covariance is grown by `AppendCopy`, and the invariant holds. |
| Cloner.MarginalizeUndoesClone | ov_msckf/src/state/StateHelper.cpp:394-447 | Marginalizing a new clone gives back the filter it was cloned from. |
| Cloner.AugmentClone | ov_msckf/src/state/StateHelper.cpp:641-664 | It fails (CloneTimeTaken) when a clone already exists at the current timestamp. Otherwise it succeeds exactly when the pose can be cloned, and then files the clone under the timestamp, one more entry. |
| Cloner.MarginalizeOldCloneUndoesAugment | ov_msckf/src/state/StateHelper.cpp:653-664 | Once the window is over its size, marginalizing the clone just added restores the filter and the window. |
| Initializer.ScanFrom | ov_msckf/src/state/StateHelper.cpp:465-477 | It returns the first entry, in row-major order from the given position, that breaks isotropy. It returns none exactly when every entry from there on passes. |
| Initializer.NoiseVerdict | ov_msckf/src/state/StateHelper.cpp:461-477 | The check passes exactly when R is square, non-empty and R(0,0) times the identity. Otherwise it reports not-square, empty, or the first failing entry with its kind (diagonal versus off-diagonal), all earlier entries having passed. |
| Initializer.IsotropicByEntries | ov_msckf/src/state/StateHelper.cpp:467-471 | Every entry passes exactly when the matrix is its first entry times the identity. |
| Initializer.CheckNoise | ov_msckf/src/state/StateHelper.cpp:552-568 | The nested loops with early exit reach the same verdict as the row-major scan. |
| Initializer.TopLeftOfIsotropic | ov_msckf/src/state/StateHelper.cpp:505 | The leading block of an isotropic noise matrix passes the check, so the nested `initialize_invertible` call never fails it. |
| Initializer.AppendBlock | ov_msckf/src/state/StateHelper.cpp:617-621 | The side grows by k and every old entry is unchanged. The new upper cross block is the given block, the lower one its transpose, and the new diagonal block the given one. |
| Initializer.AppendBlockSymmetric | ov_msckf/src/state/StateHelper.cpp:619-621 | With a symmetric new diagonal block the covariance stays symmetric. |
| Initializer.RemoveAppendedBlock | ov_msckf/src/state/StateHelper.cpp:617-621 | Removing the appended block gives back the covariance it was added to. |
| Initializer.InitializeInvertible | ov_msckf/src/state/StateHelper.cpp:541-629 | An already-active variable is rejected (AlreadyInState). A non-isotropic noise gives the noise check's error. It succeeds exactly when, in addition, the system's dimensions agree. Then the variable gets id = old dimension and is appended, the covariance grows by `AppendBlock`, and the invariant holds. |
| Initializer.InitializeChecksRows | ov_msckf/src/state/StateHelper.cpp:494-520 | For every input whose residual length differs from the noise's, or whose `H_L` has two or more rows and is taller than the residual or `H_R`, the result is an error, and it is DimensionMismatch once the duplicate and noise checks pass. |
| Initializer.MarginalizeUndoesInitialize | ov_msckf/src/state/StateHelper.cpp:617-629 | Marginalizing a freshly initialized variable gives back the filter it was added to. |
| Initializer.Initialize | ov_msckf/src/state/StateHelper.cpp:450-539 | It makes the same duplicate and noise checks. It succeeds exactly when `H_L` has the new variable's columns, every matrix has at least its rows, `R`, `H_R` and `res` have the same rows, and `H_L` is no taller than `res` and `H_R` whenever the Givens sweep runs. A distance above `chi_2_mult` times the quantile is rejected. Otherwise the state is that of `initialize_invertible` on the leading block, with the remaining rows left for the update. |
| Propagation.PrefixOffsets | ov_msckf/src/state/StateHelper.cpp:75-80 | Entry i is the exclusive prefix sum of the sizes before variable i. The same loop builds `H_id` at lines 158-163 and 579-584. |
| Propagation.CheckPropagation | ov_msckf/src/state/StateHelper.cpp:43-80 | An empty order gives EmptyOrder. Otherwise a non-contiguous `order_NEW` gives NonContiguous at its first failing pair. The call succeeds exactly when the orders are non-empty, `order_NEW` is contiguous and Phi and Q have the summed sizes. The plan starts at `order_NEW[0]`'s id, has the summed sizes, and `Phi_id` is the prefix offsets of `order_OLD`. |
| Propagation.ContiguousSpan | ov_msckf/src/state/StateHelper.cpp:49-59 | A contiguous order owns exactly the rows from its first id to that id plus its total size. |
| Propagation.ContiguousMarginalIsRectangle | ov_msckf/src/state/StateHelper.cpp:115-121 | The joint covariance of a contiguous order is the single rectangle the propagation overwrites, starting at its first id. |
| Propagation.PropagationWrite | ov_msckf/src/state/StateHelper.cpp:115-121 | Entries outside the propagated rows and columns are kept. The propagated rows take the cross block transposed, the columns take the cross block, and the diagonal block takes the propagated covariance. |
| Propagation.PropagationWriteGathers | ov_msckf/src/state/StateHelper.cpp:36-121 | After the write planned from a contiguous `order_NEW`, the joint covariance of `order_NEW` is exactly the propagated block. |
| Propagation.PropagationWriteSymmetric | ov_msckf/src/state/StateHelper.cpp:119-121 | With a symmetric propagated block the covariance stays symmetric. |
| FilterState.AppendKeepsWf | ov_msckf/src/state/StateHelper.cpp:628-629 | Appending a new variable at id = old dimension keeps the invariant. |
| Layout.Find | ov_msckf/src/state/StateHelper.cpp:326 | It returns the first position of a handle, and none exactly when the handle is not listed. |

## Left out

- Kalman-gain numerics (`EKFUpdate` lines 185-224, the `M_a`/`P_LL` products and `H_L.inverse()` in `initialize_invertible`): floating-point dense linear algebra through Eigen. The resulting blocks enter the model as parameters.
- The Givens QR separation in `initialize` and the Boost chi-squared quantile: numerics and a foreign library call. The rotated dimensions, the distance `chi2` and the quantile are parameters.
- The follow-up `EKFUpdate` on the update part in `initialize` (line 536): it is an ordinary update, whose numerics are out of scope. `Initialize` reports the number of rows left for it.
- `EKFUpdate`'s dimension asserts and state updates (lines 150-151, 227-231): numerics. Only its `H_id` table is modelled.
- The negative-diagonal checks after propagation and update: sign tests on computed floats.
- The products inside `EKFPropagation` (`Cov_PhiT`, `Phi_Cov_PhiT`, lines 85-112): they enter `PropagationWrite` as parameters.
- The time-offset cross-covariance accumulation in `augment_clone` (lines 669-682) and the camera-intrinsics resync: float numerics and a side effect on external camera objects.
- The `PoseJPL` cast in `augment_clone`: cloning a pose yields a pose, so the cast cannot fail in this model.
- The mutex in `marginalize_old_clone`: concurrency. `margtimestep()` is a parameter, with `None` for its infinity answer.
- `check_if_subvariable` is the parameter `isComponent`. `Type::clone` and `Type::update` are not part of this model. A clone is a fresh handle supplied by the caller.
- Logging and process termination: each exit is an `Err` value instead.
- Block bounds at variable ids (`StateHelper.cpp` lines 97, 110, 119-121, 260-261, 289, 594): Eigen aborts when a block read at `id .. id + size` leaves the covariance. The model makes this a precondition (`InBounds` on the order, or `Wf` for the state) instead of an error, and `CheckPropagation` takes no covariance, so it does not check them.
- Accessors.SetInitialCovariance: requires the compact matrix to be exactly square of the summed sizes. `StateHelper` reads only its leading blocks, so it also accepts a larger matrix.
- Floating point: entries, the noise check and the chi-squared gate are modelled over reals. A NaN, which the `!=` comparisons of `StateHelper` reject at the first entry, has no counterpart.
- Integer widths: the `int` offsets, sizes and keys are modelled as unbounded integers, including the `(int)` cast of the landmark key in `marginalize_slam`. Overflow past 2^31 is not modelled.
- Initializer.AppendBlockSymmetric: the symmetry of `P_LL` is assumed of the caller, since it follows from the numerics.
