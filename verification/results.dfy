/** Result types for the covariance manager.

    `StateHelper` reports every contract violation and terminates the
    process; here each such exit becomes a distinguishable `Err` value, with
    the same trigger conditions. Block reads at a variable's id are the
    exception: their bounds are preconditions of the model, not errors.
 */
module Results {

  datatype Option<+T> = None | Some(value: T)

  /** The contract violations the covariance manager detects. */
  datatype Error =
    | EmptyOrder                            // propagation called with an empty variable list
    | NonContiguous(at: nat)                // order[at] and order[at + 1] are not adjacent in the covariance
    | DimensionMismatch                     // a matrix does not have the size its variables imply
    | NotInState                            // marginalizing a variable that is not a top-level active variable
    | CloneSourceMissing                    // cloning a variable that no active variable resolves
    | AlreadyInState                        // initializing a variable that is already active
    | NoiseNotSquare                        // the measurement noise matrix is not square
    | NoiseEmpty                            // the measurement noise matrix has no rows
    | NoiseNotIsotropic(row: nat, col: nat) // a diagonal noise entry differs from the first one
    | NoiseNotDiagonal(row: nat, col: nat)  // an off-diagonal noise entry is not zero
    | CloneTimeTaken                        // a clone already exists at the current timestamp
    | CloneTimeMissing                      // the clone chosen for removal is not in the clone map

  datatype Result<+T> = Ok(value: T) | Err(error: Error)

  datatype Outcome = Pass | Fail(error: Error)
}
