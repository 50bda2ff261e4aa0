/** The outcome of verifying a detached inclusion proof against a root. */
module VerifyResult {
  /**
   * Verification always completes: a matching root is a decisive pass, and
   * a mismatch or proof data of the wrong shape is a decisive fail. There
   * is no trivial or inconclusive pass: even the empty branch of a one-leaf
   * tree passes decisively when the leaf is the root.
   */
  datatype ProofVerifyResult = Failed | PassedDecisively
}
