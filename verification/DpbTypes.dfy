/** What the two decoded-picture buffers share (mft/dpb.h). */
module DpbTypes {
  datatype PoolEntry = PoolEntry(outputFrame: nat, colmv: nat)

  datatype Status = Ok | InvalidInput | Full

  datatype HoldReason = Reorder | Ready | Consumer

  /** A call that may end in a failed RKMPP_VERIFY, which is a trap. */
  datatype Outcome<D> = Trap | Done(dpb: D)

  const MAX_SLOTS: nat := 16

  /** An empty or oversized pool and null buffers are rejected. */
  predicate PoolOk(pool: seq<PoolEntry>) {
    0 < |pool| <= MAX_SLOTS && forall i | 0 <= i < |pool| :: pool[i].outputFrame != 0 && pool[i].colmv != 0
  }
}
