/**
 What the chunk store's contract calls hand back. Submitting a transaction and
 waiting for it either yields a mined receipt or throws.
 */
module Remote {

  /** A mined transaction's receipt; `status` 0 means the transaction reverted. */
  datatype Receipt = Receipt(status: nat)

  /** The result of submitting a transaction and awaiting `tx.wait()`. */
  datatype TxResult = Mined(receipt: Receipt) | Threw

  /** A write counts as done when it was mined with a truthy status. */
  predicate Confirmed(t: TxResult)
  {
    t.Mined? && t.receipt.status != 0
  }
}
