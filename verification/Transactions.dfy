/** Transaction snapshots, version headers and the visibility test of `transaction.rs`. */
module Transactions {
  import opened Prelude

  type TransactionId = nat

  /** The one snapshot shared by every transaction of a database. */
  datatype Snapshot = Snapshot(
    smallestActive: TransactionId,
    lastPossible: TransactionId,
    active: set<TransactionId>)

  datatype Header = Header(createdBy: TransactionId, deletedBy: Option<TransactionId>)

  /** Whether a version with header `h` is visible to transaction `txn`. */
  predicate IsVisible(h: Header, txn: TransactionId, snap: Snapshot) {
    if h.createdBy == txn then
      h.deletedBy != Some(txn)
    else if h.createdBy > snap.lastPossible then
      false
    else if h.createdBy in snap.active then
      false
    else
      match h.deletedBy
      case None => true
      case Some(d) =>
        if d == txn then false
        else if d < snap.smallestActive then false
        else if d <= snap.lastPossible && d !in snap.active then false
        else true
  }
}
