/** Transactions and the manager that numbers and timestamps them. */
module TxnManager {
  import opened Common
  import opened Versions

  datatype TransactionState = RUNNING | COMMITTED | ABORTED

  /** A transaction at run time; `readTs` is the snapshot taken when it began. */
  class Transaction {
    const txnId: int
    const readTs: int
    var commitTs: int
    var state: TransactionState
    var insertSet: seq<RID>
    var deleteSet: seq<RID>

    constructor (id: int, readTs: int)
      ensures txnId == id && this.readTs == readTs && commitTs == INVALID_TS && state == RUNNING
      ensures insertSet == [] && deleteSet == []
    {
      txnId, this.readTs := id, readTs;
      commitTs, state := INVALID_TS, RUNNING;
      insertSet, deleteSet := [], [];
    }
  }

  class TransactionManager {
    var nextTxnId: int
    var nextCommitTs: int
    var lastCommitTs: int
    var active: map<int, Transaction>

    constructor ()
      ensures nextTxnId == 1 && nextCommitTs == 1 && lastCommitTs == 0 && active == map[]
    {
      nextTxnId, nextCommitTs, lastCommitTs, active := 1, 1, 0, map[];
    }

    method Begin() returns (txn: Transaction)
      modifies this
      ensures fresh(txn) && txn.txnId == old(nextTxnId) && txn.readTs == old(lastCommitTs)
      ensures txn.insertSet == [] && txn.deleteSet == [] && txn.state == RUNNING
      ensures nextTxnId == old(nextTxnId) + 1 && active == old(active)[txn.txnId := txn]
      ensures nextCommitTs == old(nextCommitTs) && lastCommitTs == old(lastCommitTs)
    {
      var id := nextTxnId;
      nextTxnId := nextTxnId + 1;
      txn := new Transaction(id, lastCommitTs);
      active := active[id := txn];
    }

    method Commit(txn: Transaction)
      modifies this, txn`commitTs, txn`state
      ensures txn.commitTs == old(nextCommitTs) && txn.state == COMMITTED
      ensures nextCommitTs == old(nextCommitTs) + 1 && nextTxnId == old(nextTxnId)
      ensures lastCommitTs == if old(lastCommitTs) < txn.commitTs then txn.commitTs else old(lastCommitTs)
      ensures active == old(active) - {txn.txnId}
    {
      var commitTs := nextCommitTs;
      nextCommitTs := nextCommitTs + 1;
      txn.commitTs := commitTs;
      txn.state := COMMITTED;
      if lastCommitTs < commitTs {
        lastCommitTs := commitTs;
      }
      active := active - {txn.txnId};
    }

    method Abort(txn: Transaction)
      modifies this`active, txn`state
      ensures txn.state == ABORTED && active == old(active) - {txn.txnId}
    {
      txn.state := ABORTED;
      active := active - {txn.txnId};
    }

    method Reset(nextTxn: int, lastCommit: int)
      modifies this`nextTxnId, this`nextCommitTs, this`lastCommitTs
      ensures nextTxnId == nextTxn && lastCommitTs == lastCommit && nextCommitTs == lastCommit + 1
    {
      nextTxnId := nextTxn;
      lastCommitTs := lastCommit;
      nextCommitTs := lastCommit + 1;
    }
  }
}
