/** Sessions: the shared managers and the methods that drive one transaction at a time. */
module Sessions {
  import opened Common
  import opened Versions
  import opened TxnLog
  import opened TxnManager
  import opened Recovery
  import opened TxnSystem
  import opened Snapshots
  import opened Statements

  // ---- the objects as one state ----

  ghost predicate Managed(txns: TransactionManager, log: LogManager)
    reads txns, log
  {
    log.Valid() && forall t :: t in txns.active ==> txns.active[t].txnId == t < txns.nextTxnId
  }

  ghost function Txns(txns: TransactionManager): set<object>
    reads txns
  {
    set t | t in txns.active :: txns.active[t]
  }

  ghost function TxnOf(txn: Transaction): Txn
    reads txn
  {
    Txn(txn.readTs, txn.insertSet, txn.deleteSet)
  }

  ghost function RunningOf(active: map<int, Transaction>): map<int, Txn>
    reads set t | t in active :: active[t]
  {
    map t | t in active :: if t in active then TxnOf(active[t]) else Txn(0, [], [])
  }

  ghost function StateOf(txns: TransactionManager, versions: VersionStore, log: LogManager): Sys
    reads txns, versions, log, Txns(txns)
  {
    Sys(versions.store, txns.nextTxnId, txns.nextCommitTs, txns.lastCommitTs, RunningOf(txns.active), log.Records())
  }

  /** Opening the database again on a log file that holds the first `n` records of state `s`. */
  method Restart(existing: seq<Stored>, ghost s: Sys, ghost n: nat)
    returns (txns: TransactionManager, versions: VersionStore, log: LogManager)
    requires forall i :: 0 <= i < |existing| ==> existing[i].lsn == i
    requires n <= |s.log| && |existing| == n && forall i :: 0 <= i < n ==> existing[i].rec == s.log[i]
    ensures Managed(txns, log) && StateOf(txns, versions, log) == CrashStep(s, n)
  {
    log := new LogManager(existing);
    versions := new VersionStore();
    txns := new TransactionManager();
    assert log.Records() == s.log[..n];
    var recovery := new RecoveryManager(log, versions, txns);
    var committed := recovery.Recover();
  }

  class Session {
    const txns: TransactionManager
    const versions: VersionStore
    const log: LogManager
    var current: Transaction?
    var inExplicit: bool

    constructor (txns: TransactionManager, versions: VersionStore, log: LogManager)
      ensures this.txns == txns && this.versions == versions && this.log == log
      ensures current == null && !inExplicit
    {
      this.txns, this.versions, this.log := txns, versions, log;
      current, inExplicit := null, false;
    }

    ghost predicate Valid()
      reads this, txns, log
    {
      && Managed(txns, log)
      && (current != null ==> current.txnId in txns.active && txns.active[current.txnId] == current)
      && (inExplicit ==> current != null)
    }

    ghost function Owned(): set<object>
      reads this
    {
      if current == null then {} else {current}
    }

    ghost function State(): Sys
      reads txns, versions, log, Txns(txns)
    {
      StateOf(txns, versions, log)
    }

    method BeginTxn()
      requires Valid() && !inExplicit
      modifies this`current, txns, log
      ensures Valid() && current != null && fresh(current) && current.txnId == old(txns.nextTxnId)
      ensures State() == BeginStep(old(State())) && txns.active == old(txns.active)[current.txnId := current]
    {
      current := txns.Begin();
      var lsn := log.Append(Begin(current.txnId));
      assert State().running == BeginStep(old(State())).running;
    }

    /** Log the commit, then stamp the versions. */
    method FinalizeCommit(txn: Transaction)
      requires log.Valid()
      modifies log, versions
      ensures log.Valid() && log.Records() == old(log.Records()) + [Commit(txn.txnId, txn.commitTs)]
      ensures versions.store ==
        DeletesCommitted(InsertsCommitted(old(versions.store), txn.insertSet, txn.commitTs),
                         txn.deleteSet, txn.commitTs)
    {
      var lsn := log.Append(Commit(txn.txnId, txn.commitTs));
      var ts := txn.commitTs;
      var i := 0;
      while i < |txn.insertSet|
        invariant i <= |txn.insertSet|
        invariant log.Valid() && log.Records() == old(log.Records()) + [Commit(txn.txnId, ts)]
        invariant versions.store == InsertsCommitted(old(versions.store), txn.insertSet[..i], ts)
      {
        versions.CommitInsert(txn.insertSet[i], ts);
        i := i + 1;
        assert txn.insertSet[..i][..i - 1] == txn.insertSet[..i - 1];
      }
      assert txn.insertSet[..i] == txn.insertSet;
      ghost var stamped := versions.store;
      i := 0;
      while i < |txn.deleteSet|
        invariant i <= |txn.deleteSet|
        invariant log.Valid() && log.Records() == old(log.Records()) + [Commit(txn.txnId, ts)]
        invariant versions.store == DeletesCommitted(stamped, txn.deleteSet[..i], ts)
      {
        versions.CommitDelete(txn.deleteSet[i], ts);
        i := i + 1;
        assert txn.deleteSet[..i][..i - 1] == txn.deleteSet[..i - 1];
      }
      assert txn.deleteSet[..i] == txn.deleteSet;
    }

    method CommitTxn()
      requires Valid()
      modifies this`current, this`inExplicit, txns, versions, log, Owned()
      ensures Valid() && current == null
      ensures old(current) == null ==> State() == old(State()) && inExplicit == old(inExplicit)
      ensures old(current) != null ==> State() == CommitStep(old(State()), old(current).txnId) && !inExplicit
      ensures old(current) != null ==> txns.active == old(txns.active) - {old(current).txnId}
    {
      if current == null { return; }
      txns.Commit(current);
      FinalizeCommit(current);
      assert State().running == CommitStep(old(State()), old(current).txnId).running;
      current := null;
      inExplicit := false;
    }

    method AbortTxn()
      requires Valid()
      modifies this`current, this`inExplicit, txns, versions, log, Owned()
      ensures Valid() && current == null
      ensures old(current) == null ==> State() == old(State()) && inExplicit == old(inExplicit)
      ensures old(current) != null ==> State() == AbortStep(old(State()), old(current).txnId) && !inExplicit
      ensures old(current) != null ==> txns.active == old(txns.active) - {old(current).txnId}
    {
      if current == null { return; }
      var lsn := log.Append(Abort(current.txnId));
      UndoWrites(current);
      txns.Abort(current);
      assert State().running == AbortStep(old(State()), old(current).txnId).running;
      current := null;
      inExplicit := false;
    }

    method UndoWrites(txn: Transaction)
      modifies versions
      ensures versions.store == DeletesAborted(InsertsAborted(old(versions.store), txn.insertSet), txn.deleteSet)
    {
      var i := 0;
      while i < |txn.insertSet|
        invariant i <= |txn.insertSet|
        invariant versions.store == InsertsAborted(old(versions.store), txn.insertSet[..i])
      {
        versions.AbortInsert(txn.insertSet[i]);
        i := i + 1;
        assert txn.insertSet[..i][..i - 1] == txn.insertSet[..i - 1];
      }
      assert txn.insertSet[..i] == txn.insertSet;
      ghost var buried := versions.store;
      i := 0;
      while i < |txn.deleteSet|
        invariant i <= |txn.deleteSet|
        invariant versions.store == DeletesAborted(buried, txn.deleteSet[..i])
      {
        versions.AbortDelete(txn.deleteSet[i]);
        i := i + 1;
        assert txn.deleteSet[..i][..i - 1] == txn.deleteSet[..i - 1];
      }
      assert txn.deleteSet[..i] == txn.deleteSet;
    }

    /** Register a row the transaction has just written to a page. */
    method MarkInsert(rid: RID)
      requires Valid() && current != null
      modifies versions, log, current`insertSet
      ensures Valid()
      ensures State() == InsertStep(old(State()), current.txnId, rid)
    {
      var lsn := log.Append(Insert(current.txnId, rid));
      versions.OnInsert(rid, current.txnId);
      current.insertSet := current.insertSet + [rid];
      assert forall t :: t in txns.active && t != current.txnId ==> txns.active[t] != current;
      assert forall t :: t in txns.active ==>
        State().running[t] == InsertStep(old(State()), current.txnId, rid).running[t];
    }

    method MarkDelete(rid: RID)
      requires Valid() && current != null
      modifies versions, log, current`deleteSet
      ensures Valid()
      ensures State() == DeleteStep(old(State()), current.txnId, rid)
    {
      var lsn := log.Append(Delete(current.txnId, rid));
      versions.OnDelete(rid, current.txnId);
      current.deleteSet := current.deleteSet + [rid];
      assert forall t :: t in txns.active && t != current.txnId ==> txns.active[t] != current;
      assert forall t :: t in txns.active ==>
        State().running[t] == DeleteStep(old(State()), current.txnId, rid).running[t];
    }

    ghost function Current(): Option<int>
      reads this
    {
      if current == null then None else Some(current.txnId)
    }

    /** One SQL statement: transaction control, or writes inside an explicit or an automatic transaction. */
    method Execute(stmt: Statement) returns (ok: bool)
      requires Valid()
      requires Loose(State(), StepsOf(stmt, inExplicit, Current(), txns.nextTxnId))
      modifies this`current, this`inExplicit, txns, versions, log, Owned()
      ensures Valid() && ok == !(stmt.BeginStmt? && old(inExplicit))
      ensures State() == Run(old(State()), old(StepsOf(stmt, inExplicit, Current(), txns.nextTxnId)))
      ensures Effect(stmt, old(inExplicit), old(Current()), old(State()), State())
      ensures stmt.BeginStmt? && ok ==> inExplicit && current.txnId == old(txns.nextTxnId)
      ensures stmt.CommitStmt? || stmt.RollbackStmt? ==> current == null && !inExplicit
      ensures stmt.Writes? ==> inExplicit == old(inExplicit) && current == if inExplicit then old(current) else null
    {
      Executed(stmt, inExplicit, Current(), State());
      ok := true;
      match stmt
      case BeginStmt =>
        if inExplicit { return false; }
        BeginTxn();
        inExplicit := true;
      case CommitStmt => CommitTxn();
      case RollbackStmt => AbortTxn();
      case Writes(ws) =>
        ExecuteWrites(ws);
    }

    /** The writes of a statement, inside the open transaction or one of their own. */
    method ExecuteWrites(ws: seq<Write>)
      requires Valid() && Loose(State(), StepsOf(Writes(ws), inExplicit, Current(), txns.nextTxnId))
      modifies this`current, this`inExplicit, txns, versions, log, Owned()
      ensures Valid() && inExplicit == old(inExplicit) && current == if inExplicit then old(current) else null
      ensures State() == Run(old(State()), old(StepsOf(Writes(ws), inExplicit, Current(), txns.nextTxnId)))
    {
      hide WriteSteps;
      var autocommit := !inExplicit;
      ghost var s0, steps := State(), StepsOf(Writes(ws), inExplicit, Current(), txns.nextTxnId);
      ghost var opening: seq<Step> := if current == null then [DoBegin] else [];
      if current == null { BeginTxn(); }
      ghost var t := current.txnId;
      ghost var closing: seq<Step> := if autocommit then [DoCommit(t)] else [];
      assert steps == opening + (WriteSteps(t, ws) + closing);
      RunSplit(s0, opening, WriteSteps(t, ws) + closing);
      RunSplit(State(), WriteSteps(t, ws), closing);
      RunWrites(ws);
      if autocommit { CommitTxn(); }
    }

    method WriteOne(w: Write, ghost step: Step)
      requires Valid() && current != null && WriteSteps(current.txnId, [w]) == [step] && Tested(State(), step)
      modifies versions, log, current`insertSet, current`deleteSet
      ensures Valid() && State() == Apply(old(State()), step)
    {
      assert step == WriteSteps(current.txnId, [w])[0];
      match w
      case Ins(rid) => MarkInsert(rid);
      case Del(rid) => MarkDelete(rid);
    }

    method RunWrites(ws: seq<Write>)
      requires Valid() && current != null && Loose(State(), WriteSteps(current.txnId, ws))
      modifies versions, log, current`insertSet, current`deleteSet
      ensures Valid() && State() == Run(old(State()), WriteSteps(current.txnId, ws))
    {
      hide Tested, Apply, Run, Loose;
      ghost var s0, steps := State(), WriteSteps(current.txnId, ws);
      NoSteps(s0);
      var i := 0;
      while i < |ws|
        invariant i <= |ws| && Valid()
        invariant Loose(s0, steps[..i]) && State() == Run(s0, steps[..i])
      {
        NextStep(s0, steps, i);
        WriteOne(ws[i], steps[i]);
        i := i + 1;
      }
      assert steps[..i] == steps;
    }
  }
}
