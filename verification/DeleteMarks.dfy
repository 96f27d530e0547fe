/** Deleting a row: when a delete keeps its promise, and how the program can lose it. */
module DeleteMarks {
  import opened Common
  import opened Versions
  import opened TxnLog
  import opened TxnSystem
  import opened Snapshots
  import Recovery

  /** Every running transaction sees, among the registered rows, its snapshot with its own writes. */
  ghost predicate Faithful(s: Sys) {
    forall u, rid :: u in s.running && rid in s.store ==>
      (Sees(s, u, rid) <==>
         rid in Snapshot(s.log, s.running[u].readTs)
                + (set r | r in s.running[u].ins) - (set r | r in s.running[u].del))
  }

  /** No transaction whose snapshot covers the commit of a delete sees the row. */
  ghost predicate DeletesHold(s: Sys) {
    forall t, ts, rid, u :: Delete(t, rid) in s.log && Commit(t, ts) in s.log && Covers(s, u, ts) && rid in s.store ==>
      !Sees(s, u, rid)
  }

  predicate Covers(s: Sys, u: int, ts: int) {
    u in s.running && ts <= s.running[u].readTs
  }

  lemma InvSound(s: Sys)
    requires Inv(s)
    ensures Faithful(s) && DeletesHold(s)
  {
    hide Inv, Snapshot, Sees, CommitCount;
    forall u, rid | u in s.running && rid in s.store
      ensures Sees(s, u, rid) <==>
        rid in Snapshot(s.log, s.running[u].readTs) + (set r | r in s.running[u].ins) - (set r | r in s.running[u].del)
    {
      SnapshotIsolation(s, u, rid);
    }
    forall t, ts, rid, u | Delete(t, rid) in s.log && Commit(t, ts) in s.log && Covers(s, u, ts) && rid in s.store
      ensures !Sees(s, u, rid)
    {
      CommittedDeleteUnseen(s, t, ts, rid, u);
    }
  }

  lemma CommittedDeleteUnseen(s: Sys, t: int, ts: int, rid: RID, u: int)
    requires Inv(s) && Delete(t, rid) in s.log && Commit(t, ts) in s.log && u in s.running && rid in s.store
    requires ts <= s.running[u].readTs
    ensures !Sees(s, u, rid)
  {
    hide WellLogged, CommitCount;
    WellLoggedFacts(s.log);
    assert RunOk(s, u) && RowOk(s, rid);
    SeesByLog(s, u, rid);
    assert Among(s.log, t, s.running[u].readTs) && Committed(s.log, t);
    assert Insert(u, rid) in s.log ==> t == u;
  }

  // ---- the guard is necessary and sufficient ----

  /** A visible, registered row may be deleted exactly if it carries no mark: then every continuation is sound, and
      otherwise some continuation loses a committed delete. */
  lemma MarkDecides(s: Sys, t: int, rid: RID)
    requires Inv(s) && t in s.running && rid in s.store && Sees(s, t, rid)
    ensures s.store[rid].endTxn == INVALID_TXN_ID <==>
      forall steps :: ValidRun(DeleteStep(s, t, rid), steps) ==> Faithful(Run(DeleteStep(s, t, rid), steps))
    ensures s.store[rid].endTxn == INVALID_TXN_ID <==>
      forall steps :: ValidRun(DeleteStep(s, t, rid), steps) ==> DeletesHold(Run(DeleteStep(s, t, rid), steps))
  {
    hide Inv, Faithful, DeletesHold, ValidRun, Run, Loose, DeleteStep;
    var d := DeleteStep(s, t, rid);
    if s.store[rid].endTxn == INVALID_TXN_ID {
      DeleteKeeps(s, t, rid);
      forall steps | ValidRun(d, steps) ensures Faithful(Run(d, steps)) && DeletesHold(Run(d, steps)) {
        RunKeeps(d, steps);
        InvSound(Run(d, steps));
      }
    } else {
      var steps := LosingRun(s, t, rid);
      assert ValidRun(d, steps) && !Faithful(Run(d, steps)) && !DeletesHold(Run(d, steps));
    }
  }

  /** The continuation that loses a delete of the transaction whose mark `t` overwrites. */
  lemma LosingRun(s: Sys, t: int, rid: RID) returns (steps: seq<Step>)
    requires Inv(s) && t in s.running && rid in s.store && Sees(s, t, rid) && s.store[rid].endTxn != INVALID_TXN_ID
    ensures var d := DeleteStep(s, t, rid);
      ValidRun(d, steps) && !Faithful(Run(d, steps)) && !DeletesHold(Run(d, steps))
  {
    hide Inv, Faithful, DeletesHold, ValidRun, Run, Loose, DeleteStep, Sees;
    var u := s.store[rid].endTxn;
    MarkedBy(s, t, rid);
    if s.store[rid].endTs == INVALID_TS {
      steps := [DoCommit(u), DoAbort(t), DoBegin];
      LostAfterAbort(s, t, u, rid);
    } else {
      steps := [DoBegin];
      LostAtOnce(s, t, u, rid);
    }
  }

  lemma NotCommitted(s: Sys, u: int)
    requires Inv(s) && u in s.running
    ensures forall ts :: Commit(u, ts) !in s.log
  {
    hide WellLogged, CommitCount;
    assert RunOk(s, u) && !Committed(s.log, u);
  }

  /** Whose mark a seen row can carry. */
  lemma MarkedBy(s: Sys, t: int, rid: RID)
    requires Inv(s) && t in s.running && rid in s.store && Sees(s, t, rid) && s.store[rid].endTxn != INVALID_TXN_ID
    ensures var u, v := s.store[rid].endTxn, s.store[rid];
      && u != t && Delete(u, rid) in s.log && v.beginTs != INVALID_TS && v.beginTs <= s.lastCommit
      && if v.endTs == INVALID_TS then u in s.running
        else u !in s.running && Commit(u, v.endTs) in s.log && v.endTs <= s.lastCommit
  {
    hide WellLogged, CommitCount;
    var v := s.store[rid];
    assert RunOk(s, t) && RowOk(s, rid) && RowSound(s, rid, v);
    if v.endTxn in s.running { NotCommitted(s, v.endTxn); }
  }

  // ---- a committed mark is overwritten ----

  lemma LostAtOnce(s: Sys, t: int, u: int, rid: RID)
    requires Inv(s) && t in s.running && rid in s.store && Sees(s, t, rid)
    requires u == s.store[rid].endTxn != INVALID_TXN_ID && s.store[rid].endTs != INVALID_TS
    ensures var d := DeleteStep(s, t, rid);
      ValidRun(d, [DoBegin]) && !Faithful(Run(d, [DoBegin])) && !DeletesHold(Run(d, [DoBegin]))
  {
    hide Inv, Faithful, DeletesHold, ValidRun, Run, Loose, Snapshot, Sees, CommitCount;
    var d := DeleteStep(s, t, rid);
    MarkedBy(s, t, rid);
    RunNone(d);
    RunSnoc(d, [], DoBegin);
    assert [] + [DoBegin] == [DoBegin];
    var e, n := BeginStep(d), s.lastCommit;
    CountsOf(s);
    Appended(s.log, Delete(t, rid));
    Appended(d.log, Begin(d.nextTxn));
    SnapshotAppend(s.log, Delete(t, rid), n);
    SnapshotAppend(d.log, Begin(d.nextTxn), n);
    RemovedBefore(s, u, s.store[rid].endTs, rid);
    NewSees(e, rid);
    Witness(e, u, s.store[rid].endTs, rid);
  }

  lemma RemovedBefore(s: Sys, u: int, ts: int, rid: RID)
    requires Inv(s) && Delete(u, rid) in s.log && Commit(u, ts) in s.log && ts <= s.lastCommit
    ensures rid !in Snapshot(s.log, s.lastCommit)
  {
    hide WellLogged, CommitCount;
    SnapshotIs(s.log, s.lastCommit, rid);
    assert Among(s.log, u, s.lastCommit);
  }

  /** A transaction that has just begun sees a row whose creator has committed and that nobody has deleted for good. */
  lemma NewSees(e: Sys, rid: RID)
    requires e.nextTxn - 1 in e.running && e.running[e.nextTxn - 1].readTs == e.lastCommit && rid in e.store
    requires var v := e.store[rid];
      v.beginTs != INVALID_TS && v.beginTs <= e.lastCommit && v.endTs == INVALID_TS && v.endTxn != e.nextTxn - 1
    ensures Sees(e, e.nextTxn - 1, rid)
  {
  }

  // ---- a mark of a running transaction is overwritten ----

  lemma RunAfterDelete(s: Sys, t: int, rid: RID, u: int)
    requires Inv(s) && t in s.running && Sees(s, t, rid) && u in s.running
    ensures RunOk(DeleteStep(s, t, rid), u)
  {
    hide WellLogged, CommitCount;
    assert RunOk(s, t) && RunOk(s, u);
    if Insert(u, rid) in s.log { SeenNotRunning(s, t, rid, u); }
    WriteRuns(s, DeleteStep(s, t, rid), t, Delete(t, rid), u);
  }

  lemma RunAfterCommit(s: Sys, u: int, t: int)
    requires t in s.running && u in s.running && t != u && RunOk(s, t)
    ensures t in CommitStep(s, u).running && RunOk(CommitStep(s, u), t)
  {
    hide CommitCount;
    Appended(s.log, Commit(u, s.nextCommit));
  }

  /** The record and the log after `t` overwrites `u`'s mark, `u` commits and `t` aborts. */
  lemma Overwritten(s: Sys, t: int, u: int, rid: RID)
    requires Inv(s) && t in s.running && rid in s.store && Sees(s, t, rid)
    requires u == s.store[rid].endTxn != INVALID_TXN_ID && s.store[rid].endTs == INVALID_TS
    ensures u in s.running && u != t && Delete(u, rid) in s.log
    ensures var a := AbortStep(CommitStep(DeleteStep(s, t, rid), u), t);
      && rid in a.store && a.store[rid] == s.store[rid].(endTxn := INVALID_TXN_ID, endTs := INVALID_TS)
  {
    hide CommitCount, WellLogged, InsertsCommitted, DeletesCommitted, InsertsAborted, DeletesAborted;
    MarkedBy(s, t, rid);
    assert RunOk(s, t) && RunOk(s, u) && RowOk(s, rid) && RowComplete(s, rid);
    assert Insert(t, rid) !in s.log && Insert(u, rid) !in s.log;
    var d := DeleteStep(s, t, rid);
    Appended(s.log, Delete(t, rid));
    RunAfterDelete(s, t, rid, u);
    RunAfterDelete(s, t, rid, t);
    CommittedMeta(d, u, rid);
    RunAfterCommit(d, u, t);
    var c := CommitStep(d, u);
    Appended(d.log, Commit(u, d.nextCommit));
    AbortedMeta(c, t, rid);
  }

  lemma LostAfterAbort(s: Sys, t: int, u: int, rid: RID)
    requires Inv(s) && t in s.running && rid in s.store && Sees(s, t, rid)
    requires u == s.store[rid].endTxn != INVALID_TXN_ID && s.store[rid].endTs == INVALID_TS
    ensures var d, steps := DeleteStep(s, t, rid), [DoCommit(u), DoAbort(t), DoBegin];
      ValidRun(d, steps) && !Faithful(Run(d, steps)) && !DeletesHold(Run(d, steps))
  {
    hide Inv, Faithful, DeletesHold, ValidRun, Run, Loose, Snapshot, CommitCount, InsertsCommitted, DeletesCommitted,
         InsertsAborted, DeletesAborted;
    var d := DeleteStep(s, t, rid);
    Overwritten(s, t, u, rid);
    MarkedBy(s, t, rid);
    ThreeSteps(d, DoCommit(u), DoAbort(t), DoBegin);
    var c, ts := CommitStep(d, u), d.nextCommit;
    var a := AbortStep(c, t);
    var e := BeginStep(a);
    CountsOf(s);
    Appended(s.log, Delete(t, rid));
    Appended(d.log, Commit(u, ts));
    Appended(c.log, Abort(t));
    Appended(a.log, Begin(a.nextTxn));
    SnapshotAppend(d.log, Commit(u, ts), ts);
    SnapshotAppend(c.log, Abort(t), ts);
    SnapshotAppend(a.log, Begin(a.nextTxn), ts);
    assert rid in DeletedBy(d.log, u) by { assert Delete(u, rid) in d.log; }
    NewSees(e, rid);
    Witness(e, u, ts, rid);
  }

  lemma CountsOf(s: Sys)
    requires Inv(s)
    ensures s.lastCommit == CommitCount(s.log) >= 0 && s.nextCommit == s.lastCommit + 1 && s.nextTxn >= 1
    ensures s.nextTxn !in s.running
  {
    hide WellLogged, CommitCount;
    assert forall t :: t in s.running ==> RunOk(s, t) && t < s.nextTxn;
  }

  lemma ThreeSteps(s: Sys, a: Step, b: Step, c: Step)
    requires Enabled(s, a) && Enabled(Apply(s, a), b) && Enabled(Apply(Apply(s, a), b), c)
    ensures ValidRun(s, [a, b, c]) && Run(s, [a, b, c]) == Apply(Apply(Apply(s, a), b), c)
  {
    hide Apply;
    RunNone(s);
    RunSnoc(s, [], a);
    assert [] + [a] == [a];
    RunSnoc(s, [a], b);
    assert [a] + [b] == [a, b];
    RunSnoc(s, [a, b], c);
    assert [a, b] + [c] == [a, b, c];
  }

  /** A new transaction that sees a row with a committed delete breaks both promises. */
  lemma Witness(e: Sys, u: int, ts: int, rid: RID)
    requires e.nextTxn - 1 in e.running && e.running[e.nextTxn - 1] == Txn(e.lastCommit, [], []) && rid in e.store
    requires Delete(u, rid) in e.log && Commit(u, ts) in e.log && ts <= e.lastCommit && Sees(e, e.nextTxn - 1, rid)
    requires rid !in Snapshot(e.log, e.lastCommit)
    ensures !Faithful(e) && !DeletesHold(e)
  {
    hide Snapshot, Sees;
    var w := e.nextTxn - 1;
    assert !Faithful(e) by {
      assert Sees(e, w, rid);
      assert rid !in Snapshot(e.log, e.running[w].readTs)
                     + (set r | r in e.running[w].ins) - (set r | r in e.running[w].del);
    }
    assert !DeletesHold(e) by {
      assert Delete(u, rid) in e.log && Commit(u, ts) in e.log && Covers(e, w, ts) && Sees(e, w, rid);
    }
  }

  /** The other order: the transaction whose mark is gone aborts, and the commit of the overwriting one finds
      no mark. */
  lemma LostAfterCommit(s: Sys, t: int, u: int, rid: RID)
    requires Inv(s) && t in s.running && rid in s.store && Sees(s, t, rid)
    requires u == s.store[rid].endTxn != INVALID_TXN_ID && s.store[rid].endTs == INVALID_TS
    ensures var d, steps := DeleteStep(s, t, rid), [DoAbort(u), DoCommit(t), DoBegin];
      ValidRun(d, steps) && !Faithful(Run(d, steps)) && !DeletesHold(Run(d, steps))
  {
    hide Inv, Faithful, DeletesHold, ValidRun, Run, Loose, Snapshot, CommitCount, InsertsCommitted, DeletesCommitted,
         InsertsAborted, DeletesAborted;
    var d := DeleteStep(s, t, rid);
    Unmarked(s, t, u, rid);
    MarkedBy(s, t, rid);
    ThreeSteps(d, DoAbort(u), DoCommit(t), DoBegin);
    var a, ts := AbortStep(d, u), d.nextCommit;
    var c := CommitStep(a, t);
    var e := BeginStep(c);
    CountsOf(s);
    Appended(s.log, Delete(t, rid));
    Appended(d.log, Abort(u));
    Appended(a.log, Commit(t, ts));
    Appended(c.log, Begin(c.nextTxn));
    SnapshotAppend(a.log, Commit(t, ts), ts);
    SnapshotAppend(c.log, Begin(c.nextTxn), ts);
    assert rid in DeletedBy(a.log, t) by { assert Delete(t, rid) in a.log; }
    Witness(e, t, ts, rid);
  }

  lemma RunAfterAbort(s: Sys, u: int, t: int)
    requires t in s.running && u in s.running && t != u && RunOk(s, t)
    ensures t in AbortStep(s, u).running && RunOk(AbortStep(s, u), t)
  {
    hide CommitCount;
    Appended(s.log, Abort(u));
  }

  /** The record after `t` overwrites `u`'s mark, `u` aborts and `t` commits: stamped, but not marked. */
  lemma Unmarked(s: Sys, t: int, u: int, rid: RID)
    requires Inv(s) && t in s.running && rid in s.store && Sees(s, t, rid)
    requires u == s.store[rid].endTxn != INVALID_TXN_ID && s.store[rid].endTs == INVALID_TS
    ensures u in s.running && u != t
    ensures var c := CommitStep(AbortStep(DeleteStep(s, t, rid), u), t);
      && rid in c.store && c.store[rid] == s.store[rid].(endTxn := INVALID_TXN_ID, endTs := s.nextCommit)
  {
    hide CommitCount, WellLogged, InsertsCommitted, DeletesCommitted, InsertsAborted, DeletesAborted;
    MarkedBy(s, t, rid);
    assert RunOk(s, t) && RunOk(s, u) && RowOk(s, rid) && RowComplete(s, rid);
    assert Insert(t, rid) !in s.log && Insert(u, rid) !in s.log;
    var d := DeleteStep(s, t, rid);
    Appended(s.log, Delete(t, rid));
    RunAfterDelete(s, t, rid, u);
    RunAfterDelete(s, t, rid, t);
    AbortedMeta(d, u, rid);
    RunAfterAbort(d, u, t);
    Appended(d.log, Abort(u));
    CommittedMeta(AbortStep(d, u), t, rid);
  }

  // ---- runs of the program that lose a delete ----

  /** One committed row, and two transactions that see it. */
  lemma TwoReaders(rid: RID)
    ensures var steps := [DoBegin, DoInsert(1, rid), DoCommit(1), DoBegin, DoBegin];
      && ValidRun(FRESH, steps)
      && var s := Run(FRESH, steps);
        && Inv(s) && 2 in s.running && 3 in s.running && rid in s.store && s.store[rid].endTxn == INVALID_TXN_ID
        && Sees(s, 2, rid) && Sees(s, 3, rid) && s.running[3].readTs == 1 && s.nextCommit == 2
  {
    hide Inv, ValidRun, Run, Loose, CommitCount, WellLogged;
    var a := [DoBegin, DoInsert(1, rid), DoCommit(1)];
    var s1 := InsertStep(BeginStep(FRESH), 1, rid);
    ThreeSteps(FRESH, DoBegin, DoInsert(1, rid), DoCommit(1));
    assert s1.running[1].ins == [rid] && s1.running[1].del == [];
    InsertsCommittedAt(s1.store, [rid], 1);
    assert Run(FRESH, a).store[rid] == VersionMeta(1, 1, INVALID_TXN_ID, INVALID_TS);
    RunSnoc(FRESH, a, DoBegin);
    RunSnoc(FRESH, a + [DoBegin], DoBegin);
    assert a + [DoBegin] + [DoBegin] == [DoBegin, DoInsert(1, rid), DoCommit(1), DoBegin, DoBegin];
    ReachableInv([DoBegin, DoInsert(1, rid), DoCommit(1), DoBegin, DoBegin]);
  }

  /** A state whose continuation `steps` passes the program's tests and ends with a lost delete. */
  ghost predicate Loses(s: Sys, steps: seq<Step>) {
    Loose(s, steps) && !Faithful(Run(s, steps)) && !DeletesHold(Run(s, steps))
  }

  lemma LosesAfter(s: Sys, a: Step, steps: seq<Step>)
    requires Tested(s, a) && Loses(Apply(s, a), steps)
    ensures Loses(s, [a] + steps)
  {
    hide Tested, Apply, Faithful, DeletesHold;
    assert ([a] + steps)[1..] == steps;
  }

  /** From any sound state in which two transactions see an unmarked row, three orders of their steps lose a delete. */
  lemma UnguardedDeletesLose(s: Sys, t: int, u: int, rid: RID)
    requires Inv(s) && t in s.running && u in s.running && t != u
    requires rid in s.store && s.store[rid].endTxn == INVALID_TXN_ID
    requires Sees(s, t, rid) && Sees(s, u, rid)
    ensures Loses(s, [DoDelete(u, rid), DoDelete(t, rid), DoCommit(u), DoAbort(t), DoBegin])
    ensures Loses(s, [DoDelete(u, rid), DoDelete(t, rid), DoAbort(u), DoCommit(t), DoBegin])
    ensures Loses(s, [DoDelete(u, rid), DoCommit(u), DoDelete(t, rid), DoBegin])
  {
    hide Inv, Faithful, DeletesHold, ValidRun, Run, Loose, Loses, CommitCount, InsertsCommitted, DeletesCommitted,
         InsertsAborted, DeletesAborted;
    var m := DeleteStep(s, u, rid);
    DeleteKeeps(s, u, rid);
    MarkSeen(s, t, u, rid);
    LostAfterAbort(m, t, u, rid);
    LostAfterCommit(m, t, u, rid);
    TwoFront(s, DoDelete(u, rid), DoDelete(t, rid), [DoCommit(u), DoAbort(t), DoBegin]);
    TwoFront(s, DoDelete(u, rid), DoDelete(t, rid), [DoAbort(u), DoCommit(t), DoBegin]);
    var c := CommitStep(m, u);
    CommitKeeps(m, u);
    LostAtOnce(c, t, u, rid);
    TwoFront(m, DoCommit(u), DoDelete(t, rid), [DoBegin]);
    assert [DoCommit(u), DoDelete(t, rid)] + [DoBegin] == [DoCommit(u), DoDelete(t, rid), DoBegin];
    LosesAfter(s, DoDelete(u, rid), [DoCommit(u), DoDelete(t, rid), DoBegin]);
    assert [DoDelete(u, rid)] + [DoCommit(u), DoDelete(t, rid), DoBegin] ==
      [DoDelete(u, rid), DoCommit(u), DoDelete(t, rid), DoBegin];
  }

  lemma TwoFront(s: Sys, a: Step, b: Step, rest: seq<Step>)
    requires Tested(s, a) && Tested(Apply(s, a), b) && Loose(Apply(Apply(s, a), b), rest)
    requires var e := Run(Apply(Apply(s, a), b), rest); !Faithful(e) && !DeletesHold(e)
    ensures Loses(s, [a, b] + rest)
    ensures |rest| == 3 ==> [a, b] + rest == [a, b, rest[0], rest[1], rest[2]]
  {
    hide Tested, Apply, Faithful, DeletesHold, Loose, Run;
    LosesAfter(Apply(s, a), b, rest);
    LosesAfter(s, a, [b] + rest);
    assert [a] + ([b] + rest) == [a, b] + rest;
  }

  /** A mark hides the row from the marking transaction only, until it commits; then from snapshots that cover
      the commit. */
  lemma MarkSeen(s: Sys, t: int, u: int, rid: RID)
    requires Inv(s) && t in s.running && u in s.running && t != u
    requires rid in s.store && s.store[rid].endTxn == INVALID_TXN_ID
    requires Sees(s, t, rid) && Sees(s, u, rid)
    ensures var m := DeleteStep(s, u, rid);
      && rid in m.store && m.store[rid] == s.store[rid].(endTxn := u, endTs := INVALID_TS) && Sees(m, t, rid)
      && u in m.running && u >= 1 && s.nextCommit >= 1
      && var c := CommitStep(m, u);
        && t in c.running && rid in c.store && c.store[rid] == s.store[rid].(endTxn := u, endTs := s.nextCommit)
        && Sees(c, t, rid)
  {
    hide CommitCount, WellLogged, InsertsCommitted, DeletesCommitted;
    assert RunOk(s, t) && RunOk(s, u) && RowOk(s, rid) && RowComplete(s, rid);
    var m := DeleteStep(s, u, rid);
    Appended(s.log, Delete(u, rid));
    RunAfterDelete(s, u, rid, u);
    if Insert(u, rid) in s.log { SeenNotRunning(s, t, rid, u); }
    CommittedMeta(m, u, rid);
  }

  /** Three runs from an empty database, in each of which a transaction sees a row although its snapshot covers a
      committed delete of it. */
  lemma DeletesLost(rid: RID)
    ensures var base := [DoBegin, DoInsert(1, rid), DoCommit(1), DoBegin, DoBegin];
      && Loses(FRESH, base + [DoDelete(2, rid), DoDelete(3, rid), DoCommit(2), DoAbort(3), DoBegin])
      && Loses(FRESH, base + [DoDelete(2, rid), DoDelete(3, rid), DoAbort(2), DoCommit(3), DoBegin])
      && Loses(FRESH, base + [DoDelete(2, rid), DoCommit(2), DoDelete(3, rid), DoBegin])
  {
    hide Inv, Faithful, DeletesHold, ValidRun, Run, Loose, Loses, Sees;
    var base := [DoBegin, DoInsert(1, rid), DoCommit(1), DoBegin, DoBegin];
    TwoReaders(rid);
    var s := Run(FRESH, base);
    UnguardedDeletesLose(s, 3, 2, rid);
    LosesBehind(FRESH, base, [DoDelete(2, rid), DoDelete(3, rid), DoCommit(2), DoAbort(3), DoBegin]);
    LosesBehind(FRESH, base, [DoDelete(2, rid), DoDelete(3, rid), DoAbort(2), DoCommit(3), DoBegin]);
    LosesBehind(FRESH, base, [DoDelete(2, rid), DoCommit(2), DoDelete(3, rid), DoBegin]);
  }

  lemma LosesBehind(s: Sys, base: seq<Step>, steps: seq<Step>)
    requires Loose(s, base) && Loses(Run(s, base), steps)
    ensures Loses(s, base + steps)
  {
    hide Faithful, DeletesHold, Run, Loose;
    RunJoin(s, base, steps);
  }

  // ---- rows without a version record ----

  /** A delete takes effect when it commits exactly if the row has a version record: later transactions see
      the row otherwise. */
  lemma DeleteTakesEffect(s: Sys, t: int, rid: RID)
    requires Inv(s) && Enabled(s, DoDelete(t, rid))
    ensures var c := CommitStep(DeleteStep(s, t, rid), t);
      && Delete(t, rid) in c.log && Commit(t, c.lastCommit) in c.log
      && c.nextTxn in BeginStep(c).running && (Sees(BeginStep(c), c.nextTxn, rid) <==> rid !in s.store)
  {
    hide Inv, CommitCount, InsertsCommitted, DeletesCommitted, DeletesHold;
    var d := DeleteStep(s, t, rid);
    var c := CommitStep(d, t);
    var e := BeginStep(c);
    DeleteKeeps(s, t, rid);
    CommitKeeps(d, t);
    BeginKeeps(c);
    CountsOf(s);
    Appended(s.log, Delete(t, rid));
    Appended(d.log, Commit(t, d.nextCommit));
    Appended(c.log, Begin(c.nextTxn));
    InsertsCommittedAt(d.store, d.running[t].ins, d.nextCommit);
    DeletesCommittedAt(InsertsCommitted(d.store, d.running[t].ins, d.nextCommit), d.running[t].del, d.nextCommit);
    if rid in s.store { CommittedDeleteUnseen(e, t, c.lastCommit, rid, c.nextTxn); }
  }

  /** Until the next crash a deleted row without a version record stays visible to everybody. */
  lemma {:induction false} UnregisteredStays(s: Sys, steps: seq<Step>, t: int, rid: RID, u: int)
    requires Inv(s) && rid !in s.store && Delete(t, rid) in s.log && ValidRun(s, steps) && u in Run(s, steps).running
    requires forall a :: a in steps ==> !a.Crash?
    ensures rid !in Run(s, steps).store && Sees(Run(s, steps), u, rid)
    decreases |steps|
  {
    hide Inv, Enabled, Tested, Apply;
    if steps != [] {
      StepKeeps(s, steps[0]);
      UnregisteredStep(s, steps[0], t, rid);
      UnregisteredStays(Apply(s, steps[0]), steps[1..], t, rid, u);
    }
  }

  lemma UnregisteredStep(s: Sys, a: Step, t: int, rid: RID)
    requires Inv(s) && rid !in s.store && Delete(t, rid) in s.log && Enabled(s, a) && !a.Crash?
    ensures rid !in Apply(s, a).store && Delete(t, rid) in Apply(s, a).log
  {
    hide CommitCount, WellLogged, InsertsCommitted, DeletesCommitted, InsertsAborted, DeletesAborted;
    match a
    case DoCommit(u) =>
      var x, ts := s.running[u], s.nextCommit;
      InsertsCommittedAt(s.store, x.ins, ts);
      DeletesCommittedAt(InsertsCommitted(s.store, x.ins, ts), x.del, ts);
    case DoAbort(u) =>
      assert RunOk(s, u) && RowOk(s, rid) && RowComplete(s, rid);
      AbortedMeta(s, u, rid);
    case _ =>
  }

  /** A run that shows both: a crash brings back an uncommitted row, its committed delete is ignored by the next
      transaction, and obeyed after another crash. */
  lemma DeleteLostUntilCrash(rid: RID)
    ensures var steps := [DoBegin, DoInsert(1, rid), Crash(2), DoBegin, DoDelete(2, rid), DoCommit(2), DoBegin];
      && ValidRun(FRESH, steps)
      && var s := Run(FRESH, steps);
        && Delete(2, rid) in s.log && Commit(2, 1) in s.log && Covers(s, 3, 1) && Sees(s, 3, rid)
        && |s.log| == 6 && ValidRun(s, [Crash(6), DoBegin])
        && var e := Run(s, [Crash(6), DoBegin]);
          4 in e.running && !Sees(e, 4, rid)
  {
    hide Inv, ValidRun, Run, Loose, CommitCount, WellLogged, CrashStep, Snapshot, InsertsCommitted, DeletesCommitted;
    var a := [DoBegin, DoInsert(1, rid), Crash(2)];
    ThreeSteps(FRESH, DoBegin, DoInsert(1, rid), Crash(2));
    ReachableInv(a);
    UncommittedGone(rid);
    var s1 := Run(FRESH, a);
    ThreeSteps(s1, DoBegin, DoDelete(2, rid), DoCommit(2));
    IgnoredDelete(rid);
    RunJoin(FRESH, a, [DoBegin, DoDelete(2, rid), DoCommit(2)]);
    var b := a + [DoBegin, DoDelete(2, rid), DoCommit(2)];
    RunSnoc(FRESH, b, DoBegin);
    assert b + [DoBegin] == [DoBegin, DoInsert(1, rid), Crash(2), DoBegin, DoDelete(2, rid), DoCommit(2), DoBegin];
    ReachableInv(b + [DoBegin]);
    var s := Run(FRESH, b + [DoBegin]);
    RunNone(s);
    RunSnoc(s, [], Crash(6));
    assert [] + [Crash(6)] == [Crash(6)];
    RunSnoc(s, [Crash(6)], DoBegin);
    assert [Crash(6)] + [DoBegin] == [Crash(6), DoBegin];
    ObeyedDelete(s, rid);
  }

  /** The state after the first crash: the log still knows the insert, the version store does not. */
  lemma UncommittedGone(rid: RID)
    ensures var s := InsertStep(BeginStep(FRESH), 1, rid);
      |s.log| == 2 && CrashStep(s, 2) == Sys(map[], 2, 1, 0, map[], [Begin(1), Insert(1, rid)])
  {
    var s := InsertStep(BeginStep(FRESH), 1, rid);
    var log := [Begin(1), Insert(1, rid)];
    assert s.log[..2] == log && log[..1] == [Begin(1)] && log[..1][..0] == [];
    assert Recovery.CommitMap([Begin(1)]) == map[] && Recovery.CommitMap(log) == map[];
    assert Recovery.Replay(map[], [Begin(1)], map[]) == map[] && Recovery.Replay(map[], log, map[]) == map[];
    assert Recovery.MaxTxn([Begin(1)]) == 1 && Recovery.MaxTxn(log) == 1;
    assert Recovery.MaxCommit([Begin(1)]) == 0 && Recovery.MaxCommit(log) == 0;
  }

  lemma IgnoredDelete(rid: RID)
    ensures var s := BeginStep(Sys(map[], 2, 1, 0, map[], [Begin(1), Insert(1, rid)]));
      CommitStep(DeleteStep(s, 2, rid), 2) ==
        Sys(map[], 3, 2, 1, map[], [Begin(1), Insert(1, rid), Begin(2), Delete(2, rid), Commit(2, 1)])
  {
    hide InsertsCommitted, DeletesCommitted;
    var s := BeginStep(Sys(map[], 2, 1, 0, map[], [Begin(1), Insert(1, rid)]));
    var d := DeleteStep(s, 2, rid);
    assert d.store == map[] && d.running[2].ins == [] && d.running[2].del == [rid];
    InsertsCommittedAt(map[], [], 1);
    DeletesCommittedAt(InsertsCommitted(map[], [], 1), [rid], 1);
    var store := DeletesCommitted(InsertsCommitted(map[], [], 1), [rid], 1);
    assert store.Keys == {} && store == map[];
    assert CommitStep(d, 2).running == map[];
  }

  lemma ObeyedDelete(s: Sys, rid: RID)
    requires Inv(s) && s.log == [Begin(1), Insert(1, rid), Begin(2), Delete(2, rid), Commit(2, 1), Begin(3)]
    ensures var e := BeginStep(CrashStep(s, 6)); 4 in e.running && !Sees(e, 4, rid)
  {
    hide Inv, CommitCount, WellLogged, CrashStep, Snapshot, CommittedDelete, CommittedInsert, Created;
    assert s.log[..6] == s.log;
    OnlyDeleted(s.log, rid);
    NextAfter(s, 3);
    RecoveredView(s, 6, rid);
    LoggedWell(s);
    SnapshotIs(s.log, CommitCount(s.log), rid);
  }

  lemma OnlyDeleted(log: Log, rid: RID)
    requires log == [Begin(1), Insert(1, rid), Begin(2), Delete(2, rid), Commit(2, 1), Begin(3)]
    ensures CommittedDelete(log, rid) && forall n :: !Created(log, rid, n)
    ensures forall r :: r in log ==> r.txn <= 3
  {
    assert log[3] == Delete(2, rid) && log[4] == Commit(2, 1);
    assert Committed(log, 2);
    forall n ensures !Created(log, rid, n) {
      assert forall t :: Insert(t, rid) in log ==> t == 1;
      assert forall ts :: Commit(1, ts) !in log;
    }
  }

  lemma LoggedWell(s: Sys)
    requires Inv(s)
    ensures WellLogged(s.log)
  {
  }
}
