/** Snapshot isolation: what transactions see, over every run of the system. */
module Snapshots {
  import opened Common
  import opened Versions
  import opened TxnLog
  import opened TxnSystem
  import Recovery

  // ---- the database after the first n commits ----

  function InsertedBy(log: Log, t: int): set<RID> {
    set r | r in log && r.Insert? && r.txn == t :: r.rid
  }

  function DeletedBy(log: Log, t: int): set<RID> {
    set r | r in log && r.Delete? && r.txn == t :: r.rid
  }

  /** Run the first `n` commits of the log, in order: each adds its inserts and removes its deletes. */
  function Snapshot(log: Log, n: int): set<RID> {
    if log == [] then {} else
      var p, r := log[..|log| - 1], log[|log| - 1];
      if r.Commit? && CommitCount(log) <= n
      then Snapshot(p, n) + InsertedBy(p, r.txn) - DeletedBy(p, r.txn)
      else Snapshot(p, n)
  }

  lemma SnapshotAppend(log: Log, r: Record, n: int)
    ensures Snapshot(log + [r], n) ==
      if r.Commit? && CommitCount(log) + 1 <= n
      then Snapshot(log, n) + InsertedBy(log, r.txn) - DeletedBy(log, r.txn)
      else Snapshot(log, n)
  {
    assert (log + [r])[..|log|] == log;
    Appended(log, r);
  }

  ghost predicate Among(log: Log, t: int, n: int) {
    exists ts :: Commit(t, ts) in log && ts <= n
  }

  ghost predicate Created(log: Log, rid: RID, n: int) {
    exists t :: Insert(t, rid) in log && Among(log, t, n)
  }

  ghost predicate Removed(log: Log, rid: RID, n: int) {
    exists t :: Delete(t, rid) in log && Among(log, t, n)
  }

  lemma SnapshotStep(p: Log, r: Record, n: int, rid: RID)
    requires LogFacts(p) && Follows(p, r)
    requires rid in Snapshot(p, n) <==> Created(p, rid, n) && !Removed(p, rid, n)
    ensures rid in Snapshot(p + [r], n) <==> Created(p + [r], rid, n) && !Removed(p + [r], rid, n)
  {
    hide CommitCount, Snapshot;
    var log := p + [r];
    Appended(p, r);
    SnapshotAppend(p, r, n);
    forall t ensures Among(log, t, n) <==> Among(p, t, n) || (r.Commit? && r.txn == t && r.ts <= n) {
      if Among(p, t, n) {
        var ts :| Commit(t, ts) in p && ts <= n;
        assert Commit(t, ts) in log;
      }
      if r.Commit? && r.txn == t && r.ts <= n { assert Commit(t, r.ts) in log; }
    }
    if r.Commit? && r.ts <= n {
      assert rid in InsertedBy(p, r.txn) <==> Insert(r.txn, rid) in p;
      assert rid in DeletedBy(p, r.txn) <==> Delete(r.txn, rid) in p;
    }
  }

  /** A snapshot holds exactly the rows whose creator is among the first `n` commits and whose deleter is not. */
  lemma {:induction false} SnapshotIs(log: Log, n: int, rid: RID)
    requires WellLogged(log)
    ensures rid in Snapshot(log, n) <==> Created(log, rid, n) && !Removed(log, rid, n)
    decreases |log|
  {
    if log != [] {
      var p, r := log[..|log| - 1], log[|log| - 1];
      assert log == p + [r];
      WellLoggedPrefix(log, |log| - 1);
      WellLoggedFacts(p);
      SnapshotIs(p, n, rid);
      SnapshotStep(p, r, n, rid);
    }
  }

  // ---- what one transaction sees ----

  /** The version records give each running transaction its snapshot, plus its inserts, minus its deletes. */
  lemma SnapshotIsolation(s: Sys, t: int, rid: RID)
    requires Inv(s) && t in s.running && rid in s.store
    ensures Sees(s, t, rid) <==>
      rid in Snapshot(s.log, s.running[t].readTs) + (set r | r in s.running[t].ins) - (set r | r in s.running[t].del)
  {
    hide WellLogged, CommitCount, Snapshot;
    SnapshotIs(s.log, s.running[t].readTs, rid);
    WellLoggedFacts(s.log);
    assert RunOk(s, t) && RowOk(s, rid);
    SeesByLog(s, t, rid);
  }

  lemma SeesByLog(s: Sys, t: int, rid: RID)
    requires t in s.running && RunOk(s, t) && rid in s.store && RowOk(s, rid) && LogFacts(s.log)
    ensures var n := s.running[t].readTs;
      Sees(s, t, rid) <==>
        (Insert(t, rid) in s.log || (Created(s.log, rid, n) && !Removed(s.log, rid, n))) && Delete(t, rid) !in s.log
  {
    hide CommitCount;
    var n, v := s.running[t].readTs, s.store[rid];
    assert RowComplete(s, rid) && RowSound(s, rid, v);
    if v.beginTs != INVALID_TS && v.beginTs <= n { assert Among(s.log, v.beginTxn, n); }
    if v.endTxn != INVALID_TXN_ID && v.endTs != INVALID_TS && v.endTs <= n { assert Among(s.log, v.endTxn, n); }
    assert Created(s.log, rid, n) <==> v.beginTs != INVALID_TS && v.beginTs <= n;
    assert Created(s.log, rid, n) ==>
      (Removed(s.log, rid, n) <==> v.endTxn != INVALID_TXN_ID && v.endTs != INVALID_TS && v.endTs <= n);
  }

  // ---- whole runs ----

  /** A run of steps that pass the program's own tests. */
  ghost predicate Loose(s: Sys, steps: seq<Step>)
    decreases |steps|
  {
    steps == [] || (Tested(s, steps[0]) && Loose(Apply(s, steps[0]), steps[1..]))
  }

  ghost function Run(s: Sys, steps: seq<Step>): Sys
    requires Loose(s, steps)
    decreases |steps|
  {
    if steps == [] then s else Run(Apply(s, steps[0]), steps[1..])
  }

  /** A run in which, in addition, nobody overwrites a delete mark. */
  ghost predicate ValidRun(s: Sys, steps: seq<Step>): (valid: bool)
    ensures valid ==> Loose(s, steps)
    decreases |steps|
  {
    steps == [] || (Enabled(s, steps[0]) && ValidRun(Apply(s, steps[0]), steps[1..]))
  }

  lemma {:induction false} RunSplit(s: Sys, a: seq<Step>, b: seq<Step>)
    requires Loose(s, a + b)
    ensures Loose(s, a) && Loose(Run(s, a), b) && Run(s, a + b) == Run(Run(s, a), b)
    decreases |a|
  {
    hide Tested, Apply;
    if a == [] {
      assert a + b == b;
    } else {
      assert (a + b)[1..] == a[1..] + b;
      RunSplit(Apply(s, a[0]), a[1..], b);
    }
  }

  lemma {:induction false} RunJoin(s: Sys, a: seq<Step>, b: seq<Step>)
    requires Loose(s, a) && Loose(Run(s, a), b)
    ensures Loose(s, a + b) && Run(s, a + b) == Run(Run(s, a), b)
    ensures ValidRun(s, a) && ValidRun(Run(s, a), b) ==> ValidRun(s, a + b)
    decreases |a|
  {
    hide Enabled, Tested, Apply;
    if a == [] {
      assert a + b == b;
    } else {
      assert (a + b)[1..] == a[1..] + b;
      RunJoin(Apply(s, a[0]), a[1..], b);
    }
  }

  /** One more step at the end. */
  lemma RunSnoc(s: Sys, steps: seq<Step>, a: Step)
    requires Loose(s, steps) && Tested(Run(s, steps), a)
    ensures Loose(s, steps + [a]) && Run(s, steps + [a]) == Apply(Run(s, steps), a)
    ensures ValidRun(s, steps) && Enabled(Run(s, steps), a) ==> ValidRun(s, steps + [a])
  {
    hide Enabled, Tested, Apply;
    var now := Run(s, steps);
    assert [a][1..] == [];
    assert Loose(Apply(now, a), []) && Loose(now, [a]);
    assert Run(now, [a]) == Apply(now, a);
    assert Enabled(now, a) ==> ValidRun(now, [a]);
    RunJoin(s, steps, [a]);
  }

  lemma NoSteps(s: Sys)
    ensures Loose(s, []) && Run(s, []) == s
  {
  }

  /** The next step of a run in progress. */
  lemma NextStep(s: Sys, steps: seq<Step>, i: nat)
    requires Loose(s, steps) && i < |steps|
    ensures Loose(s, steps[..i]) && Tested(Run(s, steps[..i]), steps[i]) && Loose(s, steps[..i + 1])
    ensures Run(s, steps[..i + 1]) == Apply(Run(s, steps[..i]), steps[i])
  {
    hide Tested, Apply;
    var a, b := steps[..i], steps[i..];
    assert steps == a + b;
    RunSplit(s, a, b);
    RunSnoc(s, a, steps[i]);
    assert steps[..i + 1] == a + [steps[i]];
  }

  lemma {:induction false} RunKeeps(s: Sys, steps: seq<Step>)
    requires Inv(s) && ValidRun(s, steps)
    ensures Inv(Run(s, steps))
    decreases |steps|
  {
    hide Inv, Enabled, Tested, Apply;
    if steps != [] {
      StepKeeps(s, steps[0]);
      RunKeeps(Apply(s, steps[0]), steps[1..]);
    }
  }

  /** Every state that any interleaving of guarded steps and crashes reaches satisfies the invariant. */
  lemma ReachableInv(steps: seq<Step>)
    requires ValidRun(FRESH, steps)
    ensures Inv(Run(FRESH, steps))
  {
    hide Inv, ValidRun, Run;
    InvFresh();
    RunKeeps(FRESH, steps);
  }

  /** Snapshot isolation in every reachable state. */
  lemma ReachableSnapshot(steps: seq<Step>, t: int, rid: RID)
    requires ValidRun(FRESH, steps) && t in Run(FRESH, steps).running && rid in Run(FRESH, steps).store
    ensures var s := Run(FRESH, steps);
      Sees(s, t, rid) <==>
        rid in Snapshot(s.log, s.running[t].readTs) + (set r | r in s.running[t].ins) - (set r | r in s.running[t].del)
  {
    hide Inv, ValidRun, Run;
    ReachableInv(steps);
    SnapshotIsolation(Run(FRESH, steps), t, rid);
  }

  // ---- stability ----

  /** The steps that transaction `t` takes itself; a crash ends every transaction. */
  predicate Own(a: Step, t: int) {
    a.Crash? || (!a.DoBegin? && a.t == t)
  }

  lemma OthersKeepSight(s: Sys, a: Step, t: int, rid: RID)
    requires Inv(s) && Enabled(s, a) && t in s.running && rid in s.store && !Own(a, t)
    ensures var s' := Apply(s, a);
      t in s'.running && s'.running[t] == s.running[t] && rid in s'.store && (Sees(s', t, rid) <==> Sees(s, t, rid))
  {
    hide Inv, WellLogged, Snapshot, InsertsCommitted, DeletesCommitted, InsertsAborted, DeletesAborted;
    var s', n := Apply(s, a), s.running[t].readTs;
    StepKeeps(s, a);
    Bystander(s, a, t, rid);
    SnapshotIsolation(s, t, rid);
    SnapshotIsolation(s', t, rid);
  }

  lemma Bystander(s: Sys, a: Step, t: int, rid: RID)
    requires Inv(s) && Enabled(s, a) && t in s.running && rid in s.store && !Own(a, t)
    ensures var s' := Apply(s, a);
      && t in s'.running && s'.running[t] == s.running[t] && rid in s'.store
      && Snapshot(s'.log, s.running[t].readTs) == Snapshot(s.log, s.running[t].readTs)
  {
    hide WellLogged, Snapshot, CommitCount, InsertsCommitted, DeletesCommitted, InsertsAborted, DeletesAborted;
    assert RunOk(s, t);
    var n := s.running[t].readTs;
    match a
    case DoBegin => SnapshotAppend(s.log, Begin(s.nextTxn), n);
    case DoInsert(u, q) => SnapshotAppend(s.log, Insert(u, q), n);
    case DoDelete(u, q) => SnapshotAppend(s.log, Delete(u, q), n);
    case DoCommit(u) =>
      var x, ts := s.running[u], s.nextCommit;
      SnapshotAppend(s.log, Commit(u, ts), n);
      InsertsCommittedAt(s.store, x.ins, ts);
      DeletesCommittedAt(InsertsCommitted(s.store, x.ins, ts), x.del, ts);
    case DoAbort(u) =>
      var x := s.running[u];
      SnapshotAppend(s.log, Abort(u), n);
      InsertsAbortedAt(s.store, x.ins);
      DeletesAbortedAt(InsertsAborted(s.store, x.ins), x.del);
  }

  /** However other sessions interleave, a running transaction's view of a registered row stays as it was. */
  lemma {:induction false} StableView(s: Sys, steps: seq<Step>, t: int, rid: RID)
    requires Inv(s) && ValidRun(s, steps) && t in s.running && rid in s.store
    requires forall a :: a in steps ==> !Own(a, t)
    ensures var s' := Run(s, steps);
      t in s'.running && rid in s'.store && (Sees(s', t, rid) <==> Sees(s, t, rid))
    decreases |steps|
  {
    hide Inv, Enabled, Tested, Apply, Sees;
    if steps != [] {
      OthersKeepSight(s, steps[0], t, rid);
      StepKeeps(s, steps[0]);
      StableView(Apply(s, steps[0]), steps[1..], t, rid);
    }
  }

  // ---- why a commit is one step ----

  /** The program publishes a commit timestamp before it stamps the versions. A transaction that begins in
      between has its view of a row changed by the stamping exactly if the committing transaction inserted the
      row or deleted it, but not both. */
  lemma BeginInsideCommit(s: Sys, t: int, rid: RID)
    requires Inv(s) && t in s.running && rid in s.store
    ensures var published := s.(nextCommit := s.nextCommit + 1, lastCommit := s.nextCommit, running := s.running - {t});
      var b, u := BeginStep(published), s.nextTxn;
      var stamped := b.(store := CommitStep(s, t).store);
      && u in b.running && u in stamped.running
      && ((Sees(b, u, rid) <==> Sees(stamped, u, rid)) <==> (Insert(t, rid) in s.log <==> Delete(t, rid) in s.log))
  {
    hide WellLogged, CommitCount, InsertsCommitted, DeletesCommitted;
    assert RunOk(s, t) && RowOk(s, rid) && RowComplete(s, rid) && RowSound(s, rid, s.store[rid]);
    CommittedMeta(s, t, rid);
    assert forall u :: u in s.running ==> RunOk(s, u) && u < s.nextTxn;
    WellLoggedFacts(s.log);
    if Delete(t, rid) in s.log && Insert(t, rid) !in s.log { RowCreator(s, t, rid); }
  }

  /** Who can have created a row that `t` deleted. */
  lemma RowCreator(s: Sys, t: int, rid: RID)
    requires Inv(s) && t in s.running && rid in s.store && Delete(t, rid) in s.log && Insert(t, rid) !in s.log
    ensures s.store[rid].beginTs != INVALID_TS && s.store[rid].beginTs <= s.lastCommit
  {
    hide WellLogged, CommitCount;
    assert RunOk(s, t) && RowOk(s, rid) && RowComplete(s, rid) && RowSound(s, rid, s.store[rid]);
  }

  // ---- a transaction's own writes ----

  /** A transaction sees at once what it inserts. It stops seeing what it deletes exactly if the row has a
      version record. */
  lemma OwnWrites(s: Sys, t: int, rid: RID)
    requires Inv(s) && t in s.running
    ensures Enabled(s, DoInsert(t, rid)) ==> Sees(InsertStep(s, t, rid), t, rid)
    ensures Enabled(s, DoDelete(t, rid)) ==> (Sees(DeleteStep(s, t, rid), t, rid) <==> rid !in s.store)
  {
    assert RunOk(s, t);
  }

  // ---- aborted transactions ----

  /** A row inserted by a transaction that aborted, while its tombstone is registered. */
  ghost predicate Dead(s: Sys, t: int, rid: RID) {
    rid in s.store && Insert(t, rid) in s.log && Abort(t) in s.log
  }

  lemma DeadUnseen(s: Sys, t: int, rid: RID, u: int)
    requires Inv(s) && Dead(s, t, rid) && u in s.running
    ensures !Sees(s, u, rid)
  {
    hide CommitCount, WellLogged;
    WellLoggedFacts(s.log);
    AbortedNotCommitted(s.log, t);
    assert RunOk(s, u) && RowOk(s, rid);
    SeesByLog(s, u, rid);
  }

  lemma {:induction false} AbortedNotCommitted(log: Log, t: int)
    requires WellLogged(log) && Abort(t) in log
    ensures !Committed(log, t)
    decreases |log|
  {
    hide CommitCount, WellLogged;
    var p, r := log[..|log| - 1], log[|log| - 1];
    assert log == p + [r];
    Appended(p, r);
    WellLoggedPrefix(log, |log| - 1);
    LastFollows(log);
    if Abort(t) in p { AbortedNotCommitted(p, t); }
  }

  lemma DeadStays(s: Sys, a: Step, t: int, rid: RID)
    requires Inv(s) && Enabled(s, a) && Dead(s, t, rid) && !a.Crash?
    ensures Dead(Apply(s, a), t, rid)
  {
    hide Inv, InsertsCommitted, DeletesCommitted, InsertsAborted, DeletesAborted;
    match a
    case DoCommit(u) =>
      var x, ts := s.running[u], s.nextCommit;
      InsertsCommittedAt(s.store, x.ins, ts);
      DeletesCommittedAt(InsertsCommitted(s.store, x.ins, ts), x.del, ts);
    case DoAbort(u) =>
      var x := s.running[u];
      InsertsAbortedAt(s.store, x.ins);
      DeletesAbortedAt(InsertsAborted(s.store, x.ins), x.del);
    case _ =>
  }

  lemma {:induction false} DeadNeverSeen(s: Sys, steps: seq<Step>, t: int, rid: RID, u: int)
    requires Inv(s) && Dead(s, t, rid) && ValidRun(s, steps) && u in Run(s, steps).running
    requires forall a :: a in steps ==> !a.Crash?
    ensures rid in Run(s, steps).store && !Sees(Run(s, steps), u, rid)
    decreases |steps|
  {
    hide Inv, Enabled, Tested, Apply, Sees;
    if steps == [] {
      DeadUnseen(s, t, rid, u);
    } else {
      StepKeeps(s, steps[0]);
      DeadStays(s, steps[0], t, rid);
      DeadNeverSeen(Apply(s, steps[0]), steps[1..], t, rid, u);
    }
  }

  /** Aborting leaves every inserted row dead. */
  lemma AbortBuries(s: Sys, t: int, rid: RID)
    requires Inv(s) && t in s.running && rid in s.running[t].ins
    ensures Dead(AbortStep(s, t), t, rid)
  {
    hide WellLogged, CommitCount, InsertsAborted, DeletesAborted;
    assert RunOk(s, t);
    var x := s.running[t];
    InsertsAbortedAt(s.store, x.ins);
    DeletesAbortedAt(InsertsAborted(s.store, x.ins), x.del);
  }

  /** From an abort until the next crash nobody ever sees a row that the aborted transaction inserted. */
  lemma AbortedNeverSeen(s: Sys, steps: seq<Step>, t: int, rid: RID, u: int)
    requires Inv(s) && t in s.running && rid in s.running[t].ins
    requires ValidRun(AbortStep(s, t), steps) && u in Run(AbortStep(s, t), steps).running
    requires forall a :: a in steps ==> !a.Crash?
    ensures rid in Run(AbortStep(s, t), steps).store && !Sees(Run(AbortStep(s, t), steps), u, rid)
  {
    hide Inv, AbortStep, Sees;
    AbortKeeps(s, t);
    AbortBuries(s, t, rid);
    DeadNeverSeen(AbortStep(s, t), steps, t, rid, u);
  }

  // ---- crash and recovery ----

  /** After a crash that keeps `n` log records and a restart, a new transaction sees a row exactly when the
      committed transactions of those records leave it in the database -- or when none of them inserted or
      deleted it. */
  lemma RecoveredView(s: Sys, n: nat, rid: RID)
    requires Inv(s) && n <= |s.log|
    ensures var c := CrashStep(s, n); var t := c.nextTxn; var log := s.log[..n];
      && t in BeginStep(c).running
      && (Sees(BeginStep(c), t, rid) <==>
            rid in Snapshot(log, CommitCount(log)) || (!CommittedInsert(log, rid) && !CommittedDelete(log, rid)))
  {
    hide WellLogged, CommitCount, Snapshot, CrashStep;
    var c, log := CrashStep(s, n), s.log[..n];
    var b, t := BeginStep(c), c.nextTxn;
    CrashKeeps(s, n);
    CrashShape(s, n);
    BeginKeeps(c);
    CrashRegisters(s, n, rid);
    WellLoggedPrefix(s.log, n);
    SnapshotIs(log, CommitCount(log), rid);
    if rid in c.store {
      SnapshotIsolation(b, t, rid);
      SnapshotAppend(log, Begin(t), c.lastCommit);
    }
  }

  /** Recovery registers exactly the rows that committed transactions inserted or deleted. */
  lemma CrashRegisters(s: Sys, n: nat, rid: RID)
    requires Inv(s) && n <= |s.log|
    ensures rid in CrashStep(s, n).store <==> CommittedInsert(s.log[..n], rid) || CommittedDelete(s.log[..n], rid)
  {
    hide WellLogged, CommitCount, Recovery.Recovered, Recovery.CommitMap;
    var log := s.log[..n];
    WellLoggedPrefix(s.log, n);
    if log != [] {
      WellLoggedFacts(log);
      Recovery.CommitMapIs(log);
      Recovery.RecoveredRebuilds(log);
      var m := Recovery.Recovered(map[], log);
      if rid in m {
        assert Recovery.RecoveredRow(m[rid], rid, log, Recovery.CommitMap(log));
      }
    }
  }

  lemma CrashShape(s: Sys, n: nat)
    requires n <= |s.log|
    ensures CrashStep(s, n).log == s.log[..n] && CrashStep(s, n).running == map[]
  {
  }

  /** Among rows that committed transactions inserted, recovery shows exactly those not deleted by one. */
  lemma RecoveredCommitted(s: Sys, n: nat, rid: RID)
    requires Inv(s) && n <= |s.log| && CommittedInsert(s.log[..n], rid)
    ensures var c := CrashStep(s, n);
      Sees(BeginStep(c), c.nextTxn, rid) <==> !exists t :: Delete(t, rid) in s.log[..n] && Committed(s.log[..n], t)
  {
    hide WellLogged, CommitCount, Snapshot, CrashStep, Sees, BeginStep;
    var log := s.log[..n];
    RecoveredView(s, n, rid);
    WellLoggedPrefix(s.log, n);
    WellLoggedFacts(log);
    SnapshotIs(log, CommitCount(log), rid);
    AllAmong(log);
  }

  lemma AllAmong(log: Log)
    requires LogFacts(log)
    ensures forall t :: Committed(log, t) <==> Among(log, t, CommitCount(log))
  {
    hide CommitCount;
  }

  /** Recovery hands out transaction ids and commit timestamps that no kept record mentions. */
  lemma RecoveredFresh(s: Sys, n: nat)
    requires Inv(s) && n <= |s.log|
    ensures var c := CrashStep(s, n);
      && (forall r :: r in s.log[..n] ==> r.txn < c.nextTxn)
      && (forall t, ts :: Commit(t, ts) in s.log[..n] ==> ts < c.nextCommit && ts <= c.lastCommit)
  {
    hide WellLogged, CommitCount, CrashStep;
    CrashKeeps(s, n);
    CrashShape(s, n);
  }

  /** Undo is not complete: a row whose inserter had not committed becomes visible after the crash, unless a
      committed transaction of the kept log deleted it in an earlier life of the database. */
  lemma UncommittedReappears(s: Sys, n: nat, t: int, rid: RID)
    requires Inv(s) && n <= |s.log| && Insert(t, rid) in s.log[..n] && !Committed(s.log[..n], t)
    ensures Sees(BeginStep(CrashStep(s, n)), CrashStep(s, n).nextTxn, rid) <==> !CommittedDelete(s.log[..n], rid)
  {
    hide WellLogged, CommitCount, Snapshot, CrashStep, Sees, BeginStep;
    WellLoggedPrefix(s.log, n);
    WellLoggedFacts(s.log[..n]);
    SnapshotIs(s.log[..n], CommitCount(s.log[..n]), rid);
    RecoveredView(s, n, rid);
  }

  /** Begin, insert, abort, from an empty database. */
  lemma AbortedRun(rid: RID)
    ensures var steps := [DoBegin, DoInsert(1, rid), DoAbort(1)];
      && ValidRun(FRESH, steps)
      && var s := Run(FRESH, steps);
        && Inv(s) && s.log == [Begin(1), Insert(1, rid), Abort(1)] && s.nextTxn == 2
        && rid in s.store && s.store[rid] == BLANK_META
  {
    hide Inv, ValidRun, Run, Loose, CrashStep;
    var s1 := BeginStep(FRESH);
    var s2 := InsertStep(s1, 1, rid);
    InvFresh();
    RunNone(FRESH);
    RunSnoc(FRESH, [], DoBegin);
    assert [] + [DoBegin] == [DoBegin];
    RunSnoc(FRESH, [DoBegin], DoInsert(1, rid));
    assert [DoBegin] + [DoInsert(1, rid)] == [DoBegin, DoInsert(1, rid)];
    RunSnoc(FRESH, [DoBegin, DoInsert(1, rid)], DoAbort(1));
    assert [DoBegin, DoInsert(1, rid)] + [DoAbort(1)] == [DoBegin, DoInsert(1, rid), DoAbort(1)];
    ReachableInv([DoBegin, DoInsert(1, rid), DoAbort(1)]);
  }

  lemma RunNone(s: Sys)
    ensures ValidRun(s, []) && Run(s, []) == s
  {
  }

  /** A run that shows it: the inserter even aborted, and its tombstone hid the row until the crash. */
  lemma AbortedReappears(rid: RID)
    ensures var before := [DoBegin, DoInsert(1, rid), DoAbort(1), DoBegin];
      && ValidRun(FRESH, before) && 2 in Run(FRESH, before).running && !Sees(Run(FRESH, before), 2, rid)
    ensures var steps := [DoBegin, DoInsert(1, rid), DoAbort(1), Crash(3), DoBegin];
      && ValidRun(FRESH, steps) && 2 in Run(FRESH, steps).running && Sees(Run(FRESH, steps), 2, rid)
  {
    hide Inv, ValidRun, Run, Loose, CrashStep;
    var a := [DoBegin, DoInsert(1, rid), DoAbort(1)];
    AbortedRun(rid);
    var s := Run(FRESH, a);
    RunSnoc(FRESH, a, DoBegin);
    assert a + [DoBegin] == [DoBegin, DoInsert(1, rid), DoAbort(1), DoBegin];
    RunSnoc(FRESH, a, Crash(3));
    RunSnoc(FRESH, a + [Crash(3)], DoBegin);
    assert a + [Crash(3)] + [DoBegin] == [DoBegin, DoInsert(1, rid), DoAbort(1), Crash(3), DoBegin];
    assert s.log[..3] == s.log;
    AbortedInsert(s.log, rid);
    UncommittedReappears(s, 3, 1, rid);
    NextAfter(s, 1);
  }

  lemma AbortedInsert(log: Log, rid: RID)
    requires log == [Begin(1), Insert(1, rid), Abort(1)]
    ensures Insert(1, rid) in log && !Committed(log, 1) && !CommittedDelete(log, rid)
  {
  }

  lemma NextAfter(s: Sys, t: int)
    requires s.log != [] && t >= 1 && s.log[|s.log| - 1].txn == t && forall r :: r in s.log ==> r.txn <= t
    ensures CrashStep(s, |s.log|).nextTxn == t + 1
  {
    assert s.log[..|s.log|] == s.log;
    MaxTxnWithin(s.log[..|s.log| - 1], t);
  }

  lemma {:induction false} MaxTxnWithin(log: Log, t: int)
    requires t >= 0 && forall r :: r in log ==> r.txn <= t
    ensures Recovery.MaxTxn(log) <= t
    decreases |log|
  {
    if log != [] { MaxTxnWithin(log[..|log| - 1], t); }
  }
}
