/** The whole transaction system as a state machine, and snapshot isolation over all its runs.

    Every step is one locked section of the program: sessions may interleave their steps freely,
    and a crash may cut the log after any record.
 */
module TxnSystem {
  import opened Common
  import opened Versions
  import opened TxnLog
  import opened Recovery

  datatype Txn = Txn(readTs: int, ins: seq<RID>, del: seq<RID>)

  datatype Sys = Sys(
    store: Metas,
    nextTxn: int, nextCommit: int, lastCommit: int,
    running: map<int, Txn>,
    log: Log)

  const FRESH: Sys := Sys(map[], 1, 1, 0, map[], [])

  datatype Step =
    | DoBegin
    | DoInsert(t: int, rid: RID)
    | DoDelete(t: int, rid: RID)
    | DoCommit(t: int)
    | DoAbort(t: int)
    | Crash(n: nat)

  predicate Sees(s: Sys, t: int, rid: RID)
    requires t in s.running
  {
    Visible(s.store, rid, t, s.running[t].readTs)
  }

  /** What the program itself makes sure of before a step. */
  ghost predicate Tested(s: Sys, a: Step) {
    match a
    case DoBegin => true
    case DoInsert(t, rid) =>
      // The row's slot was just written, so no record mentions it.
      t in s.running && rid !in s.store && forall u :: Insert(u, rid) !in s.log && Delete(u, rid) !in s.log
    case DoDelete(t, rid) => t in s.running && Sees(s, t, rid)
    case DoCommit(t) => t in s.running
    case DoAbort(t) => t in s.running
    case Crash(n) => n <= |s.log|
  }

  /** The discipline that the program does not enforce: a registered row is deleted only while nobody has marked it. */
  ghost predicate Enabled(s: Sys, a: Step) {
    Tested(s, a) && (a.DoDelete? && a.rid in s.store ==> s.store[a.rid].endTxn == INVALID_TXN_ID)
  }

  function BeginStep(s: Sys): Sys {
    s.(nextTxn := s.nextTxn + 1,
       running := s.running[s.nextTxn := Txn(s.lastCommit, [], [])],
       log := s.log + [Begin(s.nextTxn)])
  }

  function InsertStep(s: Sys, t: int, rid: RID): Sys
    requires t in s.running
  {
    var x := s.running[t];
    s.(store := Inserted(s.store, rid, t),
       running := s.running[t := x.(ins := x.ins + [rid])],
       log := s.log + [Insert(t, rid)])
  }

  function DeleteStep(s: Sys, t: int, rid: RID): Sys
    requires t in s.running
  {
    var x := s.running[t];
    s.(store := Deleted(s.store, rid, t),
       running := s.running[t := x.(del := x.del + [rid])],
       log := s.log + [Delete(t, rid)])
  }

  function CommitStep(s: Sys, t: int): Sys
    requires t in s.running
  {
    var x, ts := s.running[t], s.nextCommit;
    s.(store := DeletesCommitted(InsertsCommitted(s.store, x.ins, ts), x.del, ts),
       nextCommit := s.nextCommit + 1,
       lastCommit := if s.lastCommit < ts then ts else s.lastCommit,
       running := s.running - {t},
       log := s.log + [Commit(t, ts)])
  }

  function AbortStep(s: Sys, t: int): Sys
    requires t in s.running
  {
    var x := s.running[t];
    s.(store := DeletesAborted(InsertsAborted(s.store, x.ins), x.del),
       running := s.running - {t},
       log := s.log + [Abort(t)])
  }

  /** Restart on a log file that holds the first `n` records. */
  function CrashStep(s: Sys, n: nat): Sys
    requires n <= |s.log|
  {
    if s.log[..n] == [] then FRESH else Restarted(s.log[..n])
  }

  /** What recovery from a non-empty log leaves: counters past everything logged, nobody running. */
  function Restarted(log: Log): Sys {
    Sys(Recovered(map[], log), MaxTxn(log) + 1, MaxCommit(log) + 1, MaxCommit(log), map[], log)
  }

  ghost function Apply(s: Sys, a: Step): Sys
    requires Tested(s, a)
  {
    match a
    case DoBegin => BeginStep(s)
    case DoInsert(t, rid) => InsertStep(s, t, rid)
    case DoDelete(t, rid) => DeleteStep(s, t, rid)
    case DoCommit(t) => CommitStep(s, t)
    case DoAbort(t) => AbortStep(s, t)
    case Crash(n) => CrashStep(s, n)
  }

  // ---- the invariant ----

  ghost predicate Counters(s: Sys) {
    && s.nextTxn >= 1 && s.lastCommit >= 0 && s.nextCommit == s.lastCommit + 1
    && (forall r :: r in s.log ==> 1 <= r.txn < s.nextTxn)
    && s.lastCommit == CommitCount(s.log)
    && (forall t, ts :: Commit(t, ts) in s.log ==> ts <= s.lastCommit)
  }

  /** A running transaction is live in the log, and its write sets are its logged writes. */
  ghost predicate RunOk(s: Sys, t: int)
    requires t in s.running
  {
    && 1 <= t < s.nextTxn && 0 <= s.running[t].readTs <= s.lastCommit
    && Live(s.log, t)
    && (forall rid :: rid in s.running[t].ins <==> Insert(t, rid) in s.log)
    && (forall rid :: rid in s.running[t].del <==> Delete(t, rid) in s.log)
    && (forall u, rid :: Insert(t, rid) in s.log && Delete(u, rid) in s.log ==> u == t)
  }

  /** A version record says nothing the log and the running transactions do not say. */
  ghost predicate RowSound(s: Sys, rid: RID, v: VersionMeta) {
    && (v.beginTs == INVALID_TS && v.beginTxn != INVALID_TXN_ID ==>
         v.beginTxn in s.running && Insert(v.beginTxn, rid) in s.log)
    && (v.beginTs != INVALID_TS ==> Insert(v.beginTxn, rid) in s.log && Commit(v.beginTxn, v.beginTs) in s.log)
    && (v.endTxn == INVALID_TXN_ID ==> v.endTs == INVALID_TS)
    && (v.endTxn != INVALID_TXN_ID && v.endTs == INVALID_TS ==> v.endTxn in s.running && Delete(v.endTxn, rid) in s.log)
    && (v.endTxn != INVALID_TXN_ID && v.endTs != INVALID_TS ==>
         Delete(v.endTxn, rid) in s.log && Commit(v.endTxn, v.endTs) in s.log)
  }

  /** Every write of a running or committed transaction to the row is in its version record, if it has one. */
  ghost predicate RowComplete(s: Sys, rid: RID) {
    && (forall t :: Insert(t, rid) in s.log && t in s.running ==>
          rid in s.store && s.store[rid].beginTxn == t && s.store[rid].beginTs == INVALID_TS)
    && (forall t, ts :: Insert(t, rid) in s.log && Commit(t, ts) in s.log ==>
          rid in s.store && s.store[rid].beginTxn == t && s.store[rid].beginTs == ts)
    && (forall t :: Delete(t, rid) in s.log && t in s.running && rid in s.store ==>
          && s.store[rid].endTxn == t && s.store[rid].endTs == INVALID_TS
          && (s.store[rid].beginTs != INVALID_TS || s.store[rid].beginTxn == t))
    && (forall t, ts ::
         Delete(t, rid) in s.log && Commit(t, ts) in s.log && rid in s.store && s.store[rid].beginTs != INVALID_TS ==>
          s.store[rid].endTxn == t && s.store[rid].endTs == ts)
  }

  ghost predicate RowOk(s: Sys, rid: RID) {
    RowComplete(s, rid) && (rid in s.store ==> RowSound(s, rid, s.store[rid]))
  }

  ghost predicate Inv(s: Sys) {
    && Counters(s)
    && WellLogged(s.log)
    && (forall t :: t in s.running ==> RunOk(s, t))
    && (forall rid :: RowOk(s, rid))
  }

  lemma InvFresh()
    ensures Inv(FRESH)
  {
    hide WellLogged, Counters, RowOk, RunOk;
    FreshCounts();
    forall rid ensures RowOk(FRESH, rid) { FreshRow(rid); }
  }

  lemma FreshCounts()
    ensures Counters(FRESH) && WellLogged(FRESH.log)
  {
  }

  lemma FreshRow(rid: RID)
    ensures RowOk(FRESH, rid)
  {
    hide WellLogged, CommitCount, Live, Committed;
    assert RowComplete(FRESH, rid);
  }

  // ---- every step keeps it ----

  lemma BeginKeeps(s: Sys)
    requires Inv(s)
    ensures Inv(BeginStep(s))
  {
    hide WellLogged, CommitCount, Live, Committed, RowOk;
    var s', r := BeginStep(s), Begin(s.nextTxn);
    WellLoggedExtend(s.log, r);
    Appended(s.log, r);
    assert Counters(s');
    forall t | t in s'.running ensures RunOk(s', t) { BeginRun(s, t); }
    forall rid ensures RowOk(s', rid) { BeginRow(s, rid); }
  }

  lemma BeginRun(s: Sys, t: int)
    requires Counters(s) && (t in s.running ==> RunOk(s, t)) && (t in s.running || t == s.nextTxn)
    ensures RunOk(BeginStep(s), t)
  {
    hide CommitCount;
    var s', r := BeginStep(s), Begin(s.nextTxn);
    Appended(s.log, r);
    if t == s.nextTxn {
      assert r in s'.log && !Committed(s.log, t);
      assert forall rid :: Insert(t, rid) !in s'.log && Delete(t, rid) !in s'.log;
    }
  }

  lemma BeginRow(s: Sys, rid: RID)
    requires Counters(s) && RowOk(s, rid)
    ensures RowOk(BeginStep(s), rid)
  {
    hide Committed, CommitCount;
    var s', r := BeginStep(s), Begin(s.nextTxn);
    Appended(s.log, r);
    assert forall u :: u in s.running ==> u in s'.running;
    assert forall u :: u in s'.running ==> u in s.running || u == s.nextTxn;
    assert RowComplete(s, rid);
    assert RowComplete(s', rid);
  }

  /** A write by `t` leaves every running transaction in step with the log. */
  lemma WriteRuns(s: Sys, s': Sys, t: int, r: Record, u: int)
    requires t in s.running && u in s.running && RunOk(s, t) && RunOk(s, u)
    requires s'.log == s.log + [r] && s'.nextTxn == s.nextTxn && s'.lastCommit == s.lastCommit
    requires r.Insert? ==> forall w :: Delete(w, r.rid) !in s.log
    requires r.Delete? && Insert(u, r.rid) in s.log ==> u == t
    requires var x := s.running[t];
      || (r.Insert? && r.txn == t && s'.running == s.running[t := x.(ins := x.ins + [r.rid])])
      || (r.Delete? && r.txn == t && s'.running == s.running[t := x.(del := x.del + [r.rid])])
    ensures RunOk(s', u)
  {
    Appended(s.log, r);
    assert Live(s'.log, u);
    var x, x' := s.running[u], s'.running[u];
    assert forall q :: q in x'.ins <==> q in x.ins || (u == t && r.Insert? && q == r.rid);
    assert forall q :: q in x'.del <==> q in x.del || (u == t && r.Delete? && q == r.rid);
  }

  /** A write extends the log properly and keeps the counters. */
  lemma WriteLogged(s: Sys, s': Sys, t: int, r: Record)
    requires Counters(s) && WellLogged(s.log) && t in s.running && RunOk(s, t) && Follows(s.log, r)
    requires r.txn == t && (r.Insert? || r.Delete? || r.Abort?) && s'.log == s.log + [r]
    requires s'.nextTxn == s.nextTxn && s'.nextCommit == s.nextCommit && s'.lastCommit == s.lastCommit
    ensures WellLogged(s'.log) && Counters(s')
  {
    hide WellLogged, Counters, CommitCount, Live, Committed, RunOk, Follows;
    WellLoggedExtend(s.log, r);
    WriteCounts(s, s', t, r);
  }

  lemma WriteCounts(s: Sys, s': Sys, t: int, r: Record)
    requires Counters(s) && t in s.running && RunOk(s, t)
    requires r.txn == t && (r.Insert? || r.Delete? || r.Abort?) && s'.log == s.log + [r]
    requires s'.nextTxn == s.nextTxn && s'.nextCommit == s.nextCommit && s'.lastCommit == s.lastCommit
    ensures Counters(s')
  {
    hide CommitCount, Live, Committed;
    Appended(s.log, r);
  }

  lemma InsertKeeps(s: Sys, t: int, rid: RID)
    requires Inv(s) && Enabled(s, DoInsert(t, rid))
    ensures Inv(InsertStep(s, t, rid))
  {
    hide WellLogged, Counters, RowOk, RunOk, Live, Committed;
    var s', r := InsertStep(s, t, rid), Insert(t, rid);
    InsertFollows(s, t, rid);
    WriteLogged(s, s', t, r);
    forall u | u in s'.running ensures RunOk(s', u) { WriteRuns(s, s', t, r, u); }
    forall q ensures RowOk(s', q) { InsertRow(s, t, rid, q); }
  }

  lemma InsertFollows(s: Sys, t: int, rid: RID)
    requires Inv(s) && Enabled(s, DoInsert(t, rid))
    ensures Follows(s.log, Insert(t, rid)) && rid !in s.store
    ensures forall u :: Insert(u, rid) !in s.log && Delete(u, rid) !in s.log
    ensures forall ts :: Commit(t, ts) !in s.log
  {
    hide WellLogged, CommitCount, RowOk;
    assert RunOk(s, t);
    assert !Committed(s.log, t);
  }

  lemma InsertRow(s: Sys, t: int, rid: RID, q: RID)
    requires Counters(s) && t in s.running && (forall ts :: Commit(t, ts) !in s.log)
    requires rid !in s.store && forall u :: Insert(u, rid) !in s.log && Delete(u, rid) !in s.log
    requires RowOk(s, q)
    ensures RowOk(InsertStep(s, t, rid), q)
  {
    hide Committed, CommitCount;
    var s' := InsertStep(s, t, rid);
    Appended(s.log, Insert(t, rid));
    assert forall u :: u in s.running <==> u in s'.running;
    assert RowComplete(s, q);
    assert RowComplete(s', q);
  }

  /** Rows of other running transactions are not seen. */
  lemma SeenNotRunning(s: Sys, t: int, rid: RID, u: int)
    requires Inv(s) && t in s.running && Sees(s, t, rid) && u in s.running && Insert(u, rid) in s.log
    ensures u == t
  {
    hide WellLogged, CommitCount;
    assert RunOk(s, u) && RowOk(s, rid) && RowComplete(s, rid);
  }

  lemma DeleteKeeps(s: Sys, t: int, rid: RID)
    requires Inv(s) && Enabled(s, DoDelete(t, rid))
    ensures Inv(DeleteStep(s, t, rid))
  {
    hide WellLogged, Counters, RowOk, RunOk, Live, Committed, Sees;
    var s', r := DeleteStep(s, t, rid), Delete(t, rid);
    DeleteFollows(s, t, rid);
    WriteLogged(s, s', t, r);
    forall u | u in s'.running ensures RunOk(s', u) {
      if Insert(u, rid) in s.log { SeenNotRunning(s, t, rid, u); }
      WriteRuns(s, s', t, r, u);
    }
    forall q ensures RowOk(s', q) { DeleteRow(s, t, rid, q); }
  }

  lemma DeleteFollows(s: Sys, t: int, rid: RID)
    requires Inv(s) && Enabled(s, DoDelete(t, rid))
    ensures Follows(s.log, Delete(t, rid)) && Sees(s, t, rid)
    ensures forall ts :: Commit(t, ts) !in s.log
  {
    hide WellLogged, CommitCount, RowOk;
    assert RunOk(s, t);
    assert !Committed(s.log, t);
  }

  lemma DeleteRow(s: Sys, t: int, rid: RID, q: RID)
    requires Counters(s) && t in s.running && (forall ts :: Commit(t, ts) !in s.log)
    requires Sees(s, t, rid) && (rid in s.store ==> s.store[rid].endTxn == INVALID_TXN_ID)
    requires RowOk(s, q)
    ensures RowOk(DeleteStep(s, t, rid), q)
  {
    hide Committed, CommitCount;
    var s' := DeleteStep(s, t, rid);
    Appended(s.log, Delete(t, rid));
    assert forall u :: u in s.running <==> u in s'.running;
    assert RowComplete(s, q);
    assert RowComplete(s', q);
  }

  /** A transaction may commit: nobody else has committed a deletion of a row it deleted, or has deleted a row
      it inserted. */
  lemma CommitAllowed(s: Sys, t: int)
    requires Inv(s) && t in s.running
    ensures Follows(s.log, Commit(t, s.nextCommit))
  {
    hide WellLogged, CommitCount;
    assert RunOk(s, t);
    WellLoggedFacts(s.log);
    forall u, rid | Delete(t, rid) in s.log && Delete(u, rid) in s.log && CommittedInsert(s.log, rid)
      ensures !Committed(s.log, u)
    {
      assert RowOk(s, rid) && RowComplete(s, rid);
      var i :| Insert(i, rid) in s.log && Committed(s.log, i);
    }
  }

  lemma CommitKeeps(s: Sys, t: int)
    requires Inv(s) && t in s.running
    ensures Inv(CommitStep(s, t))
  {
    hide WellLogged, Counters, RowOk, RunOk, CommitStep;
    CommitLogged(s, t);
    forall u | u in CommitStep(s, t).running ensures RunOk(CommitStep(s, t), u) { EndedRun(s, t, u); }
    forall rid ensures RowOk(CommitStep(s, t), rid) { CommitRow(s, t, rid); }
  }

  lemma CommitLogged(s: Sys, t: int)
    requires Inv(s) && t in s.running
    ensures WellLogged(CommitStep(s, t).log) && Counters(CommitStep(s, t))
  {
    hide WellLogged, RowOk, Committed, InsertsCommitted, DeletesCommitted;
    var s', r := CommitStep(s, t), Commit(t, s.nextCommit);
    assert RunOk(s, t);
    CommitAllowed(s, t);
    WellLoggedExtend(s.log, r);
    Appended(s.log, r);
    assert r in s'.log;
  }

  /** A transaction that goes on is unaffected by the end of another one. */
  lemma EndedRun(s: Sys, t: int, u: int)
    requires Inv(s) && t in s.running
    ensures u in CommitStep(s, t).running ==> RunOk(CommitStep(s, t), u)
    ensures u in AbortStep(s, t).running ==> RunOk(AbortStep(s, t), u)
  {
    hide WellLogged, CommitCount, RowOk, InsertsCommitted, DeletesCommitted, InsertsAborted, DeletesAborted;
    if u in s.running && u != t {
      assert RunOk(s, u);
      Appended(s.log, Commit(t, s.nextCommit));
      Appended(s.log, Abort(t));
      assert Live(CommitStep(s, t).log, u) && Live(AbortStep(s, t).log, u);
    }
  }

  /** The version record of a row after a commit. */
  lemma CommittedMeta(s: Sys, t: int, rid: RID)
    requires t in s.running && RunOk(s, t)
    ensures var store := CommitStep(s, t).store;
      && (rid in store <==> rid in s.store)
      && (rid in store ==>
            var v := if Insert(t, rid) in s.log then s.store[rid].(beginTs := s.nextCommit) else s.store[rid];
            store[rid] == if Delete(t, rid) in s.log then v.(endTs := s.nextCommit) else v)
  {
    hide Live;
    var x, ts := s.running[t], s.nextCommit;
    InsertsCommittedAt(s.store, x.ins, ts);
    DeletesCommittedAt(InsertsCommitted(s.store, x.ins, ts), x.del, ts);
  }

  lemma CommitRow(s: Sys, t: int, rid: RID)
    requires Counters(s) && t in s.running && RunOk(s, t) && RowOk(s, rid)
    ensures RowOk(CommitStep(s, t), rid)
  {
    hide CommitCount, InsertsCommitted, DeletesCommitted;
    var s', ts := CommitStep(s, t), s.nextCommit;
    Appended(s.log, Commit(t, ts));
    assert Commit(t, ts) in s'.log;
    CommittedMeta(s, t, rid);
    assert forall u :: u in s'.running <==> u in s.running && u != t;
    assert forall us :: Commit(t, us) !in s.log by { assert !Committed(s.log, t); }
    assert RowComplete(s, rid);
    assert RowComplete(s', rid);
  }

  lemma AbortKeeps(s: Sys, t: int)
    requires Inv(s) && t in s.running
    ensures Inv(AbortStep(s, t))
  {
    hide WellLogged, Counters, RowOk, RunOk, AbortStep;
    AbortLogged(s, t);
    forall u | u in AbortStep(s, t).running ensures RunOk(AbortStep(s, t), u) { EndedRun(s, t, u); }
    WellLoggedFacts(s.log);
    forall rid ensures RowOk(AbortStep(s, t), rid) { AbortRow(s, t, rid); }
  }

  lemma AbortLogged(s: Sys, t: int)
    requires Inv(s) && t in s.running
    ensures WellLogged(AbortStep(s, t).log) && Counters(AbortStep(s, t))
  {
    hide WellLogged, Counters, RowOk, InsertsAborted, DeletesAborted;
    assert RunOk(s, t);
    WriteLogged(s, AbortStep(s, t), t, Abort(t));
  }

  /** The version record of a row after an abort. */
  lemma AbortedMeta(s: Sys, t: int, rid: RID)
    requires t in s.running && RunOk(s, t)
    ensures var store := AbortStep(s, t).store;
      && (rid in store <==> rid in s.store || Insert(t, rid) in s.log)
      && (rid in store ==>
            var v := if Insert(t, rid) in s.log then BLANK_META else s.store[rid];
            store[rid] == if Delete(t, rid) in s.log then v.(endTxn := INVALID_TXN_ID, endTs := INVALID_TS) else v)
  {
    hide Live;
    var x := s.running[t];
    InsertsAbortedAt(s.store, x.ins);
    DeletesAbortedAt(InsertsAborted(s.store, x.ins), x.del);
  }

  lemma AbortRow(s: Sys, t: int, rid: RID)
    requires Counters(s) && LogFacts(s.log) && t in s.running && RunOk(s, t) && RowOk(s, rid)
    ensures RowOk(AbortStep(s, t), rid)
  {
    hide CommitCount, InsertsAborted, DeletesAborted;
    var s' := AbortStep(s, t);
    Appended(s.log, Abort(t));
    AbortedMeta(s, t, rid);
    assert forall u :: u in s'.running <==> u in s.running && u != t;
    assert forall us :: Commit(t, us) !in s.log by { assert !Committed(s.log, t); }
    assert RowComplete(s, rid);
    assert RowComplete(s', rid);
  }

  lemma CrashKeeps(s: Sys, n: nat)
    requires Inv(s) && n <= |s.log|
    ensures Inv(CrashStep(s, n))
  {
    hide WellLogged, CommitCount;
    WellLoggedPrefix(s.log, n);
    if s.log[..n] == [] { InvFresh(); } else { RecoveredInv(s.log[..n]); }
  }

  /** Whatever well-formed log recovery reads, the system it starts satisfies the invariant. */
  lemma RecoveredInv(log: Log)
    requires WellLogged(log) && log != []
    ensures Inv(Restarted(log))
  {
    hide WellLogged, CommitCount, Recovered, CommitMap, MaxTxn, MaxCommit, Rebuilt;
    var s := Restarted(log);
    WellLoggedFacts(log);
    CommitMapIs(log);
    MaximaBound(log);
    MaxCommitCounts(log);
    RecoveredRebuilds(log);
    forall t, ts | Commit(t, ts) in log ensures t in CommitMap(log) && CommitMap(log)[t] == ts {
      assert Committed(log, t);
    }
    assert Counters(s);
    forall rid ensures RowOk(s, rid) { RestartedRow(s, CommitMap(log), rid); }
  }

  lemma RestartedRow(s: Sys, committed: map<int, int>, rid: RID)
    requires s.running == map[] && LogFacts(s.log) && Rebuilt(s.store, s.log, committed)
    requires forall t, ts :: Commit(t, ts) in s.log ==> t in committed && committed[t] == ts
    requires forall t :: t in committed ==> Commit(t, committed[t]) in s.log
    ensures RowOk(s, rid)
  {
    hide CommitCount;
    assert forall t, ts :: Commit(t, ts) in s.log ==> ts >= 1;
    assert forall r :: r in s.log ==> r.txn >= 1;
    if rid in s.store { assert RecoveredRow(s.store[rid], rid, s.log, committed); }
    assert RowComplete(s, rid);
  }

  lemma StepKeeps(s: Sys, a: Step)
    requires Inv(s) && Enabled(s, a)
    ensures Inv(Apply(s, a))
  {
    hide Inv;
    match a
    case DoBegin => BeginKeeps(s);
    case DoInsert(t, rid) => InsertKeeps(s, t, rid);
    case DoDelete(t, rid) => DeleteKeeps(s, t, rid);
    case DoCommit(t) => CommitKeeps(s, t);
    case DoAbort(t) => AbortKeeps(s, t);
    case Crash(n) => CrashKeeps(s, n);
  }
}
