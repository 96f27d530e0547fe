/** What the statements of a session are made of, and what each of them leaves behind. */
module Statements {
  import opened Common
  import opened Versions
  import opened TxnLog
  import opened TxnSystem
  import opened Snapshots

  datatype Write = Ins(rid: RID) | Del(rid: RID)

  datatype Statement =
    | BeginStmt
    | CommitStmt
    | RollbackStmt
    | Writes(writes: seq<Write>)

  function WriteSteps(t: int, ws: seq<Write>): seq<Step> {
    seq(|ws|, i requires 0 <= i < |ws| =>
      match ws[i]
      case Ins(rid) => DoInsert(t, rid)
      case Del(rid) => DoDelete(t, rid))
  }

  /** The steps a statement stands for, given the session's transaction and the next free id. */
  function StepsOf(stmt: Statement, inExplicit: bool, current: Option<int>, nextTxn: int): seq<Step> {
    match stmt
    case BeginStmt => if inExplicit then [] else [DoBegin]
    case CommitStmt => if current.Some? then [DoCommit(current.value)] else []
    case RollbackStmt => if current.Some? then [DoAbort(current.value)] else []
    case Writes(ws) =>
      var t := if current.Some? then current.value else nextTxn;
      (if current.Some? then [] else [DoBegin]) + WriteSteps(t, ws) + (if inExplicit then [] else [DoCommit(t)])
  }

  // ---- what is left behind ----

  /** A transaction that begins now sees the row. */
  predicate NextSees(s: Sys, rid: RID) {
    Sees(BeginStep(s), s.nextTxn, rid)
  }

  /** A transaction with an empty write set runs on the snapshot of all commits so far. */
  ghost predicate Opened(s: Sys, s': Sys) {
    && s'.running == s.running[s.nextTxn := Txn(s.lastCommit, [], [])]
    && s'.log == s.log + [Begin(s.nextTxn)] && s'.store == s.store
  }

  /** Transaction `t` is over and committed; whoever begins next sees what it inserted and nothing it deleted. */
  ghost predicate EndsCommitted(s: Sys, s': Sys, t: int) {
    && s'.running == s.running - {t}
    && |s'.log| == |s.log| + 1 && s.log <= s'.log && Committed(s'.log, t)
    && (Inv(s) ==>
          && (forall rid :: Insert(t, rid) in s.log && Delete(t, rid) !in s.log ==> NextSees(s', rid))
          && (forall rid :: Delete(t, rid) in s.log && rid in s.store ==> !NextSees(s', rid)))
  }

  /** Transaction `t` is over and not committed; nobody sees what it inserted, and its deletes change nobody's view. */
  ghost predicate EndsAborted(s: Sys, s': Sys, t: int) {
    && s'.running == s.running - {t}
    && s'.log == s.log + [Abort(t)]
    && (Inv(s) ==>
          && !Committed(s'.log, t)
          && (forall rid :: Insert(t, rid) in s.log ==> !NextSees(s', rid))
          && (forall u, rid :: u in s'.running && Insert(t, rid) in s.log ==> !Sees(s', u, rid))
          && (forall u, rid :: u in s'.running && rid in s.store ==> (Sees(s', u, rid) <==> Sees(s, u, rid))))
  }

  /** The log has grown by one record for each write, in their order. */
  ghost predicate Recorded(ws: seq<Write>, t: int, log: Log, from: nat) {
    && from + |ws| <= |log|
    && forall i :: 0 <= i < |ws| ==>
         match ws[i]
         case Ins(rid) => log[from + i] == Insert(t, rid)
         case Del(rid) => log[from + i] == Delete(t, rid)
  }

  /** Transaction `t` goes on with the writes added to its write sets. */
  ghost predicate Wrote(s: Sys, s': Sys, t: int, ws: seq<Write>)
    requires t in s.running
  {
    && |s'.log| == |s.log| + |ws| && s.log <= s'.log && Recorded(ws, t, s'.log, |s.log|)
    && s.store.Keys <= s'.store.Keys
    && s'.running.Keys == s.running.Keys && s'.running[t].readTs == s.running[t].readTs
    && (forall u :: u in s.running && u != t ==> s'.running[u] == s.running[u])
    && (forall rid :: rid in s'.running[t].ins <==> rid in s.running[t].ins || Ins(rid) in ws)
    && (forall rid :: rid in s'.running[t].del <==> rid in s.running[t].del || Del(rid) in ws)
  }

  /** A statement of its own: a new transaction with exactly these writes has begun and committed. */
  ghost predicate WroteAlone(s: Sys, s': Sys, ws: seq<Write>) {
    var t := s.nextTxn;
    && s'.running == s.running
    && |s'.log| == |s.log| + |ws| + 2 && s.log <= s'.log && s'.log[|s.log|] == Begin(t)
    && Recorded(ws, t, s'.log, |s.log| + 1) && s'.log[|s.log| + 1 + |ws|].Commit? && s'.log[|s.log| + 1 + |ws|].txn == t
    && (Inv(s') ==>
          && (forall rid :: Ins(rid) in ws && Del(rid) !in ws ==> NextSees(s', rid))
          && (forall rid :: Del(rid) in ws && rid in s.store ==> !NextSees(s', rid)))
  }

  /** What a statement does to the state, given the session's transaction. */
  ghost predicate Effect(stmt: Statement, inExplicit: bool, current: Option<int>, s: Sys, s': Sys)
    requires current.Some? ==> current.value in s.running
  {
    match stmt
    case BeginStmt => if inExplicit then s' == s else Opened(s, s')
    case CommitStmt => if current.Some? then EndsCommitted(s, s', current.value) else s' == s
    case RollbackStmt => if current.Some? then EndsAborted(s, s', current.value) else s' == s
    case Writes(ws) =>
      if current.None? then !inExplicit ==> WroteAlone(s, s', ws)
      else if inExplicit then Wrote(s, s', current.value, ws)
      else exists m :: Wrote(s, m, current.value, ws) && EndsCommitted(m, s', current.value)
  }

  // ---- ending a transaction ----

  /** Among registered rows, a newcomer sees exactly those a committed transaction inserted and none deleted. */
  lemma NewcomerSees(s: Sys, rid: RID)
    requires Inv(s) && rid in s.store
    ensures NextSees(s, rid) <==> CommittedInsert(s.log, rid) && !CommittedDelete(s.log, rid)
  {
    hide WellLogged, CommitCount, Snapshot, Live, RowOk;
    var b, t := BeginStep(s), s.nextTxn;
    BeginKeeps(s);
    SnapshotIsolation(b, t, rid);
    SnapshotAppend(s.log, Begin(t), s.lastCommit);
    SnapshotIs(s.log, s.lastCommit, rid);
    WellLoggedFacts(s.log);
    AllAmong(s.log);
  }

  lemma CommitEnds(s: Sys, t: int)
    requires t in s.running
    ensures EndsCommitted(s, CommitStep(s, t), t)
  {
    hide Inv, InsertsCommitted, DeletesCommitted, NextSees;
    var s' := CommitStep(s, t);
    Appended(s.log, Commit(t, s.nextCommit));
    if Inv(s) {
      forall rid | Insert(t, rid) in s.log && Delete(t, rid) !in s.log ensures NextSees(s', rid) {
        CommitShows(s, t, rid);
      }
      forall rid | Delete(t, rid) in s.log && rid in s.store ensures !NextSees(s', rid) {
        CommitHides(s, t, rid);
      }
    }
  }

  lemma CommitShows(s: Sys, t: int, rid: RID)
    requires Inv(s) && t in s.running && Insert(t, rid) in s.log && Delete(t, rid) !in s.log
    ensures NextSees(CommitStep(s, t), rid)
  {
    hide WellLogged, CommitCount, InsertsCommitted, DeletesCommitted, NextSees, Live;
    var s' := CommitStep(s, t);
    CommitKeeps(s, t);
    Appended(s.log, Commit(t, s.nextCommit));
    assert RunOk(s, t) && RowOk(s', rid) && RowComplete(s', rid);
    NewcomerSees(s', rid);
  }

  lemma CommitHides(s: Sys, t: int, rid: RID)
    requires Inv(s) && t in s.running && Delete(t, rid) in s.log && rid in s.store
    ensures !NextSees(CommitStep(s, t), rid)
  {
    hide WellLogged, CommitCount, InsertsCommitted, DeletesCommitted, NextSees, Live, RowOk, RunOk;
    var s', x, ts := CommitStep(s, t), s.running[t], s.nextCommit;
    CommitKeeps(s, t);
    Appended(s.log, Commit(t, s.nextCommit));
    InsertsCommittedAt(s.store, x.ins, ts);
    DeletesCommittedAt(InsertsCommitted(s.store, x.ins, ts), x.del, ts);
    NewcomerSees(s', rid);
  }

  lemma AbortEnds(s: Sys, t: int)
    requires t in s.running
    ensures EndsAborted(s, AbortStep(s, t), t)
  {
    hide Inv, InsertsAborted, DeletesAborted, NextSees, Sees, Committed;
    var s' := AbortStep(s, t);
    if Inv(s) {
      StillLive(s, t);
      forall rid | Insert(t, rid) in s.log
        ensures !NextSees(s', rid) && forall u :: u in s'.running ==> !Sees(s', u, rid)
      {
        AbortHides(s, t, rid);
      }
      forall u, rid | u in s'.running && rid in s.store ensures Sees(s', u, rid) <==> Sees(s, u, rid) {
        OthersKeepSight(s, DoAbort(t), u, rid);
      }
    }
  }

  lemma StillLive(s: Sys, t: int)
    requires Inv(s) && t in s.running
    ensures !Committed(s.log + [Abort(t)], t)
  {
    hide WellLogged, CommitCount, RowOk;
    assert RunOk(s, t);
    Appended(s.log, Abort(t));
  }

  lemma AbortHides(s: Sys, t: int, rid: RID)
    requires Inv(s) && t in s.running && Insert(t, rid) in s.log
    ensures var s' := AbortStep(s, t);
      !NextSees(s', rid) && forall u :: u in s'.running ==> !Sees(s', u, rid)
  {
    hide WellLogged, CommitCount, InsertsAborted, DeletesAborted, RowOk, Live, Sees;
    var s' := AbortStep(s, t);
    assert RunOk(s, t);
    AbortKeeps(s, t);
    AbortBuries(s, t, rid);
    BeginKeeps(s');
    forall u | u in s'.running ensures !Sees(s', u, rid) { DeadUnseen(s', t, rid, u); }
    DeadUnseen(BeginStep(s'), t, rid, s'.nextTxn);
  }

  // ---- writing ----

  lemma {:induction false} Writing(s: Sys, t: int, ws: seq<Write>, n: nat)
    requires t in s.running && n <= |ws| && Loose(s, WriteSteps(t, ws))
    ensures Loose(s, WriteSteps(t, ws)[..n])
    ensures var m := Run(s, WriteSteps(t, ws)[..n]);
      && Wrote(s, m, t, ws[..n]) && m.nextTxn == s.nextTxn
    decreases n
  {
    hide Loose, Run, Tested, Recorded;
    var steps := WriteSteps(t, ws);
    if n == 0 {
      NoSteps(s);
      NothingWritten(s, t);
    } else {
      Writing(s, t, ws, n - 1);
      NextStep(s, steps, n - 1);
      var m, m' := Run(s, steps[..n - 1]), Run(s, steps[..n]);
      assert ws[..n] == ws[..n - 1] + [ws[n - 1]];
      WroteMore(s, m, m', t, ws[..n - 1], ws[n - 1]);
    }
  }

  lemma NothingWritten(s: Sys, t: int)
    requires t in s.running
    ensures Wrote(s, s, t, [])
  {
  }

  lemma WroteMore(s: Sys, m: Sys, m': Sys, t: int, ws: seq<Write>, w: Write)
    requires t in s.running && Wrote(s, m, t, ws)
    requires m' == match w { case Ins(rid) => InsertStep(m, t, rid) case Del(rid) => DeleteStep(m, t, rid) }
    ensures Wrote(s, m', t, ws + [w])
  {
    var all := ws + [w];
    assert forall i :: 0 <= i < |m.log| ==> m'.log[i] == m.log[i];
    assert Recorded(all, t, m'.log, |s.log|) by {
      forall i | 0 <= i < |all| ensures
        match all[i]
        case Ins(rid) => m'.log[|s.log| + i] == Insert(t, rid)
        case Del(rid) => m'.log[|s.log| + i] == Delete(t, rid)
      {
        if i < |ws| { assert all[i] == ws[i]; }
      }
    }
    assert forall v :: v in all <==> v in ws || v == w;
    assert m'.running.Keys == s.running.Keys;
  }

  // ---- a statement with its own transaction ----

  lemma AloneEnds(s: Sys, m: Sys, ws: seq<Write>)
    requires Wrote(BeginStep(s), m, s.nextTxn, ws) && s.nextTxn !in s.running
    ensures WroteAlone(s, CommitStep(m, s.nextTxn), ws)
  {
    hide Inv, InsertsCommitted, DeletesCommitted, NextSees;
    var b, t := BeginStep(s), s.nextTxn;
    var s' := CommitStep(m, t);
    assert b.log[|s.log|] == Begin(t) && b.log[..|s.log|] == s.log;
    forall i | 0 <= i < |m.log| ensures s'.log[i] == m.log[i] {}
    assert forall u :: u in s.running ==> b.running[u] == s.running[u] && u != t;
    assert s'.running.Keys == s.running.Keys;
    assert s'.running == s.running;
    if Inv(s') {
      AloneRead(s, m, ws);
      forall rid | Ins(rid) in ws && Del(rid) !in ws ensures NextSees(s', rid) { AloneShows(m, t, rid); }
      forall rid | Del(rid) in ws && rid in s.store ensures !NextSees(s', rid) { AloneHides(m, t, rid); }
    }
  }

  /** The new transaction's records are exactly the listed writes. */
  lemma AloneRead(s: Sys, m: Sys, ws: seq<Write>)
    requires Wrote(BeginStep(s), m, s.nextTxn, ws) && Inv(CommitStep(m, s.nextTxn))
    ensures forall rid :: Insert(s.nextTxn, rid) in m.log <==> Ins(rid) in ws
    ensures forall rid :: Delete(s.nextTxn, rid) in m.log <==> Del(rid) in ws
  {
    hide InsertsCommitted, DeletesCommitted, CommitCount, RowOk, RunOk, Counters;
    var b, t := BeginStep(s), s.nextTxn;
    var log, n := CommitStep(m, t).log, |s.log|;
    assert b.log[n] == Begin(t) && b.log[..n] == s.log;
    assert log[n] == Begin(t) && log[..n] == s.log;
    assert Follows(log[..n], log[n]);
    forall rid | Insert(t, rid) in m.log || Delete(t, rid) in m.log
      ensures (Insert(t, rid) in m.log ==> Ins(rid) in ws) && (Delete(t, rid) in m.log ==> Del(rid) in ws)
    {
      if Insert(t, rid) in m.log { AloneFrom(s, m, ws, Insert(t, rid)); }
      if Delete(t, rid) in m.log { AloneFrom(s, m, ws, Delete(t, rid)); }
    }
    forall i | 0 <= i < |ws|
      ensures (ws[i].Ins? ==> Insert(t, ws[i].rid) in m.log) && (ws[i].Del? ==> Delete(t, ws[i].rid) in m.log)
    {
      assert m.log[n + 1 + i] in m.log;
    }
  }

  /** A record of the new transaction behind its begin is one of the writes. */
  lemma AloneFrom(s: Sys, m: Sys, ws: seq<Write>, q: Record)
    requires Wrote(BeginStep(s), m, s.nextTxn, ws) && forall p :: p in s.log ==> p.txn < s.nextTxn
    requires q in m.log && q.txn == s.nextTxn && !q.Begin?
    ensures q.Insert? ==> Ins(q.rid) in ws
    ensures q.Delete? ==> Del(q.rid) in ws
  {
    var b, t, n := BeginStep(s), s.nextTxn, |s.log|;
    var k :| 0 <= k < |m.log| && m.log[k] == q;
    assert b.log[n] == Begin(t) && b.log[..n] == s.log;
    assert forall j :: 0 <= j < |b.log| ==> m.log[j] == b.log[j];
    assert forall j :: 0 <= j < n ==> b.log[j] == s.log[j];
    assert n < k;
    var i := k - n - 1;
    assert |b.log| + i == k;
    assert ws[i] in ws;
  }

  lemma AloneShows(m: Sys, t: int, rid: RID)
    requires t in m.running && Inv(CommitStep(m, t)) && Insert(t, rid) in m.log && Delete(t, rid) !in m.log
    ensures NextSees(CommitStep(m, t), rid)
  {
    hide InsertsCommitted, DeletesCommitted, CommitCount, NextSees, Counters, Live;
    var s', r := CommitStep(m, t), Commit(t, m.nextCommit);
    Appended(m.log, r);
    assert s'.log[|m.log|] == r && s'.log[..|m.log|] == m.log;
    assert Follows(m.log, r);
    assert RowOk(s', rid) && RowComplete(s', rid);
    NewcomerSees(s', rid);
  }

  lemma AloneHides(m: Sys, t: int, rid: RID)
    requires t in m.running && Inv(CommitStep(m, t)) && Delete(t, rid) in m.log && rid in m.store
    ensures !NextSees(CommitStep(m, t), rid)
  {
    hide InsertsCommitted, DeletesCommitted, CommitCount, NextSees, Inv;
    var s', x, ts := CommitStep(m, t), m.running[t], m.nextCommit;
    Appended(m.log, Commit(t, ts));
    InsertsCommittedAt(m.store, x.ins, ts);
    DeletesCommittedAt(InsertsCommitted(m.store, x.ins, ts), x.del, ts);
    NewcomerSees(s', rid);
  }

  // ---- every statement ----

  lemma Executed(stmt: Statement, inExplicit: bool, current: Option<int>, s: Sys)
    requires (current.Some? ==> current.value in s.running) && (inExplicit ==> current.Some?)
    requires s.nextTxn !in s.running && Loose(s, StepsOf(stmt, inExplicit, current, s.nextTxn))
    ensures Effect(stmt, inExplicit, current, s, Run(s, StepsOf(stmt, inExplicit, current, s.nextTxn)))
  {
    hide Wrote, WroteAlone, EndsCommitted, EndsAborted, WriteSteps;
    match stmt
    case BeginStmt =>
    case CommitStmt => if current.Some? { OneStep(s, DoCommit(current.value)); CommitEnds(s, current.value); }
    case RollbackStmt => if current.Some? { OneStep(s, DoAbort(current.value)); AbortEnds(s, current.value); }
    case Writes(ws) => ExecutedWrites(ws, inExplicit, current, s);
  }

  lemma OneStep(s: Sys, a: Step)
    requires Loose(s, [a])
    ensures Tested(s, a) && Run(s, [a]) == Apply(s, a)
  {
    NoSteps(Apply(s, a));
  }

  lemma ExecutedWrites(ws: seq<Write>, inExplicit: bool, current: Option<int>, s: Sys)
    requires (current.Some? ==> current.value in s.running) && (inExplicit ==> current.Some?)
    requires s.nextTxn !in s.running && Loose(s, StepsOf(Writes(ws), inExplicit, current, s.nextTxn))
    ensures Effect(Writes(ws), inExplicit, current, s, Run(s, StepsOf(Writes(ws), inExplicit, current, s.nextTxn)))
  {
    hide Wrote, WroteAlone, EndsCommitted, WriteSteps, Loose, Run, InsertsCommitted, DeletesCommitted;
    var t := if current.Some? then current.value else s.nextTxn;
    var opening: seq<Step> := if current.Some? then [] else [DoBegin];
    var closing: seq<Step> := if inExplicit then [] else [DoCommit(t)];
    var writing := WriteSteps(t, ws);
    assert StepsOf(Writes(ws), inExplicit, current, s.nextTxn) == opening + (writing + closing);
    RunSplit(s, opening, writing + closing);
    var b := Run(s, opening);
    if current.Some? { NoSteps(s); } else { OneStep(s, DoBegin); }
    RunSplit(b, writing, closing);
    Writing(b, t, ws, |ws|);
    WholeWriting(t, ws);
    var m := Run(b, writing);
    if inExplicit { NoSteps(m); } else { OneStep(m, DoCommit(t)); }
    if current.None? {
      AloneEnds(s, m, ws);
    } else if !inExplicit {
      CommitEnds(m, t);
    }
  }

  lemma WholeWriting(t: int, ws: seq<Write>)
    ensures WriteSteps(t, ws)[..|ws|] == WriteSteps(t, ws) && ws[..|ws|] == ws
  {
  }
}
