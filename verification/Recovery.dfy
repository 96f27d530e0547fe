/** Crash recovery: rebuilding the version store from the log. */
module Recovery {
  import opened Common
  import opened Versions
  import opened TxnLog
  import opened TxnManager

  // ---- what the two passes compute ----

  function CommitMap(log: Log): map<int, int> {
    if log == [] then map[] else
      var m, r := CommitMap(log[..|log| - 1]), log[|log| - 1];
      if r.Commit? then m[r.txn := r.ts] else m
  }

  function MaxTxn(log: Log): int {
    if log == [] then 0 else
      var m, r := MaxTxn(log[..|log| - 1]), log[|log| - 1];
      if r.txn > m then r.txn else m
  }

  function MaxCommit(log: Log): int {
    if log == [] then 0 else
      var m, r := MaxCommit(log[..|log| - 1]), log[|log| - 1];
      if r.Commit? && r.ts > m then r.ts else m
  }

  function MetaAt(m: Metas, rid: RID): VersionMeta {
    if rid in m then m[rid] else BLANK_META
  }

  function ReplayOne(m: Metas, r: Record, committed: map<int, int>): Metas {
    if r.Insert? && r.txn in committed then
      m[r.rid := MetaAt(m, r.rid).(beginTxn := r.txn, beginTs := committed[r.txn])]
    else if r.Delete? && r.txn in committed then
      m[r.rid := MetaAt(m, r.rid).(endTxn := r.txn, endTs := committed[r.txn])]
    else m
  }

  function Replay(m: Metas, log: Log, committed: map<int, int>): Metas {
    if log == [] then m else ReplayOne(Replay(m, log[..|log| - 1], committed), log[|log| - 1], committed)
  }

  function Recovered(m: Metas, log: Log): Metas {
    Replay(m, log, CommitMap(log))
  }

  class RecoveryManager {
    const log: LogManager
    const versions: VersionStore
    const txns: TransactionManager

    constructor (log: LogManager, versions: VersionStore, txns: TransactionManager)
      ensures this.log == log && this.versions == versions && this.txns == txns
    {
      this.log, this.versions, this.txns := log, versions, txns;
    }

    /** Two passes over the log; returns the number of committed transactions. */
    method Recover() returns (n: nat)
      requires log.Valid()
      modifies versions, txns`nextTxnId, txns`nextCommitTs, txns`lastCommitTs
      ensures versions.store == Recovered(old(versions.store), log.Records())
      ensures n == |CommitMap(log.Records())|
      ensures log.Records() != [] ==>
        && txns.nextTxnId == MaxTxn(log.Records()) + 1
        && txns.lastCommitTs == MaxCommit(log.Records()) && txns.nextCommitTs == txns.lastCommitTs + 1
      ensures log.Records() == [] ==> unchanged(txns)
    {
      var records := log.ReadAll();
      if records == [] { return 0; }

      var committed: map<int, int> := map[];
      var maxTxn, maxCommit := 0, 0;
      var i := 0;
      while i < |records|
        invariant i <= |records|
        invariant committed == CommitMap(records[..i])
        invariant maxTxn == MaxTxn(records[..i]) && maxCommit == MaxCommit(records[..i])
      {
        var r := records[i];
        assert records[..i + 1][..i] == records[..i];
        if r.txn > maxTxn { maxTxn := r.txn; }
        if r.Commit? {
          committed := committed[r.txn := r.ts];
          if r.ts > maxCommit { maxCommit := r.ts; }
        }
        i := i + 1;
      }
      assert records[..i] == records;

      i := 0;
      while i < |records|
        invariant i <= |records|
        invariant versions.store == Replay(old(versions.store), records[..i], committed)
      {
        var r := records[i];
        assert records[..i + 1][..i] == records[..i];
        if (r.Insert? || r.Delete?) && r.txn in committed {
          var commitTs := committed[r.txn];
          var known := versions.GetMeta(r.rid);
          var meta := if known.Some? then known.value else BLANK_META;
          if r.Insert? {
            meta := meta.(beginTxn := r.txn, beginTs := commitTs);
          } else {
            meta := meta.(endTxn := r.txn, endTs := commitTs);
          }
          versions.SetMeta(r.rid, meta);
        }
        i := i + 1;
      }
      assert records[..i] == records;
      txns.Reset(maxTxn + 1, maxCommit);
      return |committed|;
    }
  }

  // ---- the first pass ----

  lemma {:induction false} CommitMapIs(log: Log)
    requires forall t, ts, us :: Commit(t, ts) in log && Commit(t, us) in log ==> ts == us
    ensures forall t :: t in CommitMap(log) <==> Committed(log, t)
    ensures forall t :: t in CommitMap(log) ==> Commit(t, CommitMap(log)[t]) in log
    decreases |log|
  {
    if log != [] {
      var p, r := log[..|log| - 1], log[|log| - 1];
      assert log == p + [r];
      assert forall q :: q in log <==> q in p || q == r;
      CommitMapIs(p);
      forall t | Committed(log, t) ensures t in CommitMap(log) {
        var ts :| Commit(t, ts) in log;
        if Commit(t, ts) in p { assert Committed(p, t); }
      }
      forall t | t in CommitMap(log) ensures Commit(t, CommitMap(log)[t]) in log {
      }
    }
  }

  lemma {:induction false} MaximaBound(log: Log)
    ensures forall r :: r in log ==> r.txn <= MaxTxn(log)
    ensures forall t, ts :: Commit(t, ts) in log ==> ts <= MaxCommit(log)
    ensures MaxTxn(log) >= 0 && MaxCommit(log) >= 0
    decreases |log|
  {
    if log != [] {
      var p, r := log[..|log| - 1], log[|log| - 1];
      assert log == p + [r];
      MaximaBound(p);
    }
  }

  /** In a well-formed log the largest commit timestamp is the number of commits. */
  lemma {:induction false} MaxCommitCounts(log: Log)
    requires WellLogged(log)
    ensures MaxCommit(log) == CommitCount(log)
    decreases |log|
  {
    hide WellLogged, CommitCount, MaxCommit, Live, Committed;
    CountsUnfold(log);
    if log != [] {
      WellLoggedPrefix(log, |log| - 1);
      MaxCommitCounts(log[..|log| - 1]);
      LastFollows(log);
    }
  }

  lemma CountsUnfold(log: Log)
    ensures log == [] ==> MaxCommit(log) == CommitCount(log) == 0
    ensures log != [] ==>
      var p, r := log[..|log| - 1], log[|log| - 1];
      && CommitCount(log) == CommitCount(p) + (if r.Commit? then 1 else 0)
      && MaxCommit(log) == if r.Commit? && r.ts > MaxCommit(p) then r.ts else MaxCommit(p)
  {
  }

  // ---- the second pass ----

  /** The record recovery writes for a row: its committed creator, if any, and a committed deleter, if any. */
  ghost predicate RecoveredRow(v: VersionMeta, rid: RID, log: Log, committed: map<int, int>) {
    && (if v.beginTxn == INVALID_TXN_ID then v.beginTs == INVALID_TS
        else Insert(v.beginTxn, rid) in log && v.beginTxn in committed && v.beginTs == committed[v.beginTxn])
    && (if v.endTxn == INVALID_TXN_ID then v.endTs == INVALID_TS
        else Delete(v.endTxn, rid) in log && v.endTxn in committed && v.endTs == committed[v.endTxn])
    && (v.beginTxn != INVALID_TXN_ID || v.endTxn != INVALID_TXN_ID)
  }

  /** `m` registers exactly the rows that committed transactions inserted or deleted in `log`, as `committed` says. */
  ghost predicate Rebuilt(m: Metas, log: Log, committed: map<int, int>) {
    && (forall rid :: rid in m ==> RecoveredRow(m[rid], rid, log, committed))
    && (forall t, rid :: Insert(t, rid) in log && t in committed ==>
          rid in m && m[rid].beginTxn == t)
    && (forall t, rid :: Delete(t, rid) in log && t in committed ==>
          rid in m && m[rid].endTxn != INVALID_TXN_ID)
  }

  /** Facts about the records a replay meets. */
  ghost predicate Replayable(log: Log) {
    && (forall r :: r in log ==> r.txn >= 1)
    && (forall t, u, rid :: Insert(t, rid) in log && Insert(u, rid) in log ==> t == u)
  }

  lemma {:induction false} ReplayRebuilds(log: Log, committed: map<int, int>)
    requires Replayable(log)
    ensures Rebuilt(Replay(map[], log, committed), log, committed)
    decreases |log|
  {
    if log != [] {
      var p, r := log[..|log| - 1], log[|log| - 1];
      assert log == p + [r];
      ReplayRebuilds(p, committed);
      ReplayStep(Replay(map[], p, committed), p, r, committed);
    }
  }

  lemma ReplayStep(m: Metas, p: Log, r: Record, committed: map<int, int>)
    requires Rebuilt(m, p, committed) && Replayable(p + [r])
    ensures Rebuilt(ReplayOne(m, r, committed), p + [r], committed)
  {
    var log, m' := p + [r], ReplayOne(m, r, committed);
    assert r in log;
    assert forall q :: q in log <==> q in p || q == r;
    forall rid | rid in m' ensures RecoveredRow(m'[rid], rid, log, committed) {
      if rid in m { assert RecoveredRow(m[rid], rid, p, committed); }
    }
  }

  /** Recovery of a well-formed log registers exactly the rows that committed transactions inserted or deleted. */
  lemma RecoveredRebuilds(log: Log)
    requires WellLogged(log)
    ensures Rebuilt(Recovered(map[], log), log, CommitMap(log))
  {
    hide Rebuilt, WellLogged;
    WellLoggedFacts(log);
    ReplayRebuilds(log, CommitMap(log));
  }

  // ---- recovering twice ----

  /** The value a field ends up with: written by the last record that concerns it, else kept. */
  function LastInsert(log: Log, rid: RID, committed: map<int, int>): Option<int> {
    if log == [] then None else
      var r := log[|log| - 1];
      if r.Insert? && r.rid == rid && r.txn in committed then Some(r.txn)
      else LastInsert(log[..|log| - 1], rid, committed)
  }

  function LastDelete(log: Log, rid: RID, committed: map<int, int>): Option<int> {
    if log == [] then None else
      var r := log[|log| - 1];
      if r.Delete? && r.rid == rid && r.txn in committed then Some(r.txn)
      else LastDelete(log[..|log| - 1], rid, committed)
  }

  ghost function Final(v: VersionMeta, log: Log, rid: RID, committed: map<int, int>): VersionMeta {
    var b, e := LastInsert(log, rid, committed), LastDelete(log, rid, committed);
    var v1 := if b.Some? && b.value in committed then v.(beginTxn := b.value, beginTs := committed[b.value]) else v;
    if e.Some? && e.value in committed then v1.(endTxn := e.value, endTs := committed[e.value]) else v1
  }

  lemma {:induction false} ReplayFinal(m: Metas, log: Log, committed: map<int, int>)
    ensures var m' := Replay(m, log, committed);
      forall rid :: (
        && (rid in m' <==> rid in m || LastInsert(log, rid, committed).Some? || LastDelete(log, rid, committed).Some?)
        && (rid in m' ==> m'[rid] == Final(MetaAt(m, rid), log, rid, committed)))
    decreases |log|
  {
    if log != [] { ReplayFinal(m, log[..|log| - 1], committed); }
  }

  /** Recovering a second time changes nothing, whatever the store and the log. */
  lemma RecoverIdempotent(m: Metas, log: Log)
    ensures Recovered(Recovered(m, log), log) == Recovered(m, log)
  {
    var committed := CommitMap(log);
    ReplayFinal(m, log, committed);
    ReplayFinal(Recovered(m, log), log, committed);
    var once, twice := Recovered(m, log), Recovered(Recovered(m, log), log);
    forall rid | rid in once ensures rid in twice && twice[rid] == once[rid] {
    }
    assert once.Keys == twice.Keys;
  }
}
