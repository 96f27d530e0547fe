/** The write-ahead log: its records, the file they live in, and what makes a log well formed. */
module TxnLog {
  import opened Common

  datatype Record =
    | Begin(txn: int)
    | Insert(txn: int, rid: RID)
    | Delete(txn: int, rid: RID)
    | Commit(txn: int, ts: int)
    | Abort(txn: int)

  datatype Stored = Stored(lsn: int, rec: Record)

  // ---- the log file ----

  // Writing record number `i` of a file of fixed-size records.
  function WriteAt(file: seq<Stored>, i: nat, s: Stored): seq<Stored>
    requires i <= |file|
  {
    if i < |file| then file[i := s] else file + [s]
  }

  /** Fixed-size records at offset lsn * size, so the file is a sequence indexed by lsn. */
  class LogManager {
    var file: seq<Stored>
    var nextLsn: int

    ghost predicate Valid()
      reads this
    {
      nextLsn == |file| && forall i :: 0 <= i < |file| ==> file[i].lsn == i
    }

    ghost function Records(): seq<Record>
      reads this
    {
      seq(|file|, i requires 0 <= i < |file| reads this => file[i].rec)
    }

    /** Opening an existing file continues with the next free lsn. */
    constructor (existing: seq<Stored>)
      requires forall i :: 0 <= i < |existing| ==> existing[i].lsn == i
      ensures Valid() && file == existing
    {
      file := existing;
      nextLsn := if |existing| > 0 then |existing| else 0;
    }

    method Append(rec: Record) returns (lsn: int)
      requires Valid()
      modifies this
      ensures Valid() && lsn == |old(file)|
      ensures Records() == old(Records()) + [rec]
    {
      lsn := nextLsn;
      nextLsn := nextLsn + 1;
      file := WriteAt(file, lsn, Stored(lsn, rec));
    }

    method ReadAll() returns (out: seq<Record>)
      requires Valid()
      ensures out == Records()
    {
      out := [];
      var i := 0;
      while i < |file|
        invariant i <= |file| && |out| == i
        invariant forall j :: 0 <= j < i ==> out[j] == file[j].rec
      {
        out := out + [file[i].rec];
        i := i + 1;
      }
    }
  }

  // ---- which logs a guarded run can write ----

  type Log = seq<Record>

  ghost predicate Committed(log: Log, txn: int) {
    exists ts :: Commit(txn, ts) in log
  }

  function CommitCount(log: Log): nat {
    if log == [] then 0
    else CommitCount(log[..|log| - 1]) + if log[|log| - 1].Commit? then 1 else 0
  }

  /** `txn` has begun and is neither committed nor aborted. */
  ghost predicate Live(log: Log, txn: int) {
    Begin(txn) in log && !Committed(log, txn) && Abort(txn) !in log
  }

  ghost predicate CommittedInsert(log: Log, rid: RID) {
    exists t :: Insert(t, rid) in log && Committed(log, t)
  }

  ghost predicate CommittedDelete(log: Log, rid: RID) {
    exists t :: Delete(t, rid) in log && Committed(log, t)
  }

  /** Record `r` may come next after `log`. */
  ghost predicate Follows(log: Log, r: Record) {
    match r
    case Begin(t) => t >= 1 && forall q :: q in log ==> q.txn < t
    case Insert(t, rid) => Live(log, t) && forall u :: Insert(u, rid) !in log && Delete(u, rid) !in log
    case Delete(t, rid) => Live(log, t)
    case Commit(t, ts) =>
      && Live(log, t) && ts == CommitCount(log) + 1
      && (forall u, rid ::
           Delete(t, rid) in log && Delete(u, rid) in log && Committed(log, u) && CommittedInsert(log, rid) ==> u == t)
      && (forall u, rid :: Insert(t, rid) in log && Delete(u, rid) in log ==> u == t)
    case Abort(t) => Live(log, t)
  }

  /** Every record of the log was allowed when it was written. */
  ghost predicate WellLogged(log: Log) {
    forall i :: 0 <= i < |log| ==> Follows(log[..i], log[i])
  }

  lemma Appended(log: Log, r: Record)
    ensures forall q :: q in log + [r] <==> q in log || q == r
    ensures forall t :: Committed(log + [r], t) <==> Committed(log, t) || (r.Commit? && r.txn == t)
    ensures CommitCount(log + [r]) == CommitCount(log) + if r.Commit? then 1 else 0
  {
    assert (log + [r])[..|log|] == log;
    forall t | Committed(log, t) ensures Committed(log + [r], t) {
      var ts :| Commit(t, ts) in log;
      assert Commit(t, ts) in log + [r];
    }
    if r.Commit? { assert r == Commit(r.txn, r.ts) && r in log + [r]; }
  }

  lemma WellLoggedPrefix(log: Log, n: nat)
    requires WellLogged(log) && n <= |log|
    ensures WellLogged(log[..n])
  {
    forall i | 0 <= i < n ensures Follows(log[..n][..i], log[..n][i]) {
      assert log[..n][..i] == log[..i];
    }
  }

  lemma WellLoggedExtend(log: Log, r: Record)
    requires WellLogged(log) && Follows(log, r)
    ensures WellLogged(log + [r])
  {
    var log' := log + [r];
    forall i | 0 <= i < |log'| ensures Follows(log'[..i], log'[i]) {
      if i < |log| {
        assert log'[..i] == log[..i];
      } else {
        assert log'[..i] == log;
      }
    }
  }

  lemma LastFollows(log: Log)
    requires WellLogged(log) && log != []
    ensures Follows(log[..|log| - 1], log[|log| - 1])
  {
    hide CommitCount, Live, Committed;
  }

  /** What a well-formed log guarantees about transactions and rows. */
  ghost predicate LogFacts(log: Log) {
    && (forall r :: r in log ==> r.txn >= 1)
    && (forall t, ts :: Commit(t, ts) in log ==> 1 <= ts <= CommitCount(log))
    && (forall t, ts, us :: Commit(t, ts) in log && Commit(t, us) in log ==> ts == us)
    && (forall t, u, ts :: Commit(t, ts) in log && Commit(u, ts) in log ==> t == u)
    && (forall t, u, rid :: Insert(t, rid) in log && Insert(u, rid) in log ==> t == u)
    && (forall t, u, rid ::
          Delete(t, rid) in log && Delete(u, rid) in log && Committed(log, t) && Committed(log, u)
          && CommittedInsert(log, rid) ==>
            t == u)
  }

  lemma {:induction false} WellLoggedFacts(log: Log)
    requires WellLogged(log)
    ensures LogFacts(log)
    decreases |log|
  {
    if log != [] {
      var p, r := log[..|log| - 1], log[|log| - 1];
      assert log == p + [r];
      WellLoggedPrefix(log, |log| - 1);
      WellLoggedFacts(p);
      FactsStep(p, r);
    }
  }

  lemma FactsStep(p: Log, r: Record)
    requires LogFacts(p) && Follows(p, r)
    ensures LogFacts(p + [r])
  {
    hide CommitCount;
    var log := p + [r];
    Appended(p, r);
    forall rid
      ensures CommittedInsert(log, rid) <==> CommittedInsert(p, rid) || (r.Commit? && Insert(r.txn, rid) in p)
    {
      InsertersAfter(p, r, rid);
    }
  }

  /** A row gains a committed inserter only by the commit of its inserter. */
  lemma InsertersAfter(p: Log, r: Record, rid: RID)
    requires LogFacts(p) && Follows(p, r)
    ensures CommittedInsert(p + [r], rid) <==> CommittedInsert(p, rid) || (r.Commit? && Insert(r.txn, rid) in p)
  {
    hide CommitCount;
    Appended(p, r);
    if CommittedInsert(p, rid) {
      var t :| Insert(t, rid) in p && Committed(p, t);
      assert Insert(t, rid) in p + [r] && Committed(p + [r], t);
    }
    if r.Commit? && Insert(r.txn, rid) in p {
      assert Insert(r.txn, rid) in p + [r] && Committed(p + [r], r.txn);
    }
  }
}
