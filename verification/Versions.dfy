/** Row versions kept outside the pages: who created and who deleted each row, and when. */
module Versions {
  import opened Common

  const INVALID_TXN_ID: int := -1
  const INVALID_TS: int := -1

  datatype VersionMeta = VersionMeta(beginTxn: int, beginTs: int, endTxn: int, endTs: int)

  const BLANK_META: VersionMeta := VersionMeta(INVALID_TXN_ID, INVALID_TS, INVALID_TXN_ID, INVALID_TS)

  type Metas = map<RID, VersionMeta>

  // ---- one row ----

  function Inserted(m: Metas, rid: RID, txn: int): Metas {
    m[rid := BLANK_META.(beginTxn := txn)]
  }

  function Deleted(m: Metas, rid: RID, txn: int): Metas {
    if rid in m then m[rid := m[rid].(endTxn := txn, endTs := INVALID_TS)] else m
  }

  function InsertCommitted(m: Metas, rid: RID, ts: int): Metas {
    if rid in m then m[rid := m[rid].(beginTs := ts)] else m
  }

  function DeleteCommitted(m: Metas, rid: RID, ts: int): Metas {
    if rid in m then m[rid := m[rid].(endTs := ts)] else m
  }

  function InsertAborted(m: Metas, rid: RID): Metas {
    m[rid := BLANK_META]
  }

  function DeleteAborted(m: Metas, rid: RID): Metas {
    if rid in m then m[rid := m[rid].(endTxn := INVALID_TXN_ID, endTs := INVALID_TS)] else m
  }

  /** Does transaction `self` with snapshot `readTs` see the row? */
  predicate Visible(m: Metas, rid: RID, self: int, readTs: int) {
    rid in m ==>
      var v := m[rid];
      && (v.beginTxn == self || (v.beginTs != INVALID_TS && v.beginTs <= readTs))
      && (v.endTxn != INVALID_TXN_ID ==>
            v.endTxn != self && !(v.endTs != INVALID_TS && v.endTs <= readTs))
  }

  // ---- all rows of a transaction ----

  function InsertsCommitted(m: Metas, rids: seq<RID>, ts: int): Metas {
    if rids == [] then m else InsertCommitted(InsertsCommitted(m, rids[..|rids| - 1], ts), rids[|rids| - 1], ts)
  }

  function DeletesCommitted(m: Metas, rids: seq<RID>, ts: int): Metas {
    if rids == [] then m else DeleteCommitted(DeletesCommitted(m, rids[..|rids| - 1], ts), rids[|rids| - 1], ts)
  }

  function InsertsAborted(m: Metas, rids: seq<RID>): Metas {
    if rids == [] then m else InsertAborted(InsertsAborted(m, rids[..|rids| - 1]), rids[|rids| - 1])
  }

  function DeletesAborted(m: Metas, rids: seq<RID>): Metas {
    if rids == [] then m else DeleteAborted(DeletesAborted(m, rids[..|rids| - 1]), rids[|rids| - 1])
  }

  lemma {:induction false} InsertsCommittedAt(m: Metas, rids: seq<RID>, ts: int)
    ensures InsertsCommitted(m, rids, ts).Keys == m.Keys
    ensures forall r :: r in m ==>
      InsertsCommitted(m, rids, ts)[r] == if r in rids then m[r].(beginTs := ts) else m[r]
    decreases |rids|
  {
    if rids != [] { InsertsCommittedAt(m, rids[..|rids| - 1], ts); }
  }

  lemma {:induction false} DeletesCommittedAt(m: Metas, rids: seq<RID>, ts: int)
    ensures DeletesCommitted(m, rids, ts).Keys == m.Keys
    ensures forall r :: r in m ==>
      DeletesCommitted(m, rids, ts)[r] == if r in rids then m[r].(endTs := ts) else m[r]
    decreases |rids|
  {
    if rids != [] { DeletesCommittedAt(m, rids[..|rids| - 1], ts); }
  }

  lemma {:induction false} InsertsAbortedAt(m: Metas, rids: seq<RID>)
    ensures forall r :: r in InsertsAborted(m, rids) <==> r in m || r in rids
    ensures forall r :: r in InsertsAborted(m, rids) ==>
      InsertsAborted(m, rids)[r] == if r in rids then BLANK_META else m[r]
    decreases |rids|
  {
    if rids != [] { InsertsAbortedAt(m, rids[..|rids| - 1]); }
  }

  lemma {:induction false} DeletesAbortedAt(m: Metas, rids: seq<RID>)
    ensures DeletesAborted(m, rids).Keys == m.Keys
    ensures forall r :: r in m ==>
      DeletesAborted(m, rids)[r] ==
        if r in rids then m[r].(endTxn := INVALID_TXN_ID, endTs := INVALID_TS) else m[r]
    decreases |rids|
  {
    if rids != [] { DeletesAbortedAt(m, rids[..|rids| - 1]); }
  }

  /** The version store object; every method is one atomic update of the table of versions. */
  class VersionStore {
    var store: Metas

    constructor ()
      ensures store == map[]
    {
      store := map[];
    }

    method OnInsert(rid: RID, txn: int)
      modifies this
      ensures store == Inserted(old(store), rid, txn)
    {
      var meta := VersionMeta(txn, INVALID_TS, INVALID_TXN_ID, INVALID_TS);
      store := store[rid := meta];
    }

    method OnDelete(rid: RID, txn: int)
      modifies this
      ensures store == Deleted(old(store), rid, txn)
    {
      if rid !in store { return; }
      store := store[rid := store[rid].(endTxn := txn, endTs := INVALID_TS)];
    }

    method CommitInsert(rid: RID, ts: int)
      modifies this
      ensures store == InsertCommitted(old(store), rid, ts)
    {
      if rid in store {
        store := store[rid := store[rid].(beginTs := ts)];
      }
    }

    method CommitDelete(rid: RID, ts: int)
      modifies this
      ensures store == DeleteCommitted(old(store), rid, ts)
    {
      if rid in store {
        store := store[rid := store[rid].(endTs := ts)];
      }
    }

    // The row stays in its page, so its record is kept as a tombstone nobody sees.
    method AbortInsert(rid: RID)
      modifies this
      ensures store == InsertAborted(old(store), rid)
    {
      store := store[rid := BLANK_META];
    }

    method AbortDelete(rid: RID)
      modifies this
      ensures store == DeleteAborted(old(store), rid)
    {
      if rid in store {
        store := store[rid := store[rid].(endTxn := INVALID_TXN_ID, endTs := INVALID_TS)];
      }
    }

    method SetMeta(rid: RID, meta: VersionMeta)
      modifies this
      ensures store == old(store)[rid := meta]
    {
      store := store[rid := meta];
    }

    function GetMeta(rid: RID): Option<VersionMeta>
      reads this
    {
      if rid in store then Some(store[rid]) else None
    }

    /** The visibility decision, branch by branch. */
    method IsVisible(rid: RID, self: int, readTs: int) returns (visible: bool)
      ensures visible == Visible(store, rid, self, readTs)
    {
      if rid !in store { return true; }
      var m := store[rid];
      var beginVisible;
      if m.beginTxn == self {
        beginVisible := true;
      } else if m.beginTs == INVALID_TS {
        beginVisible := false;
      } else {
        beginVisible := m.beginTs <= readTs;
      }
      if !beginVisible { return false; }
      if m.endTxn != INVALID_TXN_ID {
        if m.endTxn == self { return false; }
        if m.endTs != INVALID_TS && m.endTs <= readTs { return false; }
      }
      return true;
    }
  }
}
