/** Inserts and scans of a table together, with and without transactions. */
module TableRuns {
  import opened ByteCodec
  import opened Common
  import opened InsertColumns
  import opened TableColumns
  import opened TableInsert
  import opened TablePages
  import opened TableScan
  import opened Versions

  // ---- who sees which rows ----

  /** A transaction's view of the version records; None for scans outside transactions. */
  datatype View = View(metas: Metas, self: int, readTs: int)

  predicate Keeps(view: Option<View>, rid: RID) {
    view.Some? ==> Visible(view.value.metas, rid, view.value.self, view.value.readTs)
  }

  ghost function Seen(list: seq<Located>, view: Option<View>): seq<Located> {
    if list == [] then []
    else
      var last := list[|list| - 1];
      Seen(list[..|list| - 1], view) + if Keeps(view, last.rid) then [last] else []
  }

  lemma {:induction false} SeenConcat(a: seq<Located>, b: seq<Located>, view: Option<View>)
    ensures Seen(a + b, view) == Seen(a, view) + Seen(b, view)
  {
    if b == [] {
      assert a + b == a;
    } else {
      var n := |b| - 1;
      SeenConcat(a, b[..n], view);
      assert (a + b)[..|a + b| - 1] == a + b[..n];
    }
  }

  lemma {:induction false} SeenSame(list: seq<Located>, v: Option<View>, w: Option<View>)
    requires forall i :: 0 <= i < |list| ==> Keeps(v, list[i].rid) == Keeps(w, list[i].rid)
    ensures Seen(list, v) == Seen(list, w)
  {
    if list != [] { SeenSame(list[..|list| - 1], v, w); }
  }

  lemma {:induction false} SeenAll(list: seq<Located>, view: Option<View>, all: bool)
    requires forall i :: 0 <= i < |list| ==> Keeps(view, list[i].rid) == all
    ensures Seen(list, view) == if all then list else []
  {
    if list != [] { SeenAll(list[..|list| - 1], view, all); }
  }

  lemma SeenStart(list: seq<Located>, view: Option<View>)
    ensures Seen(list[..0], view) == []
  {
  }

  lemma SeenStep(list: seq<Located>, i: nat, view: Option<View>)
    requires i < |list|
    ensures Seen(list[..i + 1], view) == Seen(list[..i], view) + if Keeps(view, list[i].rid) then [list[i]] else []
  {
    assert list[..i + 1][..i] == list[..i];
  }

  // ---- the sequential scan ----

  ghost function ViewOf(store: VersionStore?, self: int, readTs: int): Option<View>
    reads store
  {
    if store == null then None else Some(View(store.store, self, readTs))
  }

  method RowVisible(store: VersionStore?, rid: RID, self: int, readTs: int) returns (visible: bool)
    ensures visible == Keeps(ViewOf(store, self, readTs), rid)
  {
    if store == null { return true; }
    visible := store.IsVisible(rid, self, readTs);
  }

  /** One row of a chunk with its address, or nothing if the reader may not see it. */
  method ReadRow(chunk: Chunk, rid: RID, store: VersionStore?, self: int, readTs: int, ghost schema: seq<ColDef>,
    ghost rows: seq<Row>) returns (list: seq<Located>)
    requires chunk.Holds(schema, rows) && rid.rowIdx < chunk.count == |rows|
    ensures list == if Keeps(ViewOf(store, self, readTs), rid) then [Located(rid, rows[rid.rowIdx])] else []
  {
    hide Separate, ColumnOf, Keeps, Wide, ViewOf;
    var visible := RowVisible(store, rid, self, readTs);
    if !visible { return []; }
    var row := chunk.GetRow(rid.rowIdx, schema, rows);
    list := [Located(rid, row)];
  }

  /** The rows of a chunk that the reader may see, with the addresses of their page. */
  method ReadChunk(chunk: Chunk, pageNo: nat, store: VersionStore?, self: int, readTs: int, ghost schema: seq<ColDef>,
    ghost rows: seq<Row>) returns (list: seq<Located>)
    requires chunk.Holds(schema, rows)
    ensures list == Seen(PageListing(pageNo, rows), ViewOf(store, self, readTs))
  {
    hide Separate, ColumnOf, Seen, Keeps, Wide, ViewOf;
    ghost var all, view := PageListing(pageNo, rows), ViewOf(store, self, readTs);
    ChunkCount(chunk, schema, rows);
    list := [];
    SeenStart(all, view);
    for r := 0 to chunk.count
      invariant chunk.Holds(schema, rows)
      invariant list == Seen(all[..r], view)
    {
      SeenStep(all, r, view);
      var read := ReadRow(chunk, RID(pageNo, r), store, self, readTs, schema, rows);
      list := list + read;
    }
    assert all[..|all|] == all;
  }

  lemma ChunkCount(chunk: Chunk, schema: seq<ColDef>, rows: seq<Row>)
    requires chunk.Holds(schema, rows)
    ensures chunk.count == |rows|
  {
  }

  lemma {:induction false} ListingSkip(contents: seq<seq<Row>>, a: nat, b: nat)
    requires a <= b <= |contents| && forall p :: a <= p < b ==> contents[p] == []
    ensures Listing(contents[..b]) == Listing(contents[..a])
    decreases b - a
  {
    if a < b {
      ListingSkip(contents, a, b - 1);
      assert contents[..b] == contents[..b - 1] + [contents[b - 1]];
      ListingSnoc(contents[..b - 1], contents[b - 1]);
    }
  }

  /** A scan returns exactly the table's rows that the reader may see, in address order. */
  method SeqScan(table: TableFile, store: VersionStore?, self: int, readTs: int) returns (list: seq<Located>)
    requires table.Valid() && Lossless(table.z) && |table.pages| == |table.contents| > 0
    ensures list == Seen(Listing(table.contents), ViewOf(store, self, readTs))
  {
    hide TableFile.Valid, Chunk.Holds, Lossless, Seen, Listing;
    ghost var contents, view := table.contents, ViewOf(store, self, readTs);
    var it := new TableScanIterator(table, 0, |table.pages| - 1);
    var chunk := new Chunk();
    list := [];
    SeenNone(contents, view);
    var more := true;
    while more
      invariant it.table == table && it.last == |contents| - 1 && fresh(it) && fresh(chunk)
      invariant if more then it.From() <= |contents| && list == Seen(Listing(contents[..it.From()]), view)
        else list == Seen(Listing(contents), view)
      decreases |contents| - it.From(), more
    {
      ghost var from := it.From();
      more := it.Next(chunk);
      if more {
        var part := ReadChunk(chunk, it.currentPageNo, store, self, readTs, table.schema, contents[it.currentPageNo]);
        PageSeen(contents, from, it.currentPageNo, view);
        list := list + part;
      } else {
        ListingSkip(contents, from, |contents|);
        assert contents[..|contents|] == contents;
      }
    }
  }

  lemma SeenNone(contents: seq<seq<Row>>, view: Option<View>)
    ensures Seen(Listing(contents[..0]), view) == []
  {
  }

  lemma PageSeen(contents: seq<seq<Row>>, from: nat, p: nat, view: Option<View>)
    requires from <= p < |contents| && forall q :: from <= q < p ==> contents[q] == []
    ensures Seen(Listing(contents[..p + 1]), view) ==
      Seen(Listing(contents[..from]), view) + Seen(PageListing(p, contents[p]), view)
  {
    ListingSkip(contents, from, p);
    assert contents[..p + 1] == contents[..p] + [contents[p]];
    ListingSnoc(contents[..p], contents[p]);
    SeenConcat(Listing(contents[..p]), PageListing(p, contents[p]), view);
  }

  // ---- an insert inside a transaction ----

  function Registered(m: Metas, rids: seq<RID>, txn: int): Metas {
    if rids == [] then m else Inserted(Registered(m, rids[..|rids| - 1], txn), rids[|rids| - 1], txn)
  }

  lemma {:induction false} RegisteredAt(m: Metas, rids: seq<RID>, txn: int, rid: RID)
    ensures rid in Registered(m, rids, txn) <==> rid in m || rid in rids
    ensures rid in rids ==> Registered(m, rids, txn)[rid] == VersionMeta(txn, INVALID_TS, INVALID_TXN_ID, INVALID_TS)
    ensures rid in m && rid !in rids ==> Registered(m, rids, txn)[rid] == m[rid]
  {
    if rids != [] { RegisteredAt(m, rids[..|rids| - 1], txn, rid); }
  }

  /** An INSERT statement; inside a transaction every written row gets a version record, also when a later row
      is too large. */
  method InsertRows(table: TableFile, store: VersionStore?, txn: int, req: Request, casts: Casts, rowCount: nat,
                    createTs: nat)
    returns (outcome: Outcome, rids: seq<RID>)
    requires table.Valid() && Lossless(table.z) && Roomy(table.schema, RowsFor(req, table.schema, casts))
    requires |table.pages| + RowCount(req) < TWO64 && createTs < TWO64
    modifies table, store
    ensures table.Valid() && outcome == OutcomeOf(table.z, table.schema, req, casts)
    ensures |rids| <= RowCount(req) && (outcome.Complete? ==> |rids| == RowCount(req))
    ensures Listing(table.contents) == old(Listing(table.contents)) + Placed(rids, RowsFor(req, table.schema, casts))
    ensures store != null ==> store.store == Registered(old(store.store), rids, txn)
    ensures AsRequested(req, table.schema, casts, rids, Listing(table.contents), |old(Listing(table.contents))|)
  {
    hide TableFile.Valid, Lossless, Roomy, Listing, RowsFor, Reach, AllStorable, AsRequested, Refused;
    outcome, rids := ExecuteInsert(table, req, casts, rowCount, createTs);
    if store != null {
      for r := 0 to |rids|
        invariant store.store == Registered(old(store.store), rids[..r], txn)
        invariant table.Valid()
        invariant Listing(table.contents) ==
          old(Listing(table.contents)) + Placed(rids, RowsFor(req, table.schema, casts))
      {
        assert rids[..r + 1][..r] == rids[..r];
        store.OnInsert(rids[r], txn);
      }
      assert rids[..|rids|] == rids;
    }
  }

  /** What happened to the writer of some rows. */
  datatype Fate = Running | Committed(ts: int) | Aborted

  function Records(m: Metas, rids: seq<RID>, writer: int, fate: Fate): Metas {
    var written := Registered(m, rids, writer);
    match fate
    case Running => written
    case Committed(ts) => InsertsCommitted(written, rids, ts)
    case Aborted => InsertsAborted(written, rids)
  }

  predicate SeesNew(writer: int, fate: Fate, self: int, readTs: int) {
    match fate
    case Running => self == writer
    case Committed(ts) => self == writer || ts <= readTs
    case Aborted => false
  }

  lemma RecordsVisible(m: Metas, rids: seq<RID>, writer: int, fate: Fate, self: int, readTs: int, rid: RID)
    requires self >= 0 && (fate.Committed? ==> fate.ts >= 0)
    ensures Visible(Records(m, rids, writer, fate), rid, self, readTs) ==
      if rid in rids then SeesNew(writer, fate, self, readTs) else Visible(m, rid, self, readTs)
  {
    RegisteredAt(m, rids, writer, rid);
    InsertsCommittedAt(Registered(m, rids, writer), rids, if fate.Committed? then fate.ts else 0);
    InsertsAbortedAt(Registered(m, rids, writer), rids);
  }

  /** The life of an INSERT as scans see it: its own transaction finds exactly the inserted rows behind the rows
      it saw before; others find them when their snapshot covers the commit, and never after an abort. Nothing
      else changes for anybody. */
  lemma InsertedRowsSeen(before: seq<seq<Row>>, after: seq<seq<Row>>, rids: seq<RID>, rows: seq<Row>, m: Metas,
                         writer: int,
    fate: Fate, self: int, readTs: int)
    requires |rids| <= |rows| && Listing(after) == Listing(before) + Placed(rids, rows)
    requires self >= 0 && (fate.Committed? ==> fate.ts >= 0)
    ensures Seen(Listing(after), Some(View(Records(m, rids, writer, fate), self, readTs))) ==
      Seen(Listing(before), Some(View(m, self, readTs)))
      + if SeesNew(writer, fate, self, readTs) then Placed(rids, rows) else []
  {
    hide Visible, Records, Listing, Seen;
    var was, list, added := Some(View(m, self, readTs)), Listing(before), Placed(rids, rows);
    var now := Some(View(Records(m, rids, writer, fate), self, readTs));
    SeenConcat(list, added, now);
    forall i | 0 <= i < |list| ensures Keeps(now, list[i].rid) == Keeps(was, list[i].rid) {
      OldAddress(before, after, rids, rows, i);
      RecordsVisible(m, rids, writer, fate, self, readTs, list[i].rid);
    }
    SeenSame(list, now, was);
    forall i | 0 <= i < |added| ensures Keeps(now, added[i].rid) == SeesNew(writer, fate, self, readTs) {
      RecordsVisible(m, rids, writer, fate, self, readTs, rids[i]);
    }
    SeenAll(added, now, SeesNew(writer, fate, self, readTs));
  }

  /** Inserted rows get addresses that no row of the table had. */
  lemma OldAddress(before: seq<seq<Row>>, after: seq<seq<Row>>, rids: seq<RID>, rows: seq<Row>, i: nat)
    requires |rids| <= |rows| && Listing(after) == Listing(before) + Placed(rids, rows) && i < |Listing(before)|
    ensures Listing(before)[i].rid !in rids
  {
    var n := |Listing(before)|;
    forall k: nat | k < |rids| ensures Listing(before)[i].rid != rids[k] {
      ListingIncreases(after, i, n + k);
      assert Listing(after)[n + k].rid == rids[k];
    }
  }
}
