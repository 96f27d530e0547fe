/** INSERT of many rows into the pages of a table. */
module TableInsert {
  import opened ByteCodec
  import opened Common
  import opened ColumnVectors
  import opened DataPageView
  import opened InsertColumns
  import opened TableColumns
  import opened TablePages
  import VarcharCodec

  // ---- what a table holds ----

  datatype Located = Located(rid: RID, row: Row)

  /** The rows of a page with their addresses. */
  ghost function PageListing(pageNo: nat, rows: seq<Row>): (list: seq<Located>)
    ensures |list| == |rows|
  {
    seq(|rows|, k requires 0 <= k < |rows| => Located(RID(pageNo, k), rows[k]))
  }

  /** The rows of a table with their addresses, page by page. */
  ghost function Listing(contents: seq<seq<Row>>): seq<Located> {
    if contents == [] then []
    else Listing(contents[..|contents| - 1]) + PageListing(|contents| - 1, contents[|contents| - 1])
  }

  lemma ListingSnoc(contents: seq<seq<Row>>, rows: seq<Row>)
    ensures Listing(contents + [rows]) == Listing(contents) + PageListing(|contents|, rows)
  {
    assert (contents + [rows])[..|contents|] == contents;
  }

  /** Rows next to the addresses they were given. */
  ghost function Placed(rids: seq<RID>, rows: seq<Row>): (list: seq<Located>)
    requires |rids| <= |rows|
    ensures |list| == |rids|
  {
    seq(|rids|, r requires 0 <= r < |rids| => Located(rids[r], rows[r]))
  }

  /** Addresses of a table increase from page to page and inside a page, so no two rows share one. */
  lemma {:induction false} ListingIncreases(contents: seq<seq<Row>>, i: nat, j: nat)
    requires i < j < |Listing(contents)|
    ensures var a, b := Listing(contents)[i].rid, Listing(contents)[j].rid;
      0 <= a.pageNo <= b.pageNo < |contents| && (a.pageNo == b.pageNo ==> a.rowIdx < b.rowIdx)
  {
    var n := |contents| - 1;
    var before := Listing(contents[..n]);
    if j < |before| {
      ListingIncreases(contents[..n], i, j);
    } else if i < |before| {
      ListingBelow(contents[..n], i);
    }
  }

  lemma {:induction false} ListingBelow(contents: seq<seq<Row>>, i: nat)
    requires i < |Listing(contents)|
    ensures 0 <= Listing(contents)[i].rid.pageNo < |contents|
  {
    var n := |contents| - 1;
    if i < |Listing(contents[..n])| { ListingBelow(contents[..n], i); }
  }

  // ---- how the rows are spread over pages ----

  ghost predicate Fits(z: Codec, schema: seq<ColDef>, rows: seq<Row>)
    requires Wide(rows, |schema|)
  {
    EndOf(z, ZSTD, InputsOf(schema, rows), |rows|) <= PAGE_SIZE
  }

  /** The first of cnt, cnt / 2, cnt / 4, ... rows that fits behind row a; 0 if even one row does not. */
  ghost function Take(z: Codec, schema: seq<ColDef>, rows: seq<Row>, a: nat, cnt: nat): (taken: nat)
    requires Wide(rows, |schema|) && a + cnt <= |rows|
    ensures taken <= cnt
  {
    if cnt == 0 || Fits(z, schema, rows[a..a + cnt]) then cnt else Take(z, schema, rows, a, cnt / 2)
  }

  function Halved(cnt: nat, i: nat): nat {
    if i == 0 then cnt else Halved(cnt, i - 1) / 2
  }

  lemma {:induction false} HalvedStep(cnt: nat, i: nat)
    ensures Halved(cnt / 2, i) == Halved(cnt, i + 1)
  {
    if i > 0 { HalvedStep(cnt, i - 1); }
  }

  /** A page takes the rows of the first halving that fits on it, or none. */
  lemma {:induction false} TakeHalves(z: Codec, schema: seq<ColDef>, rows: seq<Row>, a: nat, cnt: nat) returns (i: nat)
    requires Wide(rows, |schema|) && a + cnt <= |rows|
    ensures var taken := Take(z, schema, rows, a, cnt);
      taken == Halved(cnt, i) && (taken > 0 ==> Fits(z, schema, rows[a..a + taken]))
    ensures forall j :: 0 <= j < i ==> 0 < Halved(cnt, j) <= cnt && !Fits(z, schema, rows[a..a + Halved(cnt, j)])
    decreases cnt
  {
    hide Fits;
    if cnt == 0 || Fits(z, schema, rows[a..a + cnt]) { return 0; }
    var k := TakeHalves(z, schema, rows, a, cnt / 2);
    i := k + 1;
    HalvedStep(cnt, k);
    forall j | 0 <= j < i
      ensures 0 < Halved(cnt, j) <= cnt && !Fits(z, schema, rows[a..a + Halved(cnt, j)])
    {
      if j > 0 { HalvedStep(cnt, j - 1); }
    }
  }

  /** How many rows find a place before one is too large for a page. */
  ghost function Reach(z: Codec, schema: seq<ColDef>, rows: seq<Row>, a: nat): (end: nat)
    requires Wide(rows, |schema|) && a <= |rows|
    ensures a <= end <= |rows|
    decreases |rows| - a
  {
    var taken := Take(z, schema, rows, a, |rows| - a);
    if taken == 0 then a else Reach(z, schema, rows, a + taken)
  }

  ghost predicate FitsAlone(z: Codec, schema: seq<ColDef>, rows: seq<Row>, r: nat)
    requires Wide(rows, |schema|) && r < |rows|
  {
    Fits(z, schema, rows[r..r + 1])
  }

  lemma {:induction false} TakeOne(z: Codec, schema: seq<ColDef>, rows: seq<Row>, a: nat, cnt: nat)
    requires Wide(rows, |schema|) && a + cnt <= |rows| && cnt > 0 && FitsAlone(z, schema, rows, a)
    ensures Take(z, schema, rows, a, cnt) > 0
  {
    hide Fits;
    if !Fits(z, schema, rows[a..a + cnt]) { TakeOne(z, schema, rows, a, cnt / 2); }
  }

  /** The insert stops early only at a row that does not fit on a page of its own. */
  lemma {:induction false} StopsAtLargeRow(z: Codec, schema: seq<ColDef>, rows: seq<Row>, a: nat)
    requires Wide(rows, |schema|) && a <= |rows|
    ensures var end := Reach(z, schema, rows, a);
      end < |rows| ==> !FitsAlone(z, schema, rows, end)
    decreases |rows| - a
  {
    hide Fits, FitsAlone, Take;
    if a < |rows| {
      var taken := Take(z, schema, rows, a, |rows| - a);
      if taken > 0 { StopsAtLargeRow(z, schema, rows, a + taken); }
      else if FitsAlone(z, schema, rows, a) { TakeOne(z, schema, rows, a, |rows| - a); }
    }
  }

  // ---- the file ----

  /** The pages of a table as the buffer pool shows them. */
  class TableFile {
    const z: Codec
    const schema: seq<ColDef>
    var pages: seq<Bytes>
    ghost var contents: seq<seq<Row>>

    ghost predicate Valid()
      reads this
    {
      |pages| == |contents| && forall p: nat :: p < |pages| ==> PageHolds(pages[p], z, schema, contents[p])
    }

    constructor (z: Codec, schema: seq<ColDef>)
      ensures Valid() && this.z == z && this.schema == schema && pages == [] && contents == []
    {
      this.z, this.schema, pages, contents := z, schema, [], [];
    }

    method NewPage() returns (page: Page)
      requires Valid()
      modifies this
      ensures Valid() && fresh(page) && fresh(page.data) && page.data.Length == PAGE_SIZE && page.pageNo == old(|pages|)
      ensures !IsData(ParseHeader(page.data[..]))
      ensures contents == old(contents) + [[]] && |pages| == old(|pages|) + 1
    {
      page := new Page(|pages|);
      ZeroPage(page.data[..]);
      pages, contents := pages + [page.data[..]], contents + [[]];
    }

    method FetchPage(pageNo: nat) returns (page: Page)
      requires Valid() && pageNo < |pages|
      ensures fresh(page) && fresh(page.data) && page.data.Length == PAGE_SIZE && page.pageNo == pageNo
      ensures page.data[..] == pages[pageNo]
    {
      page := new Page(pageNo);
      CopyInto(page.data, 0, pages[pageNo]);
    }

    method UnpinPage(page: Page, isDirty: bool, ghost rows: seq<Row>)
      requires Valid() && page.pageNo < |pages| && page.data.Length == PAGE_SIZE
      requires if isDirty then PageHolds(page.data[..], z, schema, rows) else rows == contents[page.pageNo]
      modifies this
      ensures Valid() && contents == old(contents)[page.pageNo := rows] && |pages| == old(|pages|)
    {
      if isDirty {
        pages := pages[page.pageNo := page.data[..]];
        contents := contents[page.pageNo := rows];
      }
    }
  }

  lemma ZeroPage(bs: Bytes)
    requires |bs| == PAGE_SIZE && forall i :: 0 <= i < |bs| ==> bs[i] == 0
    ensures !IsData(ParseHeader(bs))
  {
    ZeroLoad(bs[0..4]);
  }

  lemma {:induction false} ZeroLoad(bs: Bytes)
    requires forall i :: 0 <= i < |bs| ==> bs[i] == 0
    ensures Load(bs) == 0
  {
    if bs != [] { ZeroLoad(bs[1..]); }
  }

  // ---- cutting the columns ----

  /** The null bits of rows a, ..., a + cnt - 1, counted from the start of their page. */
  method CutValidity(bits: Bytes, a: nat, cnt: nat, ghost cells: seq<Cell>) returns (cut: Bytes)
    requires a + cnt <= |cells| && bits == NullBits(cells, |cells|, BitmapBytes(|cells|))
    ensures cut == NullBits(cells[a..a + cnt], cnt, BitmapBytes(cnt))
  {
    hide NullBits, Clear, BitAt, Bit;
    var sv := new Byte[BitmapBytes(cnt)](_ => 0xFF);
    NullStart(cells[a..a + cnt], sv[..]);
    for i := 0 to cnt
      invariant sv[..] == NullBits(cells[a..a + cnt], i, BitmapBytes(cnt))
    {
      NullStep(cells[a..a + cnt], i, BitmapBytes(cnt));
      NullBit(cells, |cells|, BitmapBytes(|cells|), a + i);
      if !BitAt(bits, a + i) {
        sv[i / 8] := Clear(sv[i / 8], i % 8);
      }
    }
    cut := sv[..];
  }

  /** The texts of rows a, ..., a + cnt - 1 through a temporary vector. */
  method CutTexts(kind: ColumnType, texts: seq<Bytes>, a: nat, cnt: nat) returns (raw: Bytes)
    requires IsVarlen(kind) && a + cnt <= |texts| && cnt < TWO31 && |Flat(texts[a..a + cnt])| < TWO31
    ensures raw == VarcharCodec.Encode(texts[a..a + cnt])
  {
    hide Flat, Pieces, Cuts, VarcharCodec.Encode;
    ghost var part := texts[a..a + cnt];
    var tmp := new Vector(kind, cnt);
    StartZero(part);
    for i := 0 to cnt
      invariant tmp.Valid() && tmp.cursor == i && fresh(tmp) && fresh(tmp.offsets)
      invariant tmp.Strings() == part[..i] && |tmp.pool| == |Flat(part[..i])|
    {
      StartStep(part, i);
      StartMono(part, i + 1, cnt);
      var row := tmp.AppendString(texts[a + i]);
      assert part[..i + 1] == part[..i] + [texts[a + i]];
    }
    assert part[..cnt] == part && tmp.Strings()[0..cnt] == part;
    raw := VarcharCodec.SerializeVarlenColumn(tmp, 0, cnt);
  }

  lemma FixedSlice(cells: seq<Cell>, kind: ColumnType, a: nat, cnt: nat)
    requires CellsFit(cells, kind) && !IsVarlen(kind) && a + cnt <= |cells|
    ensures var w := TypeSize(kind);
      && a * w + cnt * w <= |Flat(SlotsOf(cells, w))|
      && Flat(SlotsOf(cells, w))[a * w..a * w + cnt * w] == Flat(SlotsOf(cells[a..a + cnt], w))
  {
    hide Flat, CellFits, TypeSize;
    var w := TypeSize(kind);
    var slots := SlotsOf(cells, w);
    SlotsUniform(cells, kind);
    StartUniform(slots, w, a);
    StartUniform(slots, w, a + cnt);
    FlatSlice(slots, a, a + cnt);
    assert SlotsOf(cells[a..a + cnt], w) == slots[a..a + cnt];
    assert w * (a + cnt) == a * w + cnt * w && w * a == a * w;
  }

  /** What one column contributes to the page of rows a, ..., a + cnt - 1. */
  method SliceColumn(def: ColDef, d: ColumnData, a: nat, cnt: nat, ghost cells: seq<Cell>) returns (input: ColumnInput)
    requires Built(d, def.kind, cells) && CellsFit(cells, def.kind) && a + cnt <= |cells|
    requires IsVarlen(def.kind) ==> cnt < TWO31 && |Flat(TextsOf(cells)[a..a + cnt])| < TWO31
    ensures input == InputOf(def, cells[a..a + cnt])
  {
    hide Flat, NullBits, VarcharCodec.Encode, CellFits, TypeSize;
    var validity := CutValidity(d.bits, a, cnt, cells);
    if IsVarlen(def.kind) {
      var raw := CutTexts(def.kind, d.texts, a, cnt);
      assert TextsOf(cells[a..a + cnt]) == d.texts[a..a + cnt];
      input := ColumnInput(def.colId, raw, Some(validity));
    } else {
      FixedSlice(cells, def.kind, a, cnt);
      var w := TypeSize(def.kind);
      input := ColumnInput(def.colId, d.buf[a * w..a * w + cnt * w], Some(validity));
    }
  }

  ghost predicate AllBuilt(ds: seq<ColumnData>, schema: seq<ColDef>, rows: seq<Row>) {
    && |ds| == |schema| && RowsFit(rows, schema)
    && forall c :: 0 <= c < |schema| ==> Built(ds[c], schema[c].kind, ColumnOf(rows, |schema|, c))
  }

  /** The text of a column slice is below 2^31 bytes. */
  lemma SliceTexts(schema: seq<ColDef>, rows: seq<Row>, c: nat, a: nat, cnt: nat)
    requires RowsFit(rows, schema) && Roomy(schema, rows)
    requires c < |schema| && a + cnt <= |rows| && IsVarlen(schema[c].kind)
    ensures |Flat(TextsOf(ColumnOf(rows, |schema|, c))[a..a + cnt])| < TWO31
  {
    hide Flat, CellsFit, NullBits;
    var texts := TextsOf(ColumnOf(rows, |schema|, c));
    assert InputsOf(schema, rows)[c].data == VarcharCodec.Encode(texts);
    EncodeSliceLength(texts, a, a + cnt);
    VarcharCodec.EncodedLength(texts);
  }

  method SliceColumns(schema: seq<ColDef>, ds: seq<ColumnData>, a: nat, cnt: nat, ghost rows: seq<Row>)
    returns (slice: seq<ColumnInput>)
    requires AllBuilt(ds, schema, rows) && Roomy(schema, rows) && a + cnt <= |rows|
    ensures slice == InputsOf(schema, rows[a..a + cnt])
  {
    hide Flat, Built, Roomy, CellsFit, InputOf;
    slice := [];
    for c := 0 to |schema|
      invariant slice == InputsOf(schema, rows[a..a + cnt])[..c]
    {
      ghost var cells := ColumnOf(rows, |schema|, c);
      assert ColumnOf(rows[a..a + cnt], |schema|, c) == cells[a..a + cnt];
      if IsVarlen(schema[c].kind) { SliceTexts(schema, rows, c, a, cnt); }
      RoomyRows(schema, rows);
      var input := SliceColumn(schema[c], ds[c], a, cnt, cells);
      slice := slice + [input];
    }
  }

  lemma RoomyRows(schema: seq<ColDef>, rows: seq<Row>)
    requires Wide(rows, |schema|) && Roomy(schema, rows)
    ensures |rows| < TWO31 && |schema| < 0x1_0000
  {
  }

  /** Tries to put rows a, ..., a + cnt - 1 on the page; a page that they do not fit is left alone. */
  method BuildSlice(table: TableFile, page: Page, ds: seq<ColumnData>, a: nat, cnt: nat, base: nat, createTs: nat,
    ghost rows: seq<Row>) returns (ok: bool)
    requires AllBuilt(ds, table.schema, rows) && Roomy(table.schema, rows) && a + cnt <= |rows| && Lossless(table.z)
    requires page.data.Length == PAGE_SIZE && page.pageNo < TWO64 && !IsData(ParseHeader(page.data[..]))
    requires base < TWO64 && createTs < TWO64
    modifies page.data
    ensures ok == Fits(table.z, table.schema, rows[a..a + cnt])
    ensures ok ==> PageHolds(page.data[..], table.z, table.schema, rows[a..a + cnt])
    ensures !ok ==> page.data[..] == old(page.data[..])
  {
    hide Built, Roomy, RowsFit, TextsSmall, InputsFit, EndOf, ParseHeader, Lossless;
    var slice := SliceColumns(table.schema, ds, a, cnt, rows);
    SliceFits(table.z, table.schema, rows, a, a + cnt);
    var dp := new TableDataPage(page, table.z);
    ok := dp.BuildFromColumns(slice, cnt, ZSTD, base, createTs);
  }

  method BuildColumns(req: Request, schema: seq<ColDef>, casts: Casts) returns (ds: Option<seq<ColumnData>>)
    ensures ds.Some? <==> AllStorable(req, schema, casts)
    ensures ds.Some? ==> AllBuilt(ds.value, schema, RowsFor(req, schema, casts))
  {
    hide Built, Storable, RowsFit, PositionOf, CellFor;
    var pos := PositionMap(req.colIds);
    ghost var rows := RowsFor(req, schema, casts);
    RowsForFit(req, schema, casts);
    var built := [];
    for c := 0 to |schema|
      invariant |built| == c
      invariant forall k :: 0 <= k < c ==>
        Storable(req, schema[k], casts) && Built(built[k], schema[k].kind, ColumnOf(rows, |schema|, k))
    {
      var d := BuildColumn(req, schema[c], pos, casts);
      if d.None? { return None; }
      built := built + [d.value];
    }
    ds := Some(built);
  }

  /** Writes the next page: halves the number of rows until they fit. Takes no row if even one does not. */
  method PlacePage(table: TableFile, ds: seq<ColumnData>, a: nat, n: nat, rowCount: nat, createTs: nat,
                   ghost rows: seq<Row>)
    returns (cnt: nat, pageNo: nat)
    requires table.Valid() && AllBuilt(ds, table.schema, rows)
    requires Roomy(table.schema, rows) && a < n == |rows| && Lossless(table.z)
    requires |table.pages| < TWO64 && createTs < TWO64
    modifies table
    ensures table.Valid() && cnt == Take(table.z, table.schema, rows, a, |rows| - a) && pageNo == old(|table.pages|)
    ensures table.contents == old(table.contents) + [rows[a..a + cnt]]
    ensures |table.pages| == pageNo + 1 && pageNo == old(|table.contents|)
  {
    hide AllBuilt, Roomy, PageHolds, Fits, Lossless, ParseHeader;
    var page := table.NewPage();
    pageNo, cnt := page.pageNo, n - a;
    WideRows(ds, table.schema, rows);
    var ok := false;
    while cnt > 0 && !ok
      invariant cnt <= |rows| - a
      invariant Take(table.z, table.schema, rows, a, cnt) == Take(table.z, table.schema, rows, a, |rows| - a)
      invariant if ok then cnt > 0 && Fits(table.z, table.schema, rows[a..a + cnt])
        && PageHolds(page.data[..], table.z, table.schema, rows[a..a + cnt]) else !IsData(ParseHeader(page.data[..]))
      decreases cnt, !ok
      modifies page.data
    {
      ok := BuildSlice(table, page, ds, a, cnt, (rowCount + a) % TWO64, createTs, rows);
      if !ok {
        cnt := cnt / 2;
      }
    }
    if cnt > 0 {
      table.UnpinPage(page, true, rows[a..a + cnt]);
    }
    assert rows[a..a + 0] == [];
  }

  lemma WideRows(ds: seq<ColumnData>, schema: seq<ColDef>, rows: seq<Row>)
    requires AllBuilt(ds, schema, rows)
    ensures Wide(rows, |schema|)
  {
  }

  datatype Outcome = Complete | NoTargetColumns | WrongValueCount | NoRows | BadValue | RowTooLarge

  /** How an INSERT ends; every answer but the first is an exception. */
  ghost function OutcomeOf(z: Codec, schema: seq<ColDef>, req: Request, casts: Casts): Outcome {
    if req.colIds == [] then NoTargetColumns
    else if |req.values| % |req.colIds| != 0 then WrongValueCount
    else if req.values == [] then NoRows
    else if !AllStorable(req, schema, casts) then BadValue
    else
      var rows := RowsFor(req, schema, casts);
      if Reach(z, schema, rows, 0) < |rows| then RowTooLarge else Complete
  }

  /** Fills pages until all rows are placed or one is too large. */
  method PlaceRows(table: TableFile, ds: seq<ColumnData>, n: nat, rowCount: nat, createTs: nat, ghost rows: seq<Row>)
    returns (rids: seq<RID>)
    requires table.Valid() && AllBuilt(ds, table.schema, rows)
    requires Roomy(table.schema, rows) && n == |rows| && Lossless(table.z)
    requires |table.pages| + n < TWO64 && createTs < TWO64
    modifies table
    ensures table.Valid() && old(table.contents) <= table.contents
    ensures Wide(rows, |table.schema|) && |rids| == Reach(table.z, table.schema, rows, 0)
    ensures Listing(table.contents) == old(Listing(table.contents)) + Placed(rids, rows)
  {
    hide AllBuilt, Roomy, Lossless, TableFile.Valid, Take, Reach, Listing;
    ghost var before := table.contents;
    WideRows(ds, table.schema, rows);
    ReachEnd(table.z, table.schema, rows);
    rids := [];
    while |rids| < n
      invariant table.Valid() && |rids| <= n && before <= table.contents
      invariant |table.pages| <= |old(table.pages)| + |rids|
      invariant Reach(table.z, table.schema, rows, |rids|) == Reach(table.z, table.schema, rows, 0)
      invariant Listing(table.contents) == Listing(before) + Placed(rids, rows)
    {
      ReachStep(table.z, table.schema, rows, |rids|);
      ghost var had, was := rids, table.contents;
      var rowStart := |rids|;
      var cnt, pageNo := PlacePage(table, ds, rowStart, n, rowCount, createTs, rows);
      ListingSnoc(was, rows[rowStart..rowStart + cnt]);
      if cnt == 0 { return; }
      for k := 0 to cnt
        invariant |rids| == rowStart + k && rids[..rowStart] == had
        invariant forall i :: 0 <= i < k ==> rids[rowStart + i] == RID(pageNo, i)
      {
        rids := rids + [RID(pageNo, k)];
      }
      assert Placed(rids, rows) == Placed(had, rows) + PageListing(pageNo, rows[rowStart..rowStart + cnt]);
    }
  }

  lemma ReachStep(z: Codec, schema: seq<ColDef>, rows: seq<Row>, a: nat)
    requires Wide(rows, |schema|) && a < |rows|
    ensures var taken := Take(z, schema, rows, a, |rows| - a);
      Reach(z, schema, rows, a) == if taken == 0 then a else Reach(z, schema, rows, a + taken)
  {
    hide Take, Wide;
  }

  lemma ReachEnd(z: Codec, schema: seq<ColDef>, rows: seq<Row>)
    requires Wide(rows, |schema|)
    ensures Reach(z, schema, rows, |rows|) == |rows|
  {
    hide Wide, Fits;
    assert Take(z, schema, rows, |rows|, 0) == 0;
  }

  /** From position n on, the list has a row for every address, with the literals of the statement's row in all
      columns that are named and no value in the others. */
  ghost predicate AsRequested(req: Request, schema: seq<ColDef>, casts: Casts, rids: seq<RID>, list: seq<Located>,
                              n: nat)
  {
    && n + |rids| == |list|
    && forall k :: 0 <= k < |rids| ==>
         list[n + k].rid == rids[k] && RowStored(req, schema, k, list[n + k].row, casts)
  }

  lemma NothingPlaced(req: Request, schema: seq<ColDef>, casts: Casts, list: seq<Located>)
    ensures AsRequested(req, schema, casts, [], list, |list|)
  {
  }

  lemma PlacedAsRequested(req: Request, schema: seq<ColDef>, casts: Casts, rids: seq<RID>, list: seq<Located>)
    requires AllStorable(req, schema, casts) && |rids| <= RowCount(req)
    ensures AsRequested(req, schema, casts, rids, list + Placed(rids, RowsFor(req, schema, casts)), |list|)
  {
    hide RowStored, RowsFor, AllStorable;
    forall k | 0 <= k < |rids| ensures RowStored(req, schema, k, RowsFor(req, schema, casts)[k], casts) {
      RowsForStored(req, schema, casts, k);
    }
  }

  lemma RefusedIff(req: Request, schema: seq<ColDef>, casts: Casts)
    ensures AllStorable(req, schema, casts) <==> !exists c :: 0 <= c < |schema| && Refused(req, schema[c])
  {
    hide Storable, Refused;
    forall c | 0 <= c < |schema| ensures Storable(req, schema[c], casts) <==> !Refused(req, schema[c]) {
      StorableIff(req, schema[c], casts);
    }
  }

  /** The addresses are returned in the order in which their rows are registered, logged and indexed.
   *  After `RowTooLarge` the rows before the large one stay in the table, and an empty page behind them. */
  method ExecuteInsert(table: TableFile, req: Request, casts: Casts, rowCount: nat, createTs: nat)
    returns (outcome: Outcome, rids: seq<RID>)
    requires table.Valid() && Lossless(table.z) && Roomy(table.schema, RowsFor(req, table.schema, casts))
    requires |table.pages| + RowCount(req) < TWO64 && createTs < TWO64
    modifies table
    ensures table.Valid() && old(table.contents) <= table.contents
    ensures outcome == OutcomeOf(table.z, table.schema, req, casts)
    ensures var rows := RowsFor(req, table.schema, casts);
      && |rids| == (if outcome.Complete? || outcome.RowTooLarge? then Reach(table.z, table.schema, rows, 0) else 0)
      && Listing(table.contents) == old(Listing(table.contents)) + Placed(rids, rows)
    ensures !outcome.Complete? && !outcome.RowTooLarge? ==> table.contents == old(table.contents)
    ensures outcome.NoTargetColumns? <==> req.colIds == []
    ensures outcome.WrongValueCount? <==> req.colIds != [] && |req.values| % |req.colIds| != 0
    ensures outcome.NoRows? <==> req.colIds != [] && req.values == []
    ensures outcome.Complete? ==> |rids| == RowCount(req)
    ensures outcome.RowTooLarge? ==>
      |rids| < RowCount(req) && !FitsAlone(table.z, table.schema, RowsFor(req, table.schema, casts), |rids|)
    ensures outcome.BadValue? <==>
      && req.colIds != [] && |req.values| % |req.colIds| == 0 && req.values != []
      && exists c :: 0 <= c < |table.schema| && Refused(req, table.schema[c])
    ensures AsRequested(req, table.schema, casts, rids, Listing(table.contents), |old(Listing(table.contents))|)
  {
    hide AllBuilt, Roomy, Lossless, TableFile.Valid, AllStorable, Take, Reach, RowsFor, Listing, AsRequested, Refused,
         FitsAlone;
    StopsAtLargeRow(table.z, table.schema, RowsFor(req, table.schema, casts), 0);
    RefusedIff(req, table.schema, casts);
    NothingPlaced(req, table.schema, casts, Listing(table.contents));
    ghost var rows, list := RowsFor(req, table.schema, casts), Listing(table.contents);
    assert list + Placed([], rows) == list;
    if req.colIds == [] { return NoTargetColumns, []; }
    if |req.values| % |req.colIds| != 0 { return WrongValueCount, []; }
    var numRows := |req.values| / |req.colIds|;
    NoValues(|req.values|, |req.colIds|);
    if numRows == 0 { return NoRows, []; }
    var ds := BuildColumns(req, table.schema, casts);
    if ds.None? { return BadValue, []; }
    rids := PlaceRows(table, ds.value, numRows, rowCount, createTs, rows);
    outcome := if |rids| < numRows then RowTooLarge else Complete;
    PlacedAsRequested(req, table.schema, casts, rids, list);
  }

  lemma NoValues(values: nat, columns: nat)
    requires columns > 0 && values % columns == 0
    ensures values / columns == 0 <==> values == 0
  {
  }
}
