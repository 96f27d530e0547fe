/** Scanning a table: data pages are decoded into chunks one by one. */
module TableScan {
  import opened ByteCodec
  import opened Common
  import opened ColumnVectors
  import opened DataPageView
  import opened TableColumns
  import opened TableInsert
  import opened TablePages
  import opened Versions
  import VarcharCodec

  // ---- chunks ----

  ghost function Own(v: Vector): set<object> { {v, v.data, v.offsets, v.validity} }

  /** The vector shows these cells. */
  ghost predicate Shows(v: Vector, cells: seq<Cell>)
    reads Own(v)
  {
    && v.Valid() && |cells| <= v.capacity
    && (IsVarlen(v.kind) ==> v.cursor >= |cells|)
    && CellsOf(v.kind, v.data[..], if IsVarlen(v.kind) then v.Strings() else [], v.validity[..], |cells|) == cells
  }

  lemma CellShown(v: Vector, cells: seq<Cell>, r: nat)
    requires Shows(v, cells) && r < |cells|
    ensures IsVarlen(v.kind) ==> CellAt(v.kind, v.data[..], v.Strings(), v.validity[..], |cells|, r) == cells[r]
    ensures !IsVarlen(v.kind) ==> CellAt(v.kind, v.data[..], [], v.validity[..], |cells|, r) == cells[r]
  {
    var texts := if IsVarlen(v.kind) then v.Strings() else [];
    assert CellsOf(v.kind, v.data[..], texts, v.validity[..], |cells|)[r] == cells[r];
  }

  ghost predicate Separate(vs: seq<Vector>) {
    forall i, j :: 0 <= i < j < |vs| ==> Own(vs[i]) !! Own(vs[j])
  }

  class Chunk {
    var columns: seq<Vector>
    var colIds: seq<int>
    var count: nat

    constructor ()
      ensures columns == [] && count == 0
    {
      columns, colIds, count := [], [], 0;
    }

    ghost predicate Holds(schema: seq<ColDef>, rows: seq<Row>)
      reads this, set v <- columns, o <- Own(v) :: o
    {
      && count == |rows| && |columns| == |schema| && Separate(columns) && Wide(rows, |schema|)
      && colIds == seq(|schema|, c requires 0 <= c < |schema| => schema[c].colId)
      && forall c :: 0 <= c < |columns| ==> Shows(columns[c], ColumnOf(rows, |schema|, c))
    }

    /** Row r, read cell by cell. */
    method GetRow(r: nat, ghost schema: seq<ColDef>, ghost rows: seq<Row>) returns (row: Row)
      requires Holds(schema, rows) && r < count
      ensures row == rows[r]
    {
      row := [];
      for c := 0 to |columns|
        invariant row == rows[r][..c]
      {
        ghost var v, cells := columns[c], ColumnOf(rows, |schema|, c);
        assert Shows(v, cells);
        var cell := columns[c].GetCell(r);
        CellShown(v, cells, r);
        row := row + [cell];
      }
    }

    /** Fresh vectors for the columns of a schema. */
    method Init(schema: seq<ColDef>, capacity: nat)
      modifies this
      ensures |columns| == |schema| && Separate(columns) && count == 0
      ensures colIds == seq(|schema|, c requires 0 <= c < |schema| => schema[c].colId)
      ensures forall c :: 0 <= c < |columns| ==>
        && columns[c].Valid() && columns[c].kind == schema[c].kind && columns[c].capacity == capacity
        && fresh(columns[c]) && fresh(columns[c].data) && fresh(columns[c].offsets) && fresh(columns[c].validity)
        && this !in Own(columns[c])
    {
      var vs: seq<Vector> := [];
      for c := 0 to |schema|
        invariant |vs| == c && Separate(vs)
        invariant forall k :: 0 <= k < c ==>
          && vs[k].Valid() && vs[k].kind == schema[k].kind && vs[k].capacity == capacity
          && fresh(vs[k]) && fresh(vs[k].data) && fresh(vs[k].offsets) && fresh(vs[k].validity)
      {
        var v := new Vector(schema[c].kind, capacity);
        vs := vs + [v];
      }
      columns, count := vs, 0;
      assert forall k :: 0 <= k < |vs| ==> this !in Own(vs[k]);
      colIds := seq(|schema|, c requires 0 <= c < |schema| => schema[c].colId);
    }
  }

  // ---- decoding a page ----

  /** What the page view delivers for a column of a stored page. */
  lemma StoredColumn(bs: Bytes, z: Codec, schema: seq<ColDef>, rows: seq<Row>, c: nat)
    requires Stores(bs, z, schema, rows) && Lossless(z) && c < |schema|
    ensures var h := ParseHeader(bs);
      && IsData(h) && h.numRows == |rows| && h.numColumns == |schema|
      && h.colDirOffset + DIR_ENTRY_SIZE * h.numColumns <= |bs|
      && var e := DirectoryIn(bs, h)[c];
        && e.dataOffset + e.compressedSize <= |bs| && h.nullBitmapOffset + (c + 1) * BitmapBytes(h.numRows) <= |bs|
        && RawIn(bs, z, h, e) == Some(InputsOf(schema, rows)[c].data)
        && ValidityIn(bs, h, c) == InputsOf(schema, rows)[c].validity.value
  {
    hide ParseHeader, CellsFit, TextsSmall, RawIn, ValidityIn, Lossless, InputOf, EndOf, InputsFit;
    var cols := InputsOf(schema, rows);
    DirectoryReadBack(bs, z, ZSTD, cols, |rows|);
    ColumnReadBack(bs, z, ZSTD, cols, |rows|, c);
    GivenBitmap(schema, rows, c);
  }

  lemma GivenBitmap(schema: seq<ColDef>, rows: seq<Row>, c: nat)
    requires Wide(rows, |schema|) && c < |schema|
    ensures InputsOf(schema, rows)[c].validity == Some(Bitmap(InputsOf(schema, rows)[c], |rows|))
  {
  }

  /** Loads raw bytes and null bits of a column into a fresh vector. */
  method LoadColumn(vec: Vector, raw: Bytes, bits: Bytes, ghost cells: seq<Cell>)
    requires vec.Valid() && vec.capacity == (if |cells| == 0 then 1 else |cells|) && CellsFit(cells, vec.kind)
    requires raw == DataOf(cells, vec.kind) && |raw| < TWO31 && bits == NullBits(cells, |cells|, BitmapBytes(|cells|))
    modifies vec, vec.data, vec.offsets, vec.validity
    ensures Shows(vec, cells)
  {
    hide Flat, NullBits, Pieces, Cuts, VarcharCodec.Encode, VarcharCodec.Decode, VarcharCodec.Shaped,
         VarcharCodec.Complete, CellFits, CellsOf, TypeSize;
    if IsVarlen(vec.kind) {
      ghost var texts := TextsOf(cells);
      VarcharCodec.EncodedLength(texts);
      VarcharCodec.EncodedParts(texts);
      VarcharCodec.DecodeEncode(texts);
      if |raw| > 0 {
        var ok := VarcharCodec.DeserializeVarlenColumn(raw, vec);
      }
    } else {
      SlotsUniform(cells, vec.kind);
      if |raw| > 0 {
        CopyInto(vec.data, 0, raw);
      }
    }
    CopyInto(vec.validity, 0, bits);
    if cells != [] {
      assert vec.validity[..] == bits;
      assert !IsVarlen(vec.kind) ==> vec.data[..] == raw;
      StoredCells(vec.kind, vec.data[..], if IsVarlen(vec.kind) then vec.Strings() else [], vec.validity[..], cells);
    }
  }

  class TableScanIterator {
    const table: TableFile
    const first: nat
    const last: nat
    var currentPageNo: nat
    var started: bool
    var currentPage: Page?

    constructor (table: TableFile, first: nat, last: nat)
      ensures this.table == table && this.first == first && this.last == last && !started
    {
      this.table, this.first, this.last := table, first, last;
      currentPageNo, started, currentPage := 0, false, null;
    }

    /** The page where the next call starts looking. */
    ghost function From(): nat
      reads this
    {
      if started then currentPageNo + 1 else first
    }

    /** Fetches the current page; pages that are no data pages are given back at once. */
    method LoadCurrentPage() returns (ok: bool)
      requires table.Valid() && currentPageNo < |table.pages|
      modifies this`currentPage
      ensures ok == IsData(ParseHeader(table.pages[currentPageNo]))
      ensures ok ==> currentPage != null && fresh(currentPage) && fresh(currentPage.data)
      ensures ok ==> currentPage.data.Length == PAGE_SIZE && currentPage.data[..] == table.pages[currentPageNo]
    {
      hide ParseHeader, Written, RowsFit, TextsSmall;
      ghost var p := currentPageNo;
      assert PageHolds(table.pages[p], table.z, table.schema, table.contents[p]);
      var page := table.FetchPage(currentPageNo);
      HeaderInPage(page.data[..], table.z, table.schema, table.contents[p]);
      var probe := new TableDataPage(page, table.z);
      ok := IsData(probe.header);
      currentPage := if ok then page else null;
    }

    /** Decodes the current page column by column. */
    method FillChunkFromPage(chunk: Chunk, ghost rows: seq<Row>)
      requires currentPage != null && currentPage.data.Length == PAGE_SIZE && Lossless(table.z)
      requires Stores(currentPage.data[..], table.z, table.schema, rows)
      modifies chunk
      ensures chunk.Holds(table.schema, rows)
      ensures forall c :: 0 <= c < |chunk.columns| ==> this !in Own(chunk.columns[c])
    {
      hide ParseHeader, Stores, Shows, Lossless, DirectoryIn, CellsFit, ColumnOf, IsData;
      ghost var bs := currentPage.data[..];
      StoredHeader(bs, table.z, table.schema, rows);
      var dp := new TableDataPage(currentPage, table.z);
      var numRows, numCols := dp.header.numRows, dp.header.numColumns;
      chunk.Init(table.schema, if numRows == 0 then 1 else numRows);
      var colCount := if numCols < |table.schema| then numCols else |table.schema|;
      var vs := chunk.columns;
      for c := 0 to colCount
        invariant chunk.columns == vs
        invariant chunk.colIds == seq(|table.schema|, k requires 0 <= k < |table.schema| => table.schema[k].colId)
        invariant dp.Valid() && dp.page == currentPage && dp.codec == table.z && currentPage.data[..] == bs
        invariant forall k :: 0 <= k < c ==> Shows(vs[k], ColumnOf(rows, |table.schema|, k))
        invariant forall k :: c <= k < |vs| ==> vs[k].Valid()
      {
        FillColumn(dp, vs[c], c, table.schema, rows);
      }
      assert forall k :: 0 <= k < |vs| ==> chunk !in Own(vs[k]) && this !in Own(vs[k]);
      chunk.count := numRows;
      assert forall k :: 0 <= k < |vs| ==> Shows(vs[k], ColumnOf(rows, |table.schema|, k));
    }

    /** Loads the current page and, if it is a data page, decodes it. */
    method DecodePage(output: Chunk) returns (loaded: bool)
      requires table.Valid() && Lossless(table.z) && currentPageNo < |table.pages|
      modifies this`currentPage, output
      ensures currentPageNo < |table.contents|
      ensures
        if loaded then output.Holds(table.schema, table.contents[currentPageNo])
        else table.contents[currentPageNo] == []
    {
      hide ParseHeader, Stores, IsData, Chunk.Holds, Lossless;
      assert PageHolds(table.pages[currentPageNo], table.z, table.schema, table.contents[currentPageNo]);
      loaded := LoadCurrentPage();
      if loaded {
        FillChunkFromPage(output, table.contents[currentPageNo]);
        assert this !in (set v <- output.columns, o <- Own(v) :: o);
        currentPage := null;
      }
    }

    method AdvancePage() returns (inRange: bool)
      modifies this`currentPageNo
      ensures currentPageNo == old(currentPageNo) + 1 && inRange == (currentPageNo <= last)
    {
      currentPageNo := currentPageNo + 1;
      inRange := currentPageNo <= last;
    }

    /** Delivers the next data page; the pages it passes over hold no rows. */
    method Next(output: Chunk) returns (more: bool)
      requires table.Valid() && Lossless(table.z) && last < |table.pages| == |table.contents|
      modifies this, output
      ensures started && old(From()) <= currentPageNo && more == (currentPageNo <= last)
      ensures more ==> output.Holds(table.schema, table.contents[currentPageNo])
      ensures forall p: nat :: old(From()) <= p <= last && p < currentPageNo ==> table.contents[p] == []
    {
      hide TableFile.Valid, Chunk.Holds, Lossless;
      if !started {
        currentPageNo, started := first, true;
      } else {
        var inRange := AdvancePage();
        if !inRange { return false; }
      }
      while currentPageNo <= last
        invariant started && old(From()) <= currentPageNo
        invariant forall p: nat :: old(From()) <= p <= last && p < currentPageNo ==> table.contents[p] == []
        decreases last + 1 - currentPageNo
      {
        var loaded := DecodePage(output);
        if loaded { return true; }
        var inRange := AdvancePage();
        if !inRange { return false; }
      }
      more := false;
    }
  }

  /** One column of a page: decompressed, and decoded into its vector with the null bits. */
  method FillColumn(dp: TableDataPage, vec: Vector, c: nat, ghost schema: seq<ColDef>, ghost rows: seq<Row>)
    requires dp.Valid() && Stores(dp.page.data[..], dp.codec, schema, rows) && Lossless(dp.codec) && c < |schema|
    requires vec.Valid() && vec.kind == schema[c].kind && vec.capacity == (if |rows| == 0 then 1 else |rows|)
    requires dp !in Own(vec) && dp.page.data !in Own(vec)
    modifies vec, vec.data, vec.offsets, vec.validity
    ensures Shows(vec, ColumnOf(rows, |schema|, c))
  {
    hide ParseHeader, Shows, Lossless, EntryAt, RawIn, ValidityIn, CellsFit, DataOf, NullBits, Written;
    StoredColumn(dp.page.data[..], dp.codec, schema, rows, c);
    var raw := dp.GetColumnRaw(c);
    var bits := dp.GetColumnValidity(c);
    LoadColumn(vec, raw.value, bits, ColumnOf(rows, |schema|, c));
  }

  lemma StoredHeader(bs: Bytes, z: Codec, schema: seq<ColDef>, rows: seq<Row>)
    requires Stores(bs, z, schema, rows)
    ensures var h := ParseHeader(bs);
      && |bs| == PAGE_SIZE && Wide(rows, |schema|) && IsData(h) && h.numRows == |rows| && h.numColumns == |schema|
      && h.colDirOffset + DIR_ENTRY_SIZE * h.numColumns <= PAGE_SIZE
  {
    hide ParseHeader, CellsFit, TextsSmall, InputsFit, Body;
  }

  lemma HeaderInPage(bs: Bytes, z: Codec, schema: seq<ColDef>, rows: seq<Row>)
    requires PageHolds(bs, z, schema, rows)
    ensures var h := ParseHeader(bs);
      IsData(h) ==> h.colDirOffset + DIR_ENTRY_SIZE * h.numColumns <= PAGE_SIZE
  {
    hide ParseHeader, RowsFit, TextsSmall, InputsFit, Body, InputsOf;
  }
}
