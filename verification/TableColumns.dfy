/** Rows of a table and the columns of a data page that stand for them. */
module TableColumns {
  import opened ByteCodec
  import opened Common
  import opened ColumnVectors
  import opened TablePages
  import VarcharCodec

  datatype ColDef = ColDef(colId: int, kind: ColumnType)
  type Row = seq<Cell>

  /** Every row has a value of the right kind for every column. */
  ghost predicate RowsFit(rows: seq<Row>, schema: seq<ColDef>) {
    && Wide(rows, |schema|)
    && forall c :: 0 <= c < |schema| ==> CellsFit(ColumnOf(rows, |schema|, c), schema[c].kind)
  }

  ghost predicate Wide(rows: seq<Row>, width: nat) {
    forall r :: 0 <= r < |rows| ==> |rows[r]| == width
  }

  ghost predicate CellsFit(cells: seq<Cell>, kind: ColumnType) {
    forall r :: 0 <= r < |cells| ==> CellFits(cells[r], kind)
  }

  /** Column c of some rows. */
  ghost function ColumnOf(rows: seq<Row>, width: nat, c: nat): (cells: seq<Cell>)
    requires Wide(rows, width) && c < width
    ensures |cells| == |rows|
  {
    seq(|rows|, r requires 0 <= r < |rows| => rows[r][c])
  }

  // ---- the stored form of a column ----

  /** All bits set, then those of the NULLs among the first i cells cleared. */
  ghost function NullBits(cells: seq<Cell>, i: nat, bytes: nat): (bits: Bytes)
    requires i <= |cells| && i <= 8 * bytes
    ensures |bits| == bytes
  {
    if i == 0 then seq(bytes, _ => 0xFF)
    else
      var bits := NullBits(cells, i - 1, bytes);
      if !cells[i - 1].Null? then bits else bits[(i - 1) / 8 := Clear(bits[(i - 1) / 8], (i - 1) % 8)]
  }

  lemma {:induction false} NullBit(cells: seq<Cell>, i: nat, bytes: nat, k: nat)
    requires i <= |cells| && i <= 8 * bytes && k < 8 * bytes
    ensures BitAt(NullBits(cells, i, bytes), k) <==> (k < i ==> !cells[k].Null?)
  {
    if i == 0 {
      AllSet(NullBits(cells, 0, bytes), k);
    } else {
      NullBit(cells, i - 1, bytes, k);
      ClearAt(NullBits(cells, i - 1, bytes), i - 1, k);
    }
  }

  /** A NULL text is stored as the empty text. */
  ghost function TextsOf(cells: seq<Cell>): (texts: seq<Bytes>)
    ensures |texts| == |cells|
  {
    seq(|cells|, r requires 0 <= r < |cells| => if cells[r].Str? then cells[r].text else [])
  }

  /** A fixed-width NULL is stored as zeros. */
  ghost function SlotOf(cell: Cell, w: nat): Bytes {
    if cell.Null? then seq(w, _ => 0) else CellBytes(cell)
  }

  ghost function SlotsOf(cells: seq<Cell>, w: nat): (slots: seq<Bytes>)
    ensures |slots| == |cells|
  {
    seq(|cells|, r requires 0 <= r < |cells| => SlotOf(cells[r], w))
  }

  lemma SlotsUniform(cells: seq<Cell>, kind: ColumnType)
    requires CellsFit(cells, kind) && !IsVarlen(kind)
    ensures forall r :: 0 <= r < |cells| ==> |SlotsOf(cells, TypeSize(kind))[r]| == TypeSize(kind)
    ensures |Flat(SlotsOf(cells, TypeSize(kind)))| == |cells| * TypeSize(kind)
  {
    var w := TypeSize(kind);
    forall r | 0 <= r < |cells| ensures |SlotsOf(cells, w)[r]| == w {
      if !cells[r].Null? { CellRoundTrip(cells[r], kind); }
    }
    FlatUniform(SlotsOf(cells, w), w);
  }

  ghost function DataOf(cells: seq<Cell>, kind: ColumnType): Bytes {
    if IsVarlen(kind) then VarcharCodec.Encode(TextsOf(cells)) else Flat(SlotsOf(cells, TypeSize(kind)))
  }

  ghost function InputOf(def: ColDef, cells: seq<Cell>): ColumnInput {
    ColumnInput(def.colId, DataOf(cells, def.kind), Some(NullBits(cells, |cells|, BitmapBytes(|cells|))))
  }

  /** The columns of a page that holds exactly these rows. */
  ghost function InputsOf(schema: seq<ColDef>, rows: seq<Row>): (cols: seq<ColumnInput>)
    requires Wide(rows, |schema|)
    ensures |cols| == |schema|
  {
    seq(|schema|, c requires 0 <= c < |schema| => InputOf(schema[c], ColumnOf(rows, |schema|, c)))
  }

  // ---- pages that hold rows ----

  ghost predicate Stores(bs: Bytes, z: Codec, schema: seq<ColDef>, rows: seq<Row>) {
    && RowsFit(rows, schema) && TextsSmall(schema, rows)
    && Written(bs, z, ZSTD, InputsOf(schema, rows), |rows|)
  }

  /** Columns below 2^31 bytes, as the 32-bit offsets need. */
  ghost predicate TextsSmall(schema: seq<ColDef>, rows: seq<Row>)
    requires Wide(rows, |schema|)
  {
    forall c :: 0 <= c < |schema| ==> |InputsOf(schema, rows)[c].data| < TWO31
  }

  /** A page of the table: a data page with its rows, or a page that a scan skips. */
  ghost predicate PageHolds(bs: Bytes, z: Codec, schema: seq<ColDef>, rows: seq<Row>) {
    |bs| == PAGE_SIZE && if IsData(ParseHeader(bs)) then Stores(bs, z, schema, rows) else rows == []
  }

  /** Loading the stored form of a column into a vector gives the cells back. */
  lemma StoredCells(kind: ColumnType, data: Bytes, texts: seq<Bytes>, bits: Bytes, cells: seq<Cell>)
    requires CellsFit(cells, kind) && bits == NullBits(cells, |cells|, BitmapBytes(|cells|))
    requires if IsVarlen(kind) then texts == TextsOf(cells) else data == Flat(SlotsOf(cells, TypeSize(kind)))
    ensures if IsVarlen(kind) then |texts| == |cells| else |data| == |cells| * TypeSize(kind)
    ensures CellsOf(kind, data, texts, bits, |cells|) == cells
  {
    hide CellBytes, CellOf, BitAt, TypeSize, Flat, NullBits;
    var w := TypeSize(kind);
    if !IsVarlen(kind) { SlotsUniform(cells, kind); }
    forall r | 0 <= r < |cells| ensures CellAt(kind, data, texts, bits, |cells|, r) == cells[r] {
      NullBit(cells, |cells|, BitmapBytes(|cells|), r);
      if !IsVarlen(kind) && !cells[r].Null? {
        CellRoundTrip(cells[r], kind);
        FlatPart(SlotsOf(cells, w), r);
        StartUniform(SlotsOf(cells, w), w, r);
      }
    }
  }

  // ---- slices ----

  lemma {:induction false} FlatSlice(parts: seq<Bytes>, a: nat, b: nat)
    requires a <= b <= |parts|
    ensures Start(parts, a) + |Flat(parts[a..b])| == Start(parts, b) <= |Flat(parts)|
    ensures Flat(parts)[Start(parts, a)..Start(parts, b)] == Flat(parts[a..b])
    decreases b - a
  {
    StartMono(parts, a, b);
    if a < b {
      FlatSlice(parts, a, b - 1);
      assert parts[a..b][..b - a - 1] == parts[a..b - 1];
      StartStep(parts, b - 1);
      FlatPart(parts, b - 1);
    }
  }

  lemma EncodeSliceLength(texts: seq<Bytes>, a: nat, b: nat)
    requires a <= b <= |texts|
    ensures |VarcharCodec.Encode(texts[a..b])| <= |VarcharCodec.Encode(texts)|
    ensures |Flat(texts[a..b])| <= |Flat(texts)|
  {
    FlatSlice(texts, a, b);
    VarcharCodec.EncodedLength(texts);
    VarcharCodec.EncodedLength(texts[a..b]);
  }

  /** Rows a to b in place of all rows make no column longer. */
  lemma SliceShorter(schema: seq<ColDef>, rows: seq<Row>, a: nat, b: nat)
    requires RowsFit(rows, schema) && a <= b <= |rows|
    ensures RowsFit(rows[a..b], schema)
    ensures forall c :: 0 <= c < |schema| ==> |InputsOf(schema, rows[a..b])[c].data| <= |InputsOf(schema, rows)[c].data|
  {
    hide Flat, NullBits, VarcharCodec.Encode, CellFits, CellBytes;
    forall c | 0 <= c < |schema|
      ensures CellsFit(ColumnOf(rows[a..b], |schema|, c), schema[c].kind)
      ensures |InputsOf(schema, rows[a..b])[c].data| <= |InputsOf(schema, rows)[c].data|
    {
      var cells, kind := ColumnOf(rows, |schema|, c), schema[c].kind;
      assert ColumnOf(rows[a..b], |schema|, c) == cells[a..b];
      DataShorter(cells, kind, a, b);
    }
  }

  lemma DataShorter(cells: seq<Cell>, kind: ColumnType, a: nat, b: nat)
    requires CellsFit(cells, kind) && a <= b <= |cells|
    ensures |DataOf(cells[a..b], kind)| <= |DataOf(cells, kind)|
  {
    hide Flat, VarcharCodec.Encode, CellFits;
    if IsVarlen(kind) {
      assert TextsOf(cells[a..b]) == TextsOf(cells)[a..b];
      EncodeSliceLength(TextsOf(cells), a, b);
    } else {
      assert SlotsOf(cells[a..b], TypeSize(kind)) == SlotsOf(cells, TypeSize(kind))[a..b];
      FlatSlice(SlotsOf(cells, TypeSize(kind)), a, b);
    }
  }

  // ---- 32-bit sizes ----

  /** An upper bound of the compressed sizes. */
  ghost function CompressedBound(cols: seq<ColumnInput>): nat {
    if cols == [] then 0 else CompressedBound(cols[..|cols| - 1]) + 2 * |cols[|cols| - 1].data| + 64
  }

  ghost function EndBound(cols: seq<ColumnInput>, numRows: nat): nat {
    DataStart(|cols|) + CompressedBound(cols) + BitmapArea(numRows, |cols|)
  }

  /** The insert stays within 32-bit sizes: what the program takes for granted. */
  ghost predicate Roomy(schema: seq<ColDef>, rows: seq<Row>)
    requires Wide(rows, |schema|)
  {
    && |schema| < 0x1_0000 && |rows| < TWO31 && TextsSmall(schema, rows)
    && (forall c :: 0 <= c < |schema| ==> IsInt32(schema[c].colId))
    && EndBound(InputsOf(schema, rows), |rows|) < TWO32
  }

  lemma CompressShort(z: Codec, raw: Bytes)
    requires Lossless(z)
    ensures |Compress(z, ZSTD, raw)| <= 2 * |raw| + 64
  {
    assert z.decompress(z.compress(raw), |raw|) == Some(raw);
  }

  lemma {:induction false} CompressedBounded(z: Codec, cols: seq<ColumnInput>, more: seq<ColumnInput>)
    requires Lossless(z) && |cols| == |more| && forall i :: 0 <= i < |cols| ==> |cols[i].data| <= |more[i].data|
    ensures |Flat(Compressed(z, ZSTD, cols))| <= CompressedBound(more)
  {
    hide Lossless, Compress;
    if cols != [] {
      var n := |cols| - 1;
      CompressedBounded(z, cols[..n], more[..n]);
      assert Compressed(z, ZSTD, cols)[..n] == Compressed(z, ZSTD, cols[..n]);
      CompressShort(z, cols[n].data);
    }
  }

  lemma SliceFits(z: Codec, schema: seq<ColDef>, rows: seq<Row>, a: nat, b: nat)
    requires Lossless(z) && RowsFit(rows, schema) && Roomy(schema, rows) && a <= b <= |rows|
    ensures RowsFit(rows[a..b], schema) && TextsSmall(schema, rows[a..b])
    ensures var cols := InputsOf(schema, rows[a..b]);
      InputsFit(cols, b - a) && EndOf(z, ZSTD, cols, b - a) < TWO32
  {
    hide Flat, Compressed, Lossless, CellsFit, DataOf, CompressedBound, NullBits;
    SliceShorter(schema, rows, a, b);
    CompressedBounded(z, InputsOf(schema, rows[a..b]), InputsOf(schema, rows));
    BitmapsShorter(b - a, |rows|, |schema|);
  }

  lemma BitmapsShorter(m: nat, n: nat, k: nat)
    requires m <= n
    ensures BitmapArea(m, k) <= BitmapArea(n, k)
  {
  }
}
