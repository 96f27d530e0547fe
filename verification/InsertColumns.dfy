/** The values of an INSERT, and the columns the program builds from them before it looks at pages. */
module InsertColumns {
  import opened ByteCodec
  import opened Common
  import opened ColumnVectors
  import opened TableColumns

  type Word64 = x: int | 0 <= x < TWO64

  /** A literal as the parser delivers it; floating-point numbers are bit patterns. */
  datatype Value =
    | Missing
    | Small(value: int)
    | Int(value: int)
    | Float(pattern: nat)
    | Double(bits: Word64)
    | Text(text: Bytes)
    | Character(code: Byte)

  /** Conversions of the hardware, which are not part of this model. */
  datatype Casts = Casts(ofInt: int -> Word64, ofFloat: nat -> Word64)

  /** The stored value; None is the exception for a value of the wrong kind. Integers are cut to 32 bits. */
  function ToCell(v: Value, kind: ColumnType, casts: Casts): Option<Cell> {
    if v.Missing? then Some(Null)
    else match kind
      case NUMBER => if v.Int? || v.Small? then Some(Num(Signed32(Pattern32(v.value)))) else None
      case DOUBLE =>
        if v.Double? then Some(Dbl(v.bits))
        else if v.Float? then Some(Dbl(casts.ofFloat(v.pattern)))
        else if v.Int? then Some(Dbl(casts.ofInt(v.value)))
        else None
      case _ => if v.Text? then Some(Str(v.text)) else None
  }

  function OrNull(c: Option<Cell>): Cell { if c.Some? then c.value else Null }

  /** INSERT INTO t (columns) VALUES (row), (row), ...: the values of all rows one after the other. */
  datatype Request = Request(colIds: seq<int>, values: seq<Value>)

  function RowCount(req: Request): nat {
    if req.colIds == [] then 0 else |req.values| / |req.colIds|
  }

  lemma InRow(req: Request, r: nat, j: nat)
    requires r < RowCount(req) && j < |req.colIds|
    ensures r * |req.colIds| + j < |req.values|
  {
    var k, n := |req.colIds|, RowCount(req);
    RowInside(r, n, k);
    DivBound(|req.values|, k);
  }

  /** The literal for row r in a column; columns that are not named get no value. */
  function ValueFor(req: Request, def: ColDef, r: nat): Value
    requires r < RowCount(req)
  {
    match PositionOf(req.colIds, def.colId)
    case None => Missing
    case Some(j) =>
      InRow(req, r, j);
      req.values[r * |req.colIds| + j]
  }

  function CellFor(req: Request, def: ColDef, r: nat, casts: Casts): Option<Cell>
    requires r < RowCount(req)
  {
    ToCell(ValueFor(req, def, r), def.kind, casts)
  }

  ghost function CellsFor(req: Request, def: ColDef, casts: Casts): (cells: seq<Cell>)
    ensures |cells| == RowCount(req)
  {
    seq(RowCount(req), r requires 0 <= r < RowCount(req) => OrNull(CellFor(req, def, r, casts)))
  }

  ghost predicate Storable(req: Request, def: ColDef, casts: Casts) {
    forall r :: 0 <= r < RowCount(req) ==> CellFor(req, def, r, casts).Some?
  }

  /** The rows that the INSERT describes. */
  ghost function RowsFor(req: Request, schema: seq<ColDef>, casts: Casts): (rows: seq<Row>)
    ensures |rows| == RowCount(req) && Wide(rows, |schema|)
  {
    seq(RowCount(req), r requires 0 <= r < RowCount(req) =>
      seq(|schema|, c requires 0 <= c < |schema| => OrNull(CellFor(req, schema[c], r, casts))))
  }

  ghost predicate AllStorable(req: Request, schema: seq<ColDef>, casts: Casts) {
    forall c :: 0 <= c < |schema| ==> Storable(req, schema[c], casts)
  }

  lemma RowsForFit(req: Request, schema: seq<ColDef>, casts: Casts)
    ensures RowsFit(RowsFor(req, schema, casts), schema)
    ensures forall c :: 0 <= c < |schema| ==>
      ColumnOf(RowsFor(req, schema, casts), |schema|, c) == CellsFor(req, schema[c], casts)
  {
    var rows := RowsFor(req, schema, casts);
    forall c | 0 <= c < |schema|
      ensures ColumnOf(rows, |schema|, c) == CellsFor(req, schema[c], casts)
      ensures CellsFit(ColumnOf(rows, |schema|, c), schema[c].kind)
    {
      CellsForFit(req, schema[c], casts);
      assert ColumnOf(rows, |schema|, c) == CellsFor(req, schema[c], casts);
    }
  }

  lemma CellsForFit(req: Request, def: ColDef, casts: Casts)
    ensures CellsFit(CellsFor(req, def, casts), def.kind)
  {
    forall r | 0 <= r < RowCount(req) ensures CellFits(OrNull(CellFor(req, def, r, casts)), def.kind) {
      ToCellFits(ValueFor(req, def, r), def.kind, casts);
    }
  }

  lemma ToCellFits(v: Value, kind: ColumnType, casts: Casts)
    ensures CellFits(OrNull(ToCell(v, kind, casts)), kind)
  {
    if v.Int? || v.Small? { Signed32Pattern(v.value); }
  }

  // ---- which literal a stored cell comes from ----

  /** Position j of the column list is the last to name the column. */
  predicate LastNamed(colIds: seq<int>, id: int, j: nat) {
    j < |colIds| && colIds[j] == id && forall m :: j < m < |colIds| ==> colIds[m] != id
  }

  /** The kinds of literals a column takes. */
  predicate Takes(kind: ColumnType, v: Value) {
    || v.Missing?
    || match kind
       case NUMBER => v.Int? || v.Small?
       case DOUBLE => v.Double? || v.Float? || v.Int?
       case _ => v.Text?
  }

  /** The cell is the literal; an integer column keeps 32 bits of a larger number. */
  predicate Stores(cell: Cell, v: Value, casts: Casts) {
    match v
    case Missing => cell == Null
    case Small(n) => cell.Num? && Cut32(n, cell.value)
    case Int(n) => (cell.Num? && Cut32(n, cell.value)) || cell == Dbl(casts.ofInt(n))
    case Float(p) => cell == Dbl(casts.ofFloat(p))
    case Double(bits) => cell == Dbl(bits)
    case Text(t) => cell == Str(t)
    case Character(_) => false
  }

  /** x is n, or, if that is out of range, the 32-bit number that differs from it by a multiple of 2^32. */
  predicate Cut32(n: int, x: int) {
    && -0x8000_0000 <= x < 0x8000_0000 && (n - x) % 0x1_0000_0000 == 0
    && (-0x8000_0000 <= n < 0x8000_0000 ==> x == n)
  }

  /** What a row of the statement has in a column: nothing if the column is not named, or else its literal, of a
      kind that the column takes. */
  ghost predicate CellStored(req: Request, def: ColDef, r: nat, cell: Cell, casts: Casts) {
    && (def.colId !in req.colIds ==> cell == Null)
    && forall j :: 0 <= j < |req.colIds| && LastNamed(req.colIds, def.colId, j) ==>
         var at := r * |req.colIds| + j;
         at < |req.values| && Takes(def.kind, req.values[at]) && Stores(cell, req.values[at], casts)
         && (cell.Dbl? ==> def.kind.DOUBLE?)
  }

  ghost predicate RowStored(req: Request, schema: seq<ColDef>, r: nat, row: Row, casts: Casts) {
    |row| == |schema| && forall c :: 0 <= c < |schema| ==> CellStored(req, schema[c], r, row[c], casts)
  }

  /** Row r has a literal of a kind that the column does not take. */
  predicate RefusedAt(req: Request, def: ColDef, r: nat, j: nat) {
    && r < RowCount(req) && LastNamed(req.colIds, def.colId, j) && r * |req.colIds| + j < |req.values|
    && !Takes(def.kind, req.values[r * |req.colIds| + j])
  }

  ghost predicate Refused(req: Request, def: ColDef) {
    exists r: nat, j: nat :: RefusedAt(req, def, r, j)
  }

  lemma LastIs(colIds: seq<int>, id: int)
    ensures PositionOf(colIds, id).None? <==> id !in colIds
    ensures forall j: nat :: LastNamed(colIds, id, j) <==> PositionOf(colIds, id) == Some(j)
  {
    PositionIs(colIds, id);
  }

  lemma ToCellStores(v: Value, kind: ColumnType, casts: Casts)
    ensures ToCell(v, kind, casts).Some? <==> Takes(kind, v)
    ensures ToCell(v, kind, casts).Some? ==>
      var cell := ToCell(v, kind, casts).value; Stores(cell, v, casts) && (cell.Dbl? ==> kind.DOUBLE?)
  {
    if v.Int? || v.Small? { Cut(v.value); }
  }

  lemma Cut(n: int)
    ensures Cut32(n, Signed32(Pattern32(n)))
  {
    assert n == n / TWO32 * TWO32 + n % TWO32;
    var x := Signed32(Pattern32(n));
    assert n - x == n / TWO32 * TWO32 || n - x == (n / TWO32 + 1) * TWO32;
  }

  lemma CellForStored(req: Request, def: ColDef, r: nat, casts: Casts)
    requires r < RowCount(req) && CellFor(req, def, r, casts).Some?
    ensures CellStored(req, def, r, CellFor(req, def, r, casts).value, casts)
  {
    hide ToCell, Stores, Takes, PositionOf, LastNamed;
    LastIs(req.colIds, def.colId);
    ToCellStores(ValueFor(req, def, r), def.kind, casts);
    NoValue(def.kind, casts);
    match PositionOf(req.colIds, def.colId)
    case None =>
    case Some(j) => InRow(req, r, j);
  }

  /** A column can be stored exactly if none of its literals is refused. */
  lemma StorableIff(req: Request, def: ColDef, casts: Casts)
    ensures Storable(req, def, casts) <==> !Refused(req, def)
  {
    hide ToCell, Stores, Takes, PositionOf, LastNamed;
    LastIs(req.colIds, def.colId);
    NothingTaken(def.kind);
    forall r: nat, j: nat | RefusedAt(req, def, r, j) ensures CellFor(req, def, r, casts).None? {
      ToCellStores(ValueFor(req, def, r), def.kind, casts);
    }
    if !Storable(req, def, casts) {
      var r :| 0 <= r < RowCount(req) && CellFor(req, def, r, casts).None?;
      ToCellStores(ValueFor(req, def, r), def.kind, casts);
      var j := PositionOf(req.colIds, def.colId).value;
      InRow(req, r, j);
      assert RefusedAt(req, def, r, j);
    }
  }

  lemma NothingTaken(kind: ColumnType)
    ensures Takes(kind, Missing)
  {
  }

  lemma CellsForStored(req: Request, def: ColDef, casts: Casts)
    requires Storable(req, def, casts)
    ensures forall r :: 0 <= r < RowCount(req) ==> CellStored(req, def, r, CellsFor(req, def, casts)[r], casts)
  {
    hide CellStored, CellFor;
    forall r | 0 <= r < RowCount(req) ensures CellStored(req, def, r, CellsFor(req, def, casts)[r], casts) {
      CellForStored(req, def, r, casts);
    }
  }

  lemma RowsForStored(req: Request, schema: seq<ColDef>, casts: Casts, r: nat)
    requires AllStorable(req, schema, casts) && r < RowCount(req)
    ensures RowStored(req, schema, r, RowsFor(req, schema, casts)[r], casts)
  {
    hide CellStored, CellFor;
    forall c | 0 <= c < |schema| ensures CellStored(req, schema[c], r, RowsFor(req, schema, casts)[r][c], casts) {
      assert Storable(req, schema[c], casts);
      CellForStored(req, schema[c], r, casts);
    }
  }

  // ---- building the columns ----

  /** One column of all rows: fixed-width bytes or texts, and the null bits. */
  datatype ColumnData = ColumnData(buf: Bytes, bits: Bytes, texts: seq<Bytes>)

  ghost predicate Built(d: ColumnData, kind: ColumnType, cells: seq<Cell>) {
    && d.bits == NullBits(cells, |cells|, BitmapBytes(|cells|))
    && if IsVarlen(kind) then d.texts == TextsOf(cells) else d.buf == Flat(SlotsOf(cells, TypeSize(kind)))
  }

  /** The first r slots of a buffer are written and the rest is still zero. */
  ghost predicate SlotsDone(buf: Bytes, slots: seq<Bytes>, w: nat, r: nat) {
    && r <= |slots| && |buf| == |slots| * w && r * w <= |buf| && buf[..r * w] == Flat(slots[..r])
    && forall i :: r * w <= i < |buf| ==> buf[i] == 0
  }

  lemma SlotsStart(buf: Bytes, slots: seq<Bytes>, w: nat)
    requires |buf| == |slots| * w && forall i :: 0 <= i < |buf| ==> buf[i] == 0
    ensures SlotsDone(buf, slots, w, 0)
  {
    StartZero(slots);
  }

  lemma SlotsEnd(buf: Bytes, slots: seq<Bytes>, w: nat)
    requires SlotsDone(buf, slots, w, |slots|)
    ensures buf == Flat(slots)
  {
    assert slots[..|slots|] == slots && buf[..|slots| * w] == buf;
  }

  lemma SlotZero(buf: Bytes, slots: seq<Bytes>, w: nat, r: nat)
    requires SlotsDone(buf, slots, w, r) && r < |slots| && slots[r] == seq(w, _ => 0)
    ensures SlotsDone(buf, slots, w, r + 1)
  {
    hide Flat;
    RowInside(r, |slots|, w);
    StartStep(slots, r);
    assert buf[..r * w + w] == buf[..r * w] + slots[r];
  }

  method WriteSlot(buf: array<Byte>, ghost slots: seq<Bytes>, w: nat, r: nat, bs: Bytes)
    requires SlotsDone(buf[..], slots, w, r) && r < |slots| && bs == slots[r] && |bs| == w
    modifies buf
    ensures SlotsDone(buf[..], slots, w, r + 1)
  {
    hide Flat;
    RowInside(r, |slots|, w);
    StartStep(slots, r);
    ghost var tail := buf[r * w + w..];
    CopyInto(buf, r * w, bs);
    forall i | r * w + w <= i < buf.Length ensures buf[i] == 0 {
      assert buf[r * w + w..][i - r * w - w] == tail[i - r * w - w];
    }
  }

  method LookUp(req: Request, def: ColDef, pos: map<int, nat>, r: nat) returns (v: Value)
    requires forall id :: id in pos <==> PositionOf(req.colIds, id).Some?
    requires forall id :: id in pos ==> PositionOf(req.colIds, id) == Some(pos[id])
    requires r < RowCount(req)
    ensures v == ValueFor(req, def, r)
  {
    if def.colId !in pos { return Missing; }
    InRow(req, r, pos[def.colId]);
    v := req.values[r * |req.colIds| + pos[def.colId]];
  }

  /** Fails exactly when some value cannot be stored in the column. */
  method BuildColumn(req: Request, def: ColDef, pos: map<int, nat>, casts: Casts) returns (d: Option<ColumnData>)
    requires forall id :: id in pos <==> PositionOf(req.colIds, id).Some?
    requires forall id :: id in pos ==> PositionOf(req.colIds, id) == Some(pos[id])
    ensures d.Some? <==> Storable(req, def, casts)
    ensures d.Some? <==> !Refused(req, def)
    ensures d.Some? ==> Built(d.value, def.kind, CellsFor(req, def, casts))
    ensures d.Some? ==>
      forall r :: 0 <= r < RowCount(req) ==> CellStored(req, def, r, CellsFor(req, def, casts)[r], casts)
  {
    hide Flat, Clear, ValueFor, PositionOf, CellBytes, TypeSize, CellFits, Signed32, Pattern32, SlotsDone, NullBits,
         ToCell, CellStored, Refused;
    StorableIff(req, def, casts);
    if Storable(req, def, casts) { CellsForStored(req, def, casts); }
    var n, isVar, w := RowCount(req), IsVarlen(def.kind), TypeSize(def.kind);
    ghost var cells := CellsFor(req, def, casts);
    ghost var slots := SlotsOf(cells, w);
    CellsForFit(req, def, casts);
    if !isVar { SlotsUniform(cells, def.kind); }
    var validity := new Byte[BitmapBytes(n)](_ => 0xFF);
    var buf := new Byte[if isVar then 0 else n * w](_ => 0);
    var texts := new Bytes[if isVar then n else 0](_ => []);
    if !isVar { SlotsStart(buf[..], slots, w); }
    NullStart(cells, validity[..]);
    for r := 0 to n
      invariant forall k :: 0 <= k < r ==> CellFor(req, def, k, casts).Some?
      invariant validity[..] == NullBits(cells, r, BitmapBytes(n))
      invariant isVar ==> texts[..r] == TextsOf(cells)[..r] && forall k :: r <= k < n ==> texts[k] == []
      invariant !isVar ==> SlotsDone(buf[..], slots, w, r)
    {
      var v := LookUp(req, def, pos, r);
      NullStep(cells, r, BitmapBytes(n));
      if v.Missing? {
        NoValue(def.kind, casts);
        assert cells[r] == Null;
        validity[r / 8] := Clear(validity[r / 8], r % 8);
        if !isVar { SlotZero(buf[..], slots, w, r); }
      } else {
        var c := ToCell(v, def.kind, casts);
        if c.None? { return None; }
        CellPresent(v, def.kind, casts);
        assert cells[r] == c.value;
        if isVar {
          texts[r] := c.value.text;
        } else {
          WriteSlot(buf, slots, w, r, CellBytes(c.value));
        }
      }
    }
    if !isVar { SlotsEnd(buf[..], slots, w); }
    d := Some(ColumnData(buf[..], validity[..], texts[..]));
  }

  lemma RowInside(r: nat, n: nat, w: nat)
    requires r < n
    ensures r * w + w == (r + 1) * w <= n * w
  {
    assert n * w == (n - r - 1) * w + (r + 1) * w;
  }

  lemma NoValue(kind: ColumnType, casts: Casts)
    ensures ToCell(Missing, kind, casts) == Some(Null)
  {
  }

  lemma NullStart(cells: seq<Cell>, bits: Bytes)
    requires forall i :: 0 <= i < |bits| ==> bits[i] == 0xFF
    ensures NullBits(cells, 0, |bits|) == bits
  {
  }

  lemma NullStep(cells: seq<Cell>, i: nat, bytes: nat)
    requires i < |cells| && i < 8 * bytes
    ensures var bits := NullBits(cells, i, bytes);
      NullBits(cells, i + 1, bytes) == if cells[i].Null? then bits[i / 8 := Clear(bits[i / 8], i % 8)] else bits
  {
  }

  lemma CellPresent(v: Value, kind: ColumnType, casts: Casts)
    requires ToCell(v, kind, casts).Some? && !v.Missing?
    ensures !ToCell(v, kind, casts).value.Null? && CellFits(ToCell(v, kind, casts).value, kind)
  {
    ToCellFits(v, kind, casts);
  }
}
