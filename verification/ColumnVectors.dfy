/** One column of a chunk in memory, and the byte form in which a text column is stored in a page. */
module ColumnVectors {
  import opened ByteCodec

  datatype ColumnType = NUMBER | VARCHAR | VARCHAR2 | DOUBLE

  predicate IsVarlen(t: ColumnType) { t.VARCHAR? || t.VARCHAR2? }

  function TypeSize(t: ColumnType): nat {
    match t
    case NUMBER => 4
    case DOUBLE => 8
    case _ => 0
  }

  /** A value of a table; a double is its 64-bit pattern. */
  datatype Cell = Null | Num(value: int) | Dbl(pattern: nat) | Str(text: Bytes)

  predicate CellFits(c: Cell, t: ColumnType) {
    match c
    case Null => true
    case Num(v) => t.NUMBER? && IsInt32(v)
    case Dbl(p) => t.DOUBLE? && p < TWO64
    case Str(_) => IsVarlen(t)
  }

  // ---- fixed-width values ----

  function CellBytes(c: Cell): Bytes {
    match c
    case Num(v) => Store(Pattern32(v), 4)
    case Dbl(p) => Store(p, 8)
    case _ => []
  }

  function CellOf(t: ColumnType, bs: Bytes): Cell {
    if t.NUMBER? then Num(Signed32(Load(bs))) else Dbl(Load(bs))
  }

  lemma CellRoundTrip(c: Cell, t: ColumnType)
    requires CellFits(c, t) && !c.Null? && !IsVarlen(t)
    ensures |CellBytes(c)| == TypeSize(t) && CellOf(t, CellBytes(c)) == c
  {
    match c
    case Num(v) => Signed32Pattern(v);
    case Dbl(p) =>
      Widths();
      LoadStore(p, 8);
  }

  // ---- texts of different lengths ----

  /** Offsets 0 = o0 <= o1 <= ... that cut a pool of the given size completely. */
  ghost predicate Cuts(offs: seq<int>, size: nat) {
    && |offs| > 0 && offs[0] == 0 && offs[|offs| - 1] == size
    && forall i, j :: 0 <= i <= j < |offs| ==> offs[i] <= offs[j]
  }

  lemma CutsAt(offs: seq<int>, size: nat, i: nat, j: nat)
    requires Cuts(offs, size) && i <= j < |offs|
    ensures 0 <= offs[i] <= offs[j] <= size
  {
  }

  ghost function Pieces(offs: seq<int>, pool: Bytes): (ss: seq<Bytes>)
    requires Cuts(offs, |pool|)
    ensures |ss| == |offs| - 1
  {
    seq(|offs| - 1, r requires 0 <= r < |offs| - 1 => pool[offs[r]..offs[r + 1]])
  }

  lemma PiecesSnoc(offs: seq<int>, pool: Bytes, s: Bytes)
    requires Cuts(offs, |pool|)
    ensures Cuts(offs + [|pool| + |s|], |pool + s|)
    ensures Pieces(offs + [|pool| + |s|], pool + s) == Pieces(offs, pool) + [s]
  {
    var more := offs + [|pool| + |s|];
    forall r | 0 <= r < |offs| - 1
      ensures (pool + s)[more[r]..more[r + 1]] == pool[offs[r]..offs[r + 1]]
    {
      assert offs[r] <= offs[r + 1] <= offs[|offs| - 1];
    }
    assert (pool + s)[|pool|..|pool| + |s|] == s;
    assert Pieces(more, pool + s)[|offs| - 1] == s;
  }

  /** The offsets of texts that lie one after the other. */
  ghost function OffsetsOf(ss: seq<Bytes>): (offs: seq<int>)
    ensures |offs| == |ss| + 1
  {
    seq(|ss| + 1, i requires 0 <= i <= |ss| => Start(ss, i))
  }

  lemma OffsetsSnoc(ss: seq<Bytes>, s: Bytes)
    ensures OffsetsOf(ss + [s]) == OffsetsOf(ss) + [|Flat(ss)| + |s|]
    ensures Flat(ss + [s]) == Flat(ss) + s
  {
    hide Flat;
    var more := ss + [s];
    assert more[..|ss|] == ss && more[..|ss| + 1] == more;
    StartStep(more, |ss|);
    forall i | 0 <= i <= |ss| ensures Start(more, i) == Start(ss, i) {
      assert more[..i] == ss[..i];
    }
    assert ss[..|ss|] == ss;
    assert OffsetsOf(more)[|ss| + 1] == |Flat(ss)| + |s|;
    var grown := OffsetsOf(ss) + [|Flat(ss)| + |s|];
    forall i | 0 <= i < |grown| ensures OffsetsOf(more)[i] == grown[i] {}
  }

  lemma {:induction false} PiecesOfFlat(ss: seq<Bytes>)
    ensures Cuts(OffsetsOf(ss), |Flat(ss)|)
    ensures Pieces(OffsetsOf(ss), Flat(ss)) == ss
  {
    if ss != [] {
      var n := |ss| - 1;
      PiecesOfFlat(ss[..n]);
      OffsetsSnoc(ss[..n], ss[n]);
      assert ss[..n] + [ss[n]] == ss;
      PiecesSnoc(OffsetsOf(ss[..n]), Flat(ss[..n]), ss[n]);
    } else {
      assert Flat(ss[..0]) == [];
    }
  }

  // ---- the vector ----

  /** The cells of a column: texts for a varlen type, fixed-width bytes otherwise, and one validity bit a row. */
  ghost function CellsOf(t: ColumnType, data: Bytes, texts: seq<Bytes>, bits: Bytes, n: nat): (cells: seq<Cell>)
    requires n <= 8 * |bits| && if IsVarlen(t) then n <= |texts| else n * TypeSize(t) <= |data|
    ensures |cells| == n
  {
    seq(n, r requires 0 <= r < n => CellAt(t, data, texts, bits, n, r))
  }

  ghost function CellAt(t: ColumnType, data: Bytes, texts: seq<Bytes>, bits: Bytes, n: nat, r: nat): Cell
    requires n <= 8 * |bits| && r < n && if IsVarlen(t) then n <= |texts| else n * TypeSize(t) <= |data|
  {
    if !BitAt(bits, r) then Null
    else if IsVarlen(t) then Str(texts[r])
    else CellOf(t, data[r * TypeSize(t)..r * TypeSize(t) + TypeSize(t)])
  }

  class Vector {
    const kind: ColumnType
    const capacity: nat
    const data: array<Byte>
    const offsets: array<int>
    const validity: array<Byte>
    var pool: Bytes
    var cursor: nat

    ghost predicate Valid()
      reads this, offsets
    {
      && data != validity && validity.Length == BitmapBytes(capacity)
      && (IsVarlen(kind) ==>
           offsets.Length == capacity + 1 && cursor <= capacity && Cuts(offsets[..cursor + 1], |pool|))
      && (!IsVarlen(kind) ==> data.Length == TypeSize(kind) * capacity)
    }

    ghost function Strings(): seq<Bytes>
      requires Valid() && IsVarlen(kind)
      reads this, offsets
    {
      Pieces(offsets[..cursor + 1], pool)
    }

    constructor (t: ColumnType, capacity: nat)
      ensures Valid() && kind == t && this.capacity == capacity
      ensures fresh(data) && fresh(offsets) && fresh(validity)
      ensures IsVarlen(t) ==> Strings() == [] && pool == [] && cursor == 0
      ensures forall r :: 0 <= r < capacity ==> BitAt(validity[..], r)
    {
      kind, this.capacity, pool, cursor := t, capacity, [], 0;
      data := new Byte[if IsVarlen(t) then 0 else TypeSize(t) * capacity](_ => 0);
      offsets := new int[if IsVarlen(t) then capacity + 1 else 0](_ => 0);
      validity := new Byte[BitmapBytes(capacity)](_ => 0xFF);
      new;
      forall r | 0 <= r < capacity ensures BitAt(validity[..], r) { AllSet(validity[..], r); }
    }

    method GetString(row: nat) returns (s: Bytes)
      requires Valid() && IsVarlen(kind) && row < cursor
      ensures s == Strings()[row] && |s| == offsets[row + 1] - offsets[row]
    {
      var begin, end := offsets[row], offsets[row + 1];
      assert offsets[..cursor + 1][row] <= offsets[..cursor + 1][row + 1] <= offsets[..cursor + 1][cursor];
      s := pool[begin..end];
    }

    /** The pool stays below 2^31 bytes, since offsets are 32-bit integers. */
    method AppendString(s: Bytes) returns (row: nat)
      requires Valid() && IsVarlen(kind) && cursor < capacity && |pool| + |s| < TWO31
      modifies this, offsets
      ensures Valid() && row == old(cursor) && Strings() == old(Strings()) + [s]
      ensures cursor == row + 1 && |pool| == old(|pool|) + |s|
    {
      row := cursor;
      ghost var before, was := offsets[..cursor + 1], pool;
      PiecesSnoc(before, pool, s);
      pool := pool + s;
      Signed32Pattern(|pool|);
      offsets[row + 1] := Signed32(Pattern32(|pool|));
      cursor := row + 1;
      assert offsets[..cursor + 1] == before + [|was| + |s|];
    }

    /** Takes over the offsets and the data of a stored column. */
    method SetVarColumn(offs: seq<int>, bytes: Bytes)
      requires Valid() && IsVarlen(kind) && |offs| <= capacity + 1 && Cuts(offs, |bytes|)
      modifies this, offsets
      ensures Valid() && Strings() == Pieces(offs, bytes)
    {
      for i := 0 to |offs|
        invariant offsets[..i] == offs[..i]
      {
        offsets[i] := offs[i];
      }
      pool, cursor := bytes, |offs| - 1;
      assert offsets[..cursor + 1] == offs;
    }

    /** Row r as an operator reads it: validity bit, then the value. */
    method GetCell(r: nat) returns (cell: Cell)
      requires Valid() && r < capacity && (IsVarlen(kind) ==> r < cursor)
      ensures IsVarlen(kind) ==> cell == CellAt(kind, data[..], Strings(), validity[..], r + 1, r)
      ensures !IsVarlen(kind) ==> (r + 1) * TypeSize(kind) <= data.Length
      ensures !IsVarlen(kind) ==> cell == CellAt(kind, data[..], [], validity[..], r + 1, r)
    {
      var w := TypeSize(kind);
      assert w * capacity == w * (capacity - r - 1) + w * (r + 1) && w * (r + 1) == r * w + w;
      if !BitAt(validity[..], r) {
        cell := Null;
      } else if IsVarlen(kind) {
        var s := GetString(r);
        cell := Str(s);
      } else {
        assert data[r * w..r * w + w] == data[..][r * w..r * w + w];
        cell := CellOf(kind, data[r * w..r * w + w]);
      }
    }
  }
}
