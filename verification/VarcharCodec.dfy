/** Text columns as self-describing bytes: row count, offsets, texts. */
module VarcharCodec {
  import opened ByteCodec
  import opened ColumnVectors

  /** An `int32_t` array as bytes. */
  function Words(offs: seq<int>): (ws: seq<Bytes>)
    ensures |ws| == |offs| && forall i :: 0 <= i < |ws| ==> |ws[i]| == 4
  {
    seq(|offs|, i requires 0 <= i < |offs| => Store(Pattern32(offs[i]), 4))
  }

  ghost function Encode(ss: seq<Bytes>): Bytes {
    Store(|ss|, 4) + Flat(Words(OffsetsOf(ss))) + Flat(ss)
  }

  lemma EncodedLength(ss: seq<Bytes>)
    ensures |Encode(ss)| == 4 * |ss| + 8 + |Flat(ss)|
  {
    FlatUniform(Words(OffsetsOf(ss)), 4);
  }

  // ---- reading ----

  function RowsIn(raw: Bytes): nat
    requires |raw| >= 4
  {
    Load(raw[..4])
  }

  function OffsetAt(raw: Bytes, i: nat): int
    requires 4 * i + 8 <= |raw|
  {
    Signed32(Load(raw[4 * i + 4..4 * i + 8]))
  }

  function OffsetsIn(raw: Bytes): (offs: seq<int>)
    requires |raw| >= 4 && |raw| >= 4 * RowsIn(raw) + 8
    ensures |offs| == RowsIn(raw) + 1
  {
    seq(RowsIn(raw) + 1, i requires 0 <= i <= RowsIn(raw) => OffsetAt(raw, i))
  }

  /** The buffer has room for its offsets and for as many bytes of text as the last offset says. */
  predicate Complete(raw: Bytes) {
    && |raw| >= 4 && |raw| >= 4 * RowsIn(raw) + 8
    && |raw| >= 4 * RowsIn(raw) + 8 + OffsetAt(raw, RowsIn(raw))
  }

  /** What the reader takes for granted: offsets that start at 0 and do not decrease. */
  ghost predicate Shaped(raw: Bytes) {
    |raw| >= 4 && |raw| >= 4 * RowsIn(raw) + 8 ==>
      && OffsetAt(raw, 0) == 0
      && forall i, j :: 0 <= i <= j <= RowsIn(raw) ==> OffsetAt(raw, i) <= OffsetAt(raw, j)
  }

  ghost function Decode(raw: Bytes): seq<Bytes>
    requires Complete(raw) && Shaped(raw)
  {
    var n := RowsIn(raw);
    var texts := raw[4 * n + 8..4 * n + 8 + OffsetAt(raw, n)];
    assert Cuts(OffsetsIn(raw), |texts|) by { DecodeCuts(raw); }
    Pieces(OffsetsIn(raw), texts)
  }

  lemma DecodeCuts(raw: Bytes)
    requires Complete(raw) && Shaped(raw)
    ensures OffsetAt(raw, RowsIn(raw)) >= 0 && Cuts(OffsetsIn(raw), OffsetAt(raw, RowsIn(raw)))
  {
    assert OffsetAt(raw, 0) <= OffsetAt(raw, RowsIn(raw));
  }

  /** The three parts of an encoded column are where the reader looks for them. */
  lemma EncodedParts(ss: seq<Bytes>)
    requires |ss| < TWO31 && |Flat(ss)| < TWO31
    ensures var raw := Encode(ss);
      && |raw| == 4 * |ss| + 8 + |Flat(ss)| && RowsIn(raw) == |ss|
      && raw[4 * |ss| + 8..] == Flat(ss)
      && forall i :: 0 <= i <= |ss| ==> OffsetAt(raw, i) == Start(ss, i)
  {
    hide Store, Load, Flat, Pow256, Signed32, Pattern32;
    var ws, raw := Words(OffsetsOf(ss)), Encode(ss);
    FlatUniform(ws, 4);
    Widths();
    LoadStore(|ss|, 4);
    assert raw[..4] == Store(|ss|, 4);
    forall i | 0 <= i <= |ss| ensures OffsetAt(raw, i) == Start(ss, i) {
      FlatPart(ws, i);
      StartUniform(ws, 4, i);
      assert raw[4 * i + 4..4 * i + 8] == Flat(ws)[4 * i..4 * i + 4] == ws[i];
      StartMono(ss, i, |ss|);
      Signed32Pattern(Start(ss, i));
    }
  }

  /** The format: the number of texts, the position of each text and of the end, each as a little-endian word, and the
      texts one behind the other. */
  lemma TextLayout(ss: seq<Bytes>, i: nat)
    requires |ss| < TWO31 && |Flat(ss)| < TWO31 && i < |ss|
    ensures var raw, n := Encode(ss), |ss|;
      && |raw| == 4 * n + 8 + |Flat(ss)| && Word(raw, 0) == n
      && Word(raw, 4 + 4 * i) == |Flat(ss[..i])| && Word(raw, 8 + 4 * i) == |Flat(ss[..i])| + |ss[i]|
      && 4 * n + 8 + Word(raw, 8 + 4 * i) <= |raw|
      && raw[4 * n + 8 + Word(raw, 4 + 4 * i)..4 * n + 8 + Word(raw, 8 + 4 * i)] == ss[i]
  {
    hide Encode, Store, Load, Flat, Word;
    var raw, n := Encode(ss), |ss|;
    EncodedParts(ss);
    LoadWord(raw[..4]);
    WordAt(raw, i);
    WordAt(raw, i + 1);
    StartStep(ss, i);
    FlatPart(ss, i);
    WordPart(raw, 0);
    TailPart(raw, 4 * n + 8, Start(ss, i), Start(ss, i + 1));
  }

  lemma TailPart(raw: Bytes, off: nat, i: nat, j: nat)
    requires off + j <= |raw| && i <= j
    ensures raw[off..][i..j] == raw[off + i..off + j]
  {
  }

  lemma WordPart(raw: Bytes, off: nat)
    requires off + 4 <= |raw|
    ensures Word(raw[off..off + 4], 0) == Word(raw, off)
  {
  }

  lemma WordAt(raw: Bytes, i: nat)
    requires 4 * i + 8 <= |raw| && OffsetAt(raw, i) >= 0
    ensures Word(raw, 4 + 4 * i) == OffsetAt(raw, i)
  {
    hide Load, Word;
    LoadWord(raw[4 * i + 4..4 * i + 8]);
    WordPart(raw, 4 * i + 4);
    WordBelow(raw, 4 * i + 4);
  }

  lemma WordBelow(raw: Bytes, off: nat)
    requires off + 4 <= |raw|
    ensures Word(raw, off) < TWO32
  {
  }

  /** Reading back what was written gives the texts, for every column below 2^31 bytes. */
  lemma DecodeEncode(ss: seq<Bytes>)
    requires |ss| < TWO31 && |Flat(ss)| < TWO31
    ensures Complete(Encode(ss)) && Shaped(Encode(ss)) && Decode(Encode(ss)) == ss
  {
    hide Encode, Load, Flat, Signed32, OffsetAt;
    var raw := Encode(ss);
    EncodedParts(ss);
    assert ss[..|ss|] == ss;
    forall i, j | 0 <= i <= j <= |ss| ensures OffsetAt(raw, i) <= OffsetAt(raw, j) {
      StartMono(ss, i, j);
    }
    PiecesOfFlat(ss);
    assert OffsetsIn(raw) == OffsetsOf(ss);
    assert raw[4 * |ss| + 8..4 * |ss| + 8 + |Flat(ss)|] == Flat(ss);
  }

  // ---- the loops of the program ----

  /** The offsets of a slice, counted from its own start. */
  method LocalOffsets(vec: Vector, rowStart: nat, cnt: nat) returns (local: array<int>)
    requires vec.Valid() && IsVarlen(vec.kind) && rowStart + cnt <= vec.cursor && |vec.pool| < TWO31
    ensures fresh(local) && local[..] == OffsetsOf(vec.Strings()[rowStart..rowStart + cnt])
  {
    hide Flat, Signed32, Pattern32, OffsetsOf, Pieces, Cuts, Start;
    ghost var ss, offs := vec.Strings()[rowStart..rowStart + cnt], vec.offsets[..vec.cursor + 1];
    local := new int[cnt + 1](_ => 0);
    NoOffsets(ss);
    for i := 0 to cnt
      invariant vec.Valid() && local[..i + 1] == OffsetsOf(ss[..i])
      invariant local[i] == |Flat(ss[..i])| == offs[rowStart + i] - offs[rowStart]
    {
      var s := vec.GetString(rowStart + i);
      assert s == ss[i] && ss[..i + 1] == ss[..i] + [s];
      OffsetsSnoc(ss[..i], s);
      CutsAt(offs, |vec.pool|, 0, rowStart);
      CutsAt(offs, |vec.pool|, rowStart, rowStart + i + 1);
      Signed32Pattern(local[i] + |s|);
      ghost var before := local[..i + 1];
      local[i + 1] := Signed32(Pattern32(local[i] + |s|));
      assert local[..i + 2] == before + [local[i] + |s|];
    }
    assert ss[..cnt] == ss && local[..] == local[..cnt + 1];
  }

  method SerializeVarlenColumn(vec: Vector, rowStart: nat, cnt: nat) returns (raw: Bytes)
    requires vec.Valid() && IsVarlen(vec.kind) && rowStart + cnt <= vec.cursor
    requires cnt < TWO31 && |vec.pool| < TWO31
    ensures raw == Encode(vec.Strings()[rowStart..rowStart + cnt])
  {
    hide Store, Load, Flat, Signed32, Pattern32, OffsetsOf, Words, Pieces, Cuts;
    ghost var ss := vec.Strings()[rowStart..rowStart + cnt];
    var local := LocalOffsets(vec, rowStart, cnt);
    LastOffset(ss);
    var words := Flat(Words(local[..]));
    WordsLength(local[..]);
    var out := new Byte[4 + 4 * (cnt + 1) + local[cnt]](_ => 0);
    CopyInto(out, 0, Store(cnt, 4));
    CopyInto(out, 4, words);
    CopyTexts(vec, rowStart, cnt, out, 4 + 4 * (cnt + 1));
    raw := out[..];
  }

  lemma WordsLength(offs: seq<int>)
    ensures |Flat(Words(offs))| == 4 * |offs|
  {
    FlatUniform(Words(offs), 4);
  }

  /** The texts of the rows one after the other, up to the end of the buffer. */
  method CopyTexts(vec: Vector, rowStart: nat, cnt: nat, out: array<Byte>, at: nat)
    requires vec.Valid() && IsVarlen(vec.kind) && rowStart + cnt <= vec.cursor
    requires out != vec.data && out != vec.validity
    requires at + |Flat(vec.Strings()[rowStart..rowStart + cnt])| == out.Length
    modifies out
    ensures out[..] == old(out[..at]) + Flat(vec.Strings()[rowStart..rowStart + cnt])
  {
    hide Flat, Pieces, Cuts;
    ghost var ss, top := vec.Strings()[rowStart..rowStart + cnt], out[..at];
    var cursor := at;
    StartZero(ss);
    assert ss[..cnt] == ss;
    for i := 0 to cnt
      invariant vec.Valid() && cursor == at + |Flat(ss[..i])| <= out.Length
      invariant out[..cursor] == top + Flat(ss[..i])
    {
      var s := vec.GetString(rowStart + i);
      StartStep(ss, i);
      StartMono(ss, i + 1, cnt);
      if s != [] {
        CopyInto(out, cursor, s);
        cursor := cursor + |s|;
      }
    }
  }

  lemma NoOffsets(ss: seq<Bytes>)
    ensures OffsetsOf(ss[..0]) == [0] && Flat(ss[..0]) == []
  {
    StartZero(ss[..0]);
  }

  lemma LastOffset(ss: seq<Bytes>)
    ensures OffsetsOf(ss)[|ss|] == |Flat(ss)|
  {
    assert ss[..|ss|] == ss;
  }

  method ReadOffsets(raw: Bytes) returns (offsets: seq<int>)
    requires |raw| >= 4 && |raw| >= 4 * RowsIn(raw) + 8
    ensures offsets == OffsetsIn(raw)
  {
    hide Load, Signed32;
    var n := Load(raw[..4]);
    offsets := [];
    for i := 0 to n + 1
      invariant offsets == OffsetsIn(raw)[..i]
    {
      offsets := offsets + [Signed32(Load(raw[4 + 4 * i..4 + 4 * i + 4]))];
    }
  }

  /** Fails exactly on buffers that are too short; `out` has room for the rows. */
  method DeserializeVarlenColumn(raw: Bytes, out: Vector) returns (ok: bool)
    requires out.Valid() && IsVarlen(out.kind) && Shaped(raw)
    requires |raw| >= 4 ==> RowsIn(raw) <= out.capacity
    modifies out, out.offsets
    ensures out.Valid() && ok == Complete(raw)
    ensures ok ==> out.Strings() == Decode(raw)
    ensures !ok ==> out.Strings() == old(out.Strings())
  {
    hide Load, Signed32, OffsetAt, Pieces, Cuts;
    if |raw| < 4 { return false; }
    var n := Load(raw[..4]);
    var offBytes := (n + 1) * 4;
    if |raw| < 4 + offBytes { return false; }
    var offsets := ReadOffsets(raw);
    var cursor := 4 + offBytes;
    assert OffsetAt(raw, 0) <= OffsetAt(raw, n);
    var dataLen := offsets[n];
    if |raw| < cursor + dataLen { return false; }
    DecodeCuts(raw);
    out.SetVarColumn(offsets, raw[cursor..cursor + dataLen]);
    ok := true;
  }
}
