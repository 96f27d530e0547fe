/** Data pages of tables: header, column directory, compressed columns, null bitmaps. */
module TablePages {
  import opened Common
  import opened ByteCodec

  const PAGE_MAGIC_NUM: nat := 0x3f
  const DATA_PAGE: nat := 1
  const HEADER_SIZE: nat := 64
  const HEADER_FIELDS: nat := 60
  const DIR_ENTRY_SIZE: nat := 16

  type Word32 = x: int | 0 <= x < TWO32

  /** The compression library and the checksum, which are not part of this model. */
  datatype Codec = Codec(compress: Bytes -> Bytes, decompress: (Bytes, nat) -> Option<Bytes>, checksum: Bytes -> Word32)

  /** What is assumed of the library: it gives back what was compressed, and its output is not much longer
      than its input. */
  ghost predicate Lossless(z: Codec) {
    forall raw :: z.decompress(z.compress(raw), |raw|) == Some(raw) && |z.compress(raw)| <= 2 * |raw| + 64
  }

  datatype CompressionType = NONE | ZSTD

  function Code(kind: CompressionType): nat { if kind.NONE? then 0 else 1 }

  function Compress(z: Codec, kind: CompressionType, raw: Bytes): Bytes {
    if kind.NONE? then raw else z.compress(raw)
  }

  /** None stands for the exceptions: an unknown codec, a failing library, a wrong size. */
  function Decompress(z: Codec, code: nat, bs: Bytes, rawSize: nat): Option<Bytes> {
    if code == 0 then Some(bs)
    else if code == 1 then
      var out := z.decompress(bs, rawSize);
      if out.Some? && |out.value| == rawSize then out else None
    else None
  }

  // ---- header ----

  datatype Header = Header(magic: nat, version: nat, pageType: nat, compression: nat, pageId: nat, numRows: nat,
    numColumns: nat, colDirOffset: nat, dataOffset: nat, nullBitmapOffset: nat, minRowId: nat, maxRowId: nat,
    createTs: nat, checksum: nat)

  predicate HeaderFits(h: Header) {
    && h.magic < TWO32 && h.version < 0x1_0000 && h.pageType < 0x100 && h.compression < 0x100 && h.pageId < TWO64
    && h.numRows < TWO32 && h.numColumns < 0x1_0000 && h.colDirOffset < 0x1_0000 && h.dataOffset < TWO32
    && h.nullBitmapOffset < TWO32 && h.minRowId < TWO64 && h.maxRowId < TWO64
    && h.createTs < TWO64 && h.checksum < TWO32
  }

  function HeaderParts(h: Header): (parts: seq<Bytes>)
    ensures |parts| == 14
  {
    [Store(h.magic, 4), Store(h.version, 2), Store(h.pageType, 1), Store(h.compression, 1), Store(h.pageId, 8),
     Store(h.numRows, 4), Store(h.numColumns, 2), Store(h.colDirOffset, 2), Store(h.dataOffset, 4),
     Store(h.nullBitmapOffset, 4), Store(h.minRowId, 8), Store(h.maxRowId, 8), Store(h.createTs, 8),
     Store(h.checksum, 4)]
  }

  function LoadAt(bs: Bytes, off: nat, w: nat): nat
    requires off + w <= |bs|
  {
    Load(bs[off..off + w])
  }

  function ParseHeader(bs: Bytes): Header
    requires |bs| >= HEADER_FIELDS
  {
    Header(LoadAt(bs, 0, 4), LoadAt(bs, 4, 2), LoadAt(bs, 6, 1), LoadAt(bs, 7, 1), LoadAt(bs, 8, 8), LoadAt(bs, 16, 4),
      LoadAt(bs, 20, 2), LoadAt(bs, 22, 2), LoadAt(bs, 24, 4), LoadAt(bs, 28, 4), LoadAt(bs, 32, 8), LoadAt(bs, 40, 8),
      LoadAt(bs, 48, 8), LoadAt(bs, 56, 4))
  }

  lemma HeaderStarts(h: Header)
    ensures var p := HeaderParts(h);
      && Start(p, 0) == 0 && Start(p, 1) == 4 && Start(p, 2) == 6 && Start(p, 3) == 7 && Start(p, 4) == 8
      && Start(p, 5) == 16 && Start(p, 6) == 20 && Start(p, 7) == 22 && Start(p, 8) == 24 && Start(p, 9) == 28
      && Start(p, 10) == 32 && Start(p, 11) == 40 && Start(p, 12) == 48 && Start(p, 13) == 56 && |Flat(p)| == 60
  {
    hide Store, Flat;
    var p := HeaderParts(h);
    StartZero(p);
    for i := 0 to 14
      invariant forall k :: 0 <= k < i ==> Start(p, k + 1) == Start(p, k) + |p[k]|
    {
      StartStep(p, i);
    }
    assert Start(p, 1) == 4 && Start(p, 2) == 6 && Start(p, 3) == 7 && Start(p, 4) == 8 && Start(p, 5) == 16;
    assert Start(p, 6) == 20 && Start(p, 7) == 22 && Start(p, 8) == 24 && Start(p, 9) == 28 && Start(p, 10) == 32;
    assert Start(p, 11) == 40 && Start(p, 12) == 48 && Start(p, 13) == 56 && Start(p, 14) == 60;
    assert p[..14] == p;
  }

  lemma SliceInside(bs: Bytes, n: nat, off: nat, w: nat)
    requires off + w <= n <= |bs|
    ensures bs[..n][off..off + w] == bs[off..off + w]
  {
    var a, b := bs[..n][off..off + w], bs[off..off + w];
    forall i | 0 <= i < w ensures a[i] == b[i] {
      assert a[i] == bs[..n][off + i] == bs[off + i];
    }
  }

  lemma LoadPart(parts: seq<Bytes>, bs: Bytes, i: nat, off: nat, v: nat, w: nat)
    requires i < |parts| && Start(parts, i) == off && parts[i] == Store(v, w) && v < Pow256(w)
    requires |bs| >= |Flat(parts)| && bs[..|Flat(parts)|] == Flat(parts)
    ensures off + w <= |bs| && LoadAt(bs, off, w) == v
  {
    hide Store, Load, Flat, Pow256;
    FlatPart(parts, i);
    LoadStore(v, w);
    SliceInside(bs, |Flat(parts)|, off, w);
  }

  /** A header is read back as it was written. */
  lemma HeaderRoundTrip(h: Header, bs: Bytes)
    requires HeaderFits(h) && |bs| >= HEADER_FIELDS && bs[..HEADER_FIELDS] == Flat(HeaderParts(h))
    ensures ParseHeader(bs) == h
  {
    hide Store, Load, Flat, Start, LoadAt, Pow256;
    var p := HeaderParts(h);
    HeaderStarts(h);
    Widths();
    LoadPart(p, bs, 0, 0, h.magic, 4);
    LoadPart(p, bs, 1, 4, h.version, 2);
    LoadPart(p, bs, 2, 6, h.pageType, 1);
    LoadPart(p, bs, 3, 7, h.compression, 1);
    LoadPart(p, bs, 4, 8, h.pageId, 8);
    LoadPart(p, bs, 5, 16, h.numRows, 4);
    LoadPart(p, bs, 6, 20, h.numColumns, 2);
    LoadPart(p, bs, 7, 22, h.colDirOffset, 2);
    LoadPart(p, bs, 8, 24, h.dataOffset, 4);
    LoadPart(p, bs, 9, 28, h.nullBitmapOffset, 4);
    LoadPart(p, bs, 10, 32, h.minRowId, 8);
    LoadPart(p, bs, 11, 40, h.maxRowId, 8);
    LoadPart(p, bs, 12, 48, h.createTs, 8);
    LoadPart(p, bs, 13, 56, h.checksum, 4);
  }

  // ---- column directory ----

  lemma SliceSlice(bs: Bytes, lo: nat, hi: nat, i: nat, j: nat)
    requires lo <= hi <= |bs| && i <= j <= hi - lo
    ensures bs[lo..hi][i..j] == bs[lo + i..lo + j]
  {
    var a, b := bs[lo..hi][i..j], bs[lo + i..lo + j];
    assert |a| == |b| && forall k :: 0 <= k < |a| ==> a[k] == b[k];
  }

  lemma LoadWithin(bs: Bytes, lo: nat, hi: nat, i: nat)
    requires lo <= hi <= |bs| && i + 4 <= hi - lo
    ensures LoadAt(bs, lo + i, 4) == LoadAt(bs[lo..hi], i, 4)
  {
    SliceSlice(bs, lo, hi, i, i + 4);
  }

  datatype DirEntry = DirEntry(colId: int, dataOffset: nat, compressedSize: nat, rawSize: nat)

  predicate EntryFits(e: DirEntry) {
    IsInt32(e.colId) && e.dataOffset < TWO32 && e.compressedSize < TWO32 && e.rawSize < TWO32
  }

  function EntryParts(e: DirEntry): seq<Bytes> {
    [Store(Pattern32(e.colId), 4), Store(e.dataOffset, 4), Store(e.compressedSize, 4), Store(e.rawSize, 4)]
  }

  function EntryAt(bs: Bytes, off: nat): DirEntry
    requires off + DIR_ENTRY_SIZE <= |bs|
  {
    DirEntry(Signed32(LoadAt(bs, off, 4)), LoadAt(bs, off + 4, 4), LoadAt(bs, off + 8, 4), LoadAt(bs, off + 12, 4))
  }

  lemma EntryLength(e: DirEntry)
    ensures |Flat(EntryParts(e))| == DIR_ENTRY_SIZE
    ensures forall i :: 0 <= i <= 4 ==> Start(EntryParts(e), i) == 4 * i
  {
    var p := EntryParts(e);
    FlatUniform(p, 4);
    forall i | 0 <= i <= 4 ensures Start(p, i) == 4 * i { StartUniform(p, 4, i); }
  }

  lemma EntryRoundTrip(e: DirEntry, bs: Bytes, off: nat)
    requires EntryFits(e) && off + DIR_ENTRY_SIZE <= |bs| && bs[off..off + DIR_ENTRY_SIZE] == Flat(EntryParts(e))
    ensures EntryAt(bs, off) == e
  {
    hide Store, Load, Flat, Start, LoadAt, Pow256, Pattern32, Signed32;
    var p, cut := EntryParts(e), bs[off..off + DIR_ENTRY_SIZE];
    EntryLength(e);
    Widths();
    Signed32Pattern(e.colId);
    LoadPart(p, cut, 0, 0, Pattern32(e.colId), 4);
    LoadPart(p, cut, 1, 4, e.dataOffset, 4);
    LoadPart(p, cut, 2, 8, e.compressedSize, 4);
    LoadPart(p, cut, 3, 12, e.rawSize, 4);
    forall i | 0 <= i < 4 ensures LoadAt(bs, off + 4 * i, 4) == LoadAt(cut, 4 * i, 4) {
      LoadWithin(bs, off, off + DIR_ENTRY_SIZE, 4 * i);
    }
  }

  // ---- the whole page ----

  /** A column to be written; without a validity bitmap every row is valid. */
  datatype ColumnInput = ColumnInput(colId: int, data: Bytes, validity: Option<Bytes>)

  predicate InputsFit(cols: seq<ColumnInput>, numRows: nat) {
    && |cols| < 0x1_0000 && numRows < TWO32
    && forall i :: 0 <= i < |cols| ==>
         && IsInt32(cols[i].colId) && |cols[i].data| < TWO32
         && (cols[i].validity.Some? ==> |cols[i].validity.value| == BitmapBytes(numRows))
  }

  function Compressed(z: Codec, kind: CompressionType, cols: seq<ColumnInput>): (parts: seq<Bytes>)
    ensures |parts| == |cols|
  {
    seq(|cols|, i requires 0 <= i < |cols| => Compress(z, kind, cols[i].data))
  }

  function Bitmap(col: ColumnInput, numRows: nat): Bytes {
    if col.validity.Some? then col.validity.value else seq(BitmapBytes(numRows), _ => 0xFF)
  }

  function Bitmaps(cols: seq<ColumnInput>, numRows: nat): (parts: seq<Bytes>)
    ensures |parts| == |cols|
  {
    seq(|cols|, i requires 0 <= i < |cols| => Bitmap(cols[i], numRows))
  }

  function DataStart(n: nat): nat { HEADER_SIZE + DIR_ENTRY_SIZE * n }

  function Entry(col: ColumnInput, parts: seq<Bytes>, i: nat): DirEntry
    requires i < |parts|
  {
    DirEntry(col.colId, DataStart(|parts|) + Start(parts, i), |parts[i]|, |col.data|)
  }

  function Directory(cols: seq<ColumnInput>, parts: seq<Bytes>): (dir: seq<DirEntry>)
    requires |cols| == |parts|
    ensures |dir| == |cols|
  {
    seq(|cols|, i requires 0 <= i < |cols| => Entry(cols[i], parts, i))
  }

  function DirBytes(dir: seq<DirEntry>): (parts: seq<Bytes>)
    ensures |parts| == |dir|
  {
    seq(|dir|, i requires 0 <= i < |dir| => Flat(EntryParts(dir[i])))
  }

  function BitmapArea(numRows: nat, columns: nat): nat { BitmapBytes(numRows) * columns }

  /** Where a page holding the columns would end. */
  function EndOf(z: Codec, kind: CompressionType, cols: seq<ColumnInput>, numRows: nat): nat {
    DataStart(|cols|) + |Flat(Compressed(z, kind, cols))| + BitmapArea(numRows, |cols|)
  }

  function HeaderOf(z: Codec, kind: CompressionType, cols: seq<ColumnInput>, numRows: nat, pageNo: nat, baseRowId: nat,
    createTs: nat, checksum: nat): Header
  {
    Header(PAGE_MAGIC_NUM, 2, DATA_PAGE, Code(kind), pageNo, numRows, |cols|, HEADER_SIZE, DataStart(|cols|),
      DataStart(|cols|) + |Flat(Compressed(z, kind, cols))|, baseRowId,
      if numRows == 0 then baseRowId else (baseRowId + numRows - 1) % TWO64, createTs, checksum)
  }

  function Body(z: Codec, kind: CompressionType, cols: seq<ColumnInput>, numRows: nat): Bytes {
    var parts := Compressed(z, kind, cols);
    Flat(DirBytes(Directory(cols, parts))) + Flat(parts) + Flat(Bitmaps(cols, numRows))
  }

  predicate IsData(h: Header) { h.magic == PAGE_MAGIC_NUM && h.pageType == DATA_PAGE }

  /** The page holds exactly these columns. */
  ghost predicate Written(bs: Bytes, z: Codec, kind: CompressionType, cols: seq<ColumnInput>, numRows: nat) {
    && |bs| == PAGE_SIZE && InputsFit(cols, numRows) && EndOf(z, kind, cols, numRows) <= PAGE_SIZE
    && bs[HEADER_SIZE..EndOf(z, kind, cols, numRows)] == Body(z, kind, cols, numRows)
    && var h := ParseHeader(bs);
      h == HeaderOf(z, kind, cols, numRows, h.pageId, h.minRowId, h.createTs, h.checksum)
  }

  lemma BodyLength(z: Codec, kind: CompressionType, cols: seq<ColumnInput>, numRows: nat)
    requires InputsFit(cols, numRows)
    ensures var parts := Compressed(z, kind, cols);
      && |Flat(DirBytes(Directory(cols, parts)))| == DIR_ENTRY_SIZE * |cols|
      && |Flat(Bitmaps(cols, numRows))| == BitmapArea(numRows, |cols|)
      && |Body(z, kind, cols, numRows)| == EndOf(z, kind, cols, numRows) - HEADER_SIZE
  {
    hide Flat, Start, EntryParts;
    var dir := Directory(cols, Compressed(z, kind, cols));
    forall i | 0 <= i < |dir| ensures |DirBytes(dir)[i]| == DIR_ENTRY_SIZE { EntryLength(dir[i]); }
    FlatUniform(DirBytes(dir), DIR_ENTRY_SIZE);
    FlatUniform(Bitmaps(cols, numRows), BitmapBytes(numRows));
  }

  function DirectoryIn(bs: Bytes, h: Header): seq<DirEntry>
    requires h.colDirOffset + DIR_ENTRY_SIZE * h.numColumns <= |bs|
  {
    seq(h.numColumns, i requires 0 <= i < h.numColumns => EntryAt(bs, h.colDirOffset + DIR_ENTRY_SIZE * i))
  }

  function RawIn(bs: Bytes, z: Codec, h: Header, e: DirEntry): Option<Bytes>
    requires e.dataOffset + e.compressedSize <= |bs|
  {
    Decompress(z, h.compression, bs[e.dataOffset..e.dataOffset + e.compressedSize], e.rawSize)
  }

  function ValidityIn(bs: Bytes, h: Header, i: nat): Bytes
    requires h.nullBitmapOffset + (i + 1) * BitmapBytes(h.numRows) <= |bs|
  {
    var src := h.nullBitmapOffset + i * BitmapBytes(h.numRows);
    bs[src..src + BitmapBytes(h.numRows)]
  }

  function ChecksumOk(bs: Bytes, z: Codec, h: Header): bool
    requires HEADER_SIZE <= h.nullBitmapOffset + BitmapArea(h.numRows, h.numColumns) <= |bs|
  {
    || h.checksum == 0
    || z.checksum(bs[HEADER_SIZE..h.nullBitmapOffset + BitmapArea(h.numRows, h.numColumns)]) == h.checksum
  }

  ghost predicate ChecksumHolds(bs: Bytes, z: Codec, h: Header) {
    HEADER_SIZE <= h.nullBitmapOffset + BitmapArea(h.numRows, h.numColumns) <= |bs| && ChecksumOk(bs, z, h)
  }

  // ---- reading a written page ----

  lemma Regions(bs: Bytes, lo: nat, a: Bytes, b: Bytes, c: Bytes)
    requires lo + |a| + |b| + |c| <= |bs| && bs[lo..lo + |a| + |b| + |c|] == a + b + c
    ensures bs[lo..lo + |a|] == a && bs[lo + |a|..lo + |a| + |b|] == b
    ensures bs[lo + |a| + |b|..lo + |a| + |b| + |c|] == c
  {
    var hi, body := lo + |a| + |b| + |c|, a + b + c;
    SliceSlice(bs, lo, hi, 0, |a|);
    SliceSlice(bs, lo, hi, |a|, |a| + |b|);
    SliceSlice(bs, lo, hi, |a| + |b|, |body|);
    assert body[..|a|] == a && body[|a|..|a| + |b|] == b && body[|a| + |b|..] == c;
  }

  /** A block of a region of the page. */
  lemma PartIn(bs: Bytes, lo: nat, parts: seq<Bytes>, i: nat)
    requires i < |parts| && lo + |Flat(parts)| <= |bs| && bs[lo..lo + |Flat(parts)|] == Flat(parts)
    ensures var from := lo + Start(parts, i);
      from + |parts[i]| <= lo + |Flat(parts)| && bs[from..from + |parts[i]|] == parts[i]
  {
    FlatPart(parts, i);
    SliceSlice(bs, lo, lo + |Flat(parts)|, Start(parts, i), Start(parts, i) + |parts[i]|);
  }

  lemma WrittenRegions(bs: Bytes, z: Codec, kind: CompressionType, cols: seq<ColumnInput>, numRows: nat)
    requires Written(bs, z, kind, cols, numRows)
    ensures var parts := Compressed(z, kind, cols);
      var dir, bits := DirBytes(Directory(cols, parts)), Bitmaps(cols, numRows);
      var data, nulls := DataStart(|cols|), DataStart(|cols|) + |Flat(parts)|;
      && HEADER_SIZE + |Flat(dir)| == data && nulls + |Flat(bits)| <= |bs|
      && bs[HEADER_SIZE..data] == Flat(dir) && bs[data..nulls] == Flat(parts)
      && bs[nulls..nulls + |Flat(bits)|] == Flat(bits)
  {
    hide Flat, Start, ParseHeader, HeaderOf, InputsFit;
    var parts := Compressed(z, kind, cols);
    BodyLength(z, kind, cols, numRows);
    Regions(bs, HEADER_SIZE, Flat(DirBytes(Directory(cols, parts))), Flat(parts), Flat(Bitmaps(cols, numRows)));
  }

  /** Opening a written page finds the directory that was written. */
  lemma DirectoryReadBack(bs: Bytes, z: Codec, kind: CompressionType, cols: seq<ColumnInput>, numRows: nat)
    requires Written(bs, z, kind, cols, numRows)
    ensures var h, parts := ParseHeader(bs), Compressed(z, kind, cols);
      && h.colDirOffset + DIR_ENTRY_SIZE * h.numColumns <= |bs|
      && DirectoryIn(bs, h) == Directory(cols, parts)
  {
    hide Flat, Start, ParseHeader, EntryParts, Compressed;
    var parts := Compressed(z, kind, cols);
    var dir := Directory(cols, parts);
    WrittenRegions(bs, z, kind, cols, numRows);
    forall i | 0 <= i < |dir| ensures EntryAt(bs, HEADER_SIZE + DIR_ENTRY_SIZE * i) == dir[i] {
      FlatPart(parts, i);
      EntryReadBack(bs, dir, i);
    }
  }

  lemma EntryReadBack(bs: Bytes, dir: seq<DirEntry>, i: nat)
    requires i < |dir| && HEADER_SIZE + DIR_ENTRY_SIZE * |dir| <= |bs| && EntryFits(dir[i])
    requires bs[HEADER_SIZE..HEADER_SIZE + DIR_ENTRY_SIZE * |dir|] == Flat(DirBytes(dir))
    ensures EntryAt(bs, HEADER_SIZE + DIR_ENTRY_SIZE * i) == dir[i]
  {
    hide Flat, Start, EntryParts, EntryAt;
    var parts := DirBytes(dir);
    forall k | 0 <= k < |dir| ensures |parts[k]| == DIR_ENTRY_SIZE { EntryLength(dir[k]); }
    FlatUniform(parts, DIR_ENTRY_SIZE);
    StartUniform(parts, DIR_ENTRY_SIZE, i);
    PartIn(bs, HEADER_SIZE, parts, i);
    EntryRoundTrip(dir[i], bs, HEADER_SIZE + DIR_ENTRY_SIZE * i);
  }

  lemma DecompressCompress(z: Codec, kind: CompressionType, raw: Bytes)
    requires Lossless(z)
    ensures Decompress(z, Code(kind), Compress(z, kind, raw), |raw|) == Some(raw)
  {
  }

  /** Every column of a written page reads back as it was given, with its null bits. */
  lemma ColumnReadBack(bs: Bytes, z: Codec, kind: CompressionType, cols: seq<ColumnInput>, numRows: nat, i: nat)
    requires Written(bs, z, kind, cols, numRows) && Lossless(z) && i < |cols|
    ensures var h, e := ParseHeader(bs), Directory(cols, Compressed(z, kind, cols))[i];
      && e.dataOffset + e.compressedSize <= |bs| && RawIn(bs, z, h, e) == Some(cols[i].data)
      && h.nullBitmapOffset + (i + 1) * BitmapBytes(h.numRows) <= |bs|
      && ValidityIn(bs, h, i) == Bitmap(cols[i], numRows)
  {
    hide Flat, Start, ParseHeader, EntryParts, Lossless, Compress, Decompress;
    var parts, bits := Compressed(z, kind, cols), Bitmaps(cols, numRows);
    WrittenRegions(bs, z, kind, cols, numRows);
    PartIn(bs, DataStart(|cols|), parts, i);
    DecompressCompress(z, kind, cols[i].data);
    PartIn(bs, DataStart(|cols|) + |Flat(parts)|, bits, i);
    StartUniform(bits, BitmapBytes(numRows), i);
  }

  // ---- the format of a page, byte by byte ----

  lemma FieldHalf(bs: Bytes, off: nat)
    requires off + 2 <= |bs|
    ensures LoadAt(bs, off, 2) == Half(bs, off)
  {
    LoadHalf(bs[off..off + 2]);
  }

  lemma FieldWord(bs: Bytes, off: nat)
    requires off + 4 <= |bs|
    ensures LoadAt(bs, off, 4) == Word(bs, off)
  {
    LoadWord(bs[off..off + 4]);
  }

  lemma FieldLong(bs: Bytes, off: nat)
    requires off + 8 <= |bs|
    ensures LoadAt(bs, off, 8) == Long(bs, off)
  {
    LoadLong(bs[off..off + 8]);
  }

  /** Every field of the header stands at its fixed bytes, as a little-endian number. */
  lemma HeaderLayout(bs: Bytes)
    requires |bs| >= HEADER_FIELDS
    ensures var h := ParseHeader(bs);
      && h.magic == Word(bs, 0) && h.version == Half(bs, 4) && h.pageType == bs[6] && h.compression == bs[7]
      && h.numRows == Word(bs, 16) && h.numColumns == Half(bs, 20) && h.colDirOffset == Half(bs, 22)
      && h.dataOffset == Word(bs, 24) && h.nullBitmapOffset == Word(bs, 28)
      && h.pageId == Long(bs, 8) && h.minRowId == Long(bs, 32) && h.maxRowId == Long(bs, 40)
      && h.createTs == Long(bs, 48) && h.checksum == Word(bs, 56)
  {
    hide Load, Half, Word, Long;
    FieldLong(bs, 8);
    FieldLong(bs, 32);
    FieldLong(bs, 40);
    FieldLong(bs, 48);
    FieldWord(bs, 56);
    FieldWord(bs, 0);
    FieldHalf(bs, 4);
    LoadOne(bs[6..7]);
    LoadOne(bs[7..8]);
    FieldWord(bs, 16);
    FieldHalf(bs, 20);
    FieldHalf(bs, 22);
    FieldWord(bs, 24);
    FieldWord(bs, 28);
  }

  lemma EntryLayout(bs: Bytes, off: nat)
    requires off + DIR_ENTRY_SIZE <= |bs|
    ensures var e := EntryAt(bs, off);
      && (Word(bs, off) - e.colId) % 0x1_0000_0000 == 0
      && e.dataOffset == Word(bs, off + 4) && e.compressedSize == Word(bs, off + 8) && e.rawSize == Word(bs, off + 12)
  {
    hide LoadAt, Word;
    FieldWord(bs, off);
    FieldWord(bs, off + 4);
    FieldWord(bs, off + 8);
    FieldWord(bs, off + 12);
  }

  lemma BitmapLayout(bs: Bytes, cols: seq<ColumnInput>, numRows: nat, nulls: nat, i: nat)
    requires InputsFit(cols, numRows) && i < |cols|
    requires var bits := Flat(Bitmaps(cols, numRows)); nulls + |bits| <= |bs| && bs[nulls..nulls + |bits|] == bits
    ensures var at := nulls + i * BitmapBytes(numRows);
      at + BitmapBytes(numRows) <= |bs| && bs[at..at + BitmapBytes(numRows)] == Bitmap(cols[i], numRows)
  {
    hide Flat, Start;
    var bits := Bitmaps(cols, numRows);
    PartIn(bs, nulls, bits, i);
    StartUniform(bits, BitmapBytes(numRows), i);
  }

  /** What the header of a written page says, byte by byte. */
  lemma PageLayout(bs: Bytes, z: Codec, kind: CompressionType, cols: seq<ColumnInput>, numRows: nat)
    requires Written(bs, z, kind, cols, numRows)
    ensures Word(bs, 0) == 0x3f && Half(bs, 4) == 2 && bs[6] == 1 && bs[7] == (if kind.NONE? then 0 else 1)
    ensures Word(bs, 16) == numRows && Half(bs, 20) == |cols| && Half(bs, 22) == 64
    ensures Word(bs, 24) == 64 + 16 * |cols| && Word(bs, 28) == Word(bs, 24) + |Flat(Compressed(z, kind, cols))|
  {
    hide Flat, Compressed, Body, EndOf, InputsFit, ParseHeader, Half, Word;
    HeaderLayout(bs);
  }

  /** Entry i of the directory: column id, position and size of the column's bytes, and their size uncompressed. */
  predicate EntryIs(bs: Bytes, i: nat, colId: int, from: nat, size: nat, rawSize: nat) {
    var at := 64 + 16 * i;
    && at + 16 <= |bs| && (Word(bs, at) - colId) % 0x1_0000_0000 == 0
    && Word(bs, at + 4) == from && Word(bs, at + 8) == size && Word(bs, at + 12) == rawSize
  }

  predicate BytesAt(bs: Bytes, from: nat, part: Bytes) {
    from + |part| <= |bs| && bs[from..from + |part|] == part
  }

  /** Column i's null bits, n bytes for each column. */
  predicate NullsAt(bs: Bytes, i: nat, n: nat, bits: Bytes) {
    64 <= |bs| && BytesAt(bs, Word(bs, 28) + i * n, bits)
  }

  /** A column's directory entry, and its compressed bytes where the entry says, behind those of the columns before. */
  lemma ColumnLayout(bs: Bytes, z: Codec, kind: CompressionType, cols: seq<ColumnInput>, numRows: nat, i: nat)
    requires Written(bs, z, kind, cols, numRows) && i < |cols|
    ensures var part := if kind.NONE? then cols[i].data else z.compress(cols[i].data);
      var from := 64 + 16 * |cols| + |Flat(Compressed(z, kind, cols)[..i])|;
      && Compressed(z, kind, cols)[i] == part
      && EntryIs(bs, i, cols[i].colId, from, |part|, |cols[i].data|) && BytesAt(bs, from, part)
  {
    hide Flat, Compress, Compressed, ParseHeader, DirectoryIn, EndOf, Body, Written, InputsFit, DirBytes, Bitmaps,
         HeaderOf, Half, Word;
    WrittenSize(bs, z, kind, cols, numRows);
    var h, parts := ParseHeader(bs), Compressed(z, kind, cols);
    DirectoryReadBack(bs, z, kind, cols, numRows);
    WrittenRegions(bs, z, kind, cols, numRows);
    PartIn(bs, DataStart(|cols|), parts, i);
    EntryPlace(bs, h, Directory(cols, parts), i);
    ColumnBytes(z, kind, cols, i);
  }

  /** The null bits, behind all columns, column by column. */
  lemma NullLayout(bs: Bytes, z: Codec, kind: CompressionType, cols: seq<ColumnInput>, numRows: nat, i: nat)
    requires Written(bs, z, kind, cols, numRows) && i < |cols| && cols[i].validity.Some?
    ensures NullsAt(bs, i, (numRows + 7) / 8, cols[i].validity.value)
  {
    hide Flat, Compressed, ParseHeader, EndOf, Body, Written, InputsFit, DirBytes, Bitmaps, HeaderOf, Half, Word;
    WrittenSize(bs, z, kind, cols, numRows);
    PageLayout(bs, z, kind, cols, numRows);
    WrittenRegions(bs, z, kind, cols, numRows);
    BitmapLayout(bs, cols, numRows, Word(bs, 28), i);
  }

  lemma WrittenSize(bs: Bytes, z: Codec, kind: CompressionType, cols: seq<ColumnInput>, numRows: nat)
    requires Written(bs, z, kind, cols, numRows)
    ensures |bs| == PAGE_SIZE && InputsFit(cols, numRows)
    ensures ParseHeader(bs).colDirOffset == HEADER_SIZE && ParseHeader(bs).numColumns == |cols|
  {
    hide Flat, Compressed, Body, EndOf, InputsFit, ParseHeader;
  }

  lemma ColumnBytes(z: Codec, kind: CompressionType, cols: seq<ColumnInput>, i: nat)
    requires i < |cols|
    ensures Compressed(z, kind, cols)[i] == if kind.NONE? then cols[i].data else z.compress(cols[i].data)
  {
  }

  lemma EntryPlace(bs: Bytes, h: Header, dir: seq<DirEntry>, i: nat)
    requires h.colDirOffset == HEADER_SIZE && h.numColumns == |dir| && i < |dir|
    requires HEADER_SIZE + DIR_ENTRY_SIZE * |dir| <= |bs| && DirectoryIn(bs, h) == dir
    ensures var entry := 64 + 16 * i;
      && entry + 16 <= |bs| && (Word(bs, entry) - dir[i].colId) % 0x1_0000_0000 == 0
      && dir[i].dataOffset == Word(bs, entry + 4) && dir[i].compressedSize == Word(bs, entry + 8)
      && dir[i].rawSize == Word(bs, entry + 12)
  {
    hide EntryAt, Word;
    EntryLayout(bs, 64 + 16 * i);
    assert DirectoryIn(bs, h)[i] == EntryAt(bs, 64 + 16 * i);
  }
}
