/** The object through which the program writes and reads a data page. */
module DataPageView {
  import opened Common
  import opened ByteCodec
  import opened TablePages

  /** A page in memory. */
  class Page {
    const pageNo: nat
    const data: array<Byte>

    constructor (pageNo: nat)
      ensures this.pageNo == pageNo && fresh(data) && data.Length == PAGE_SIZE
      ensures forall i :: 0 <= i < PAGE_SIZE ==> data[i] == 0
    {
      this.pageNo := pageNo;
      data := new Byte[PAGE_SIZE](_ => 0);
    }
  }

  class TableDataPage {
    const page: Page
    const codec: Codec
    var header: Header
    var cols: seq<DirEntry>

    /** The fields are what a fresh view of the same page would read. */
    ghost predicate Valid()
      reads this, page.data
    {
      && page.data.Length == PAGE_SIZE
      && header == ParseHeader(page.data[..])
      && (IsData(header) ==>
           && header.colDirOffset + DIR_ENTRY_SIZE * header.numColumns <= PAGE_SIZE
           && cols == DirectoryIn(page.data[..], header))
    }

    /** Reads header and directory; pages that are no data pages have no directory. */
    constructor (page: Page, codec: Codec)
      requires page.data.Length == PAGE_SIZE
      requires var h := ParseHeader(page.data[..]);
        IsData(h) ==> h.colDirOffset + DIR_ENTRY_SIZE * h.numColumns <= PAGE_SIZE
      ensures Valid() && this.page == page && this.codec == codec
    {
      this.page, this.codec := page, codec;
      var h := ParseHeader(page.data[..]);
      header, cols := h, [];
      new;
      if IsData(h) {
        InitCols();
      }
    }

    method InitCols()
      requires page.data.Length == PAGE_SIZE && header == ParseHeader(page.data[..])
      requires header.colDirOffset + DIR_ENTRY_SIZE * header.numColumns <= PAGE_SIZE
      modifies this`cols
      ensures cols == DirectoryIn(page.data[..], header)
    {
      hide ParseHeader, EntryAt;
      cols := [];
      var readOffset := header.colDirOffset;
      for i := 0 to header.numColumns
        invariant readOffset == header.colDirOffset + DIR_ENTRY_SIZE * i
        invariant cols == DirectoryIn(page.data[..], header)[..i]
      {
        cols := cols + [EntryAt(page.data[..], readOffset)];
        readOffset := readOffset + DIR_ENTRY_SIZE;
      }
    }

    /** One `memcpy` of a field: the bytes up to the offset were the first k fields, now they are the first k + 1. */
    method Put(ghost fields: seq<Bytes>, ghost k: nat, offset: nat, v: nat, w: nat) returns (next: nat)
      requires k < |fields| && fields[k] == Store(v, w)
      requires offset + w <= HEADER_FIELDS <= page.data.Length && page.data[..offset] == Flat(fields[..k])
      modifies page.data
      ensures next == offset + w && page.data[..next] == Flat(fields[..k + 1])
      ensures page.data[HEADER_FIELDS..] == old(page.data[HEADER_FIELDS..])
    {
      StartStep(fields, k);
      assert page.data[offset + w..][HEADER_FIELDS - offset - w..] == page.data[HEADER_FIELDS..];
      CopyInto(page.data, offset, Store(v, w));
      next := offset + w;
      assert page.data[next..][HEADER_FIELDS - next..] == page.data[HEADER_FIELDS..];
    }

    /** The fields up to the column directory offset. */
    method WriteHeaderFront() returns (offset: nat)
      requires page.data.Length == PAGE_SIZE
      modifies page.data
      ensures offset == 24 && page.data[..offset] == Flat(HeaderParts(header)[..8])
      ensures page.data[HEADER_FIELDS..] == old(page.data[HEADER_FIELDS..])
    {
      hide Flat, Store, Start;
      var h := header;
      ghost var p := HeaderParts(h);
      StartZero(p);
      offset := Put(p, 0, 0, h.magic, 4);
      offset := Put(p, 1, offset, h.version, 2);
      offset := Put(p, 2, offset, h.pageType, 1);
      offset := Put(p, 3, offset, h.compression, 1);
      offset := Put(p, 4, offset, h.pageId, 8);
      offset := Put(p, 5, offset, h.numRows, 4);
      offset := Put(p, 6, offset, h.numColumns, 2);
      offset := Put(p, 7, offset, h.colDirOffset, 2);
    }

    method WriteHeader()
      requires page.data.Length == PAGE_SIZE
      modifies page.data
      ensures page.data[..HEADER_FIELDS] == Flat(HeaderParts(header))
      ensures page.data[HEADER_FIELDS..] == old(page.data[HEADER_FIELDS..])
    {
      hide Flat, Store, Start;
      var offset := WriteHeaderFront();
      var h := header;
      ghost var p := HeaderParts(h);
      offset := Put(p, 8, offset, h.dataOffset, 4);
      offset := Put(p, 9, offset, h.nullBitmapOffset, 4);
      offset := Put(p, 10, offset, h.minRowId, 8);
      offset := Put(p, 11, offset, h.maxRowId, 8);
      offset := Put(p, 12, offset, h.createTs, 8);
      offset := Put(p, 13, offset, h.checksum, 4);
      assert p[..14] == p;
    }

    /** Compresses the columns and lays them out behind the directory; offsets are 32-bit numbers. */
    method PlaceColumns(inputs: seq<ColumnInput>, kind: CompressionType)
      returns (compressed: seq<Bytes>, dir: seq<DirEntry>, cursor: nat)
      requires DataStart(|inputs|) + |Flat(Compressed(codec, kind, inputs))| < TWO32
      ensures compressed == Compressed(codec, kind, inputs) && dir == Directory(inputs, compressed)
      ensures cursor == DataStart(|inputs|) + |Flat(compressed)|
    {
      hide Flat, Compress;
      ghost var parts := Compressed(codec, kind, inputs);
      compressed, dir, cursor := [], [], DataStart(|inputs|);
      StartZero(parts);
      for i := 0 to |inputs|
        invariant compressed == parts[..i] && dir == Directory(inputs, parts)[..i]
        invariant cursor == DataStart(|inputs|) + Start(parts, i)
      {
        StartStep(parts, i);
        StartMono(parts, i + 1, |parts|);
        var c := Compress(codec, kind, inputs[i].data);
        compressed := compressed + [c];
        dir := dir + [DirEntry(inputs[i].colId, cursor, |c|, |inputs[i].data|)];
        cursor := (cursor + |c|) % TWO32;
      }
      assert parts[..|parts|] == parts;
    }

    method PutEntry(offset: nat, e: DirEntry) returns (next: nat)
      requires HEADER_SIZE <= offset && offset + DIR_ENTRY_SIZE <= page.data.Length
      modifies page.data
      ensures next == offset + DIR_ENTRY_SIZE && page.data[..next] == old(page.data[..offset]) + Flat(EntryParts(e))
    {
      hide Store;
      CopyInto(page.data, offset, Store(Pattern32(e.colId), 4));
      CopyInto(page.data, offset + 4, Store(e.dataOffset, 4));
      CopyInto(page.data, offset + 8, Store(e.compressedSize, 4));
      CopyInto(page.data, offset + 12, Store(e.rawSize, 4));
      next := offset + 16;
      EntryFlat(e);
    }

    lemma EntryFlat(e: DirEntry)
      ensures Flat(EntryParts(e)) ==
        Store(Pattern32(e.colId), 4) + Store(e.dataOffset, 4) + Store(e.compressedSize, 4) + Store(e.rawSize, 4)
    {
      hide Store, Flat;
      var p := EntryParts(e);
      StartZero(p);
      StartStep(p, 0);
      StartStep(p, 1);
      StartStep(p, 2);
      StartStep(p, 3);
      assert p[..4] == p;
    }

    method WriteDirectory(dir: seq<DirEntry>)
      requires DataStart(|dir|) <= page.data.Length
      modifies page.data
      ensures page.data[..DataStart(|dir|)] == old(page.data[..HEADER_SIZE]) + Flat(DirBytes(dir))
    {
      hide Flat, EntryParts;
      ghost var top, parts := page.data[..HEADER_SIZE], DirBytes(dir);
      var writeOffset := HEADER_SIZE;
      StartZero(parts);
      for i := 0 to |dir|
        invariant writeOffset == DataStart(i) && page.data[..writeOffset] == top + Flat(parts[..i])
      {
        StartStep(parts, i);
        writeOffset := PutEntry(writeOffset, dir[i]);
      }
      assert parts[..|parts|] == parts;
    }

    /** The compressed columns, each at the offset of its directory entry. */
    method WriteColumns(dir: seq<DirEntry>, compressed: seq<Bytes>, at: nat)
      requires |dir| == |compressed| && HEADER_SIZE <= at && at + |Flat(compressed)| <= page.data.Length
      requires forall i :: 0 <= i < |dir| ==> dir[i].dataOffset == at + Start(compressed, i)
      modifies page.data
      ensures page.data[..at + |Flat(compressed)|] == old(page.data[..at]) + Flat(compressed)
    {
      hide Flat;
      ghost var top := page.data[..at];
      StartZero(compressed);
      for i := 0 to |dir|
        invariant at + Start(compressed, i) <= page.data.Length
        invariant page.data[..at + Start(compressed, i)] == top + Flat(compressed[..i])
      {
        StartStep(compressed, i);
        StartMono(compressed, i + 1, |compressed|);
        if compressed[i] != [] {
          CopyInto(page.data, dir[i].dataOffset, compressed[i]);
        }
      }
      assert compressed[..|compressed|] == compressed;
    }

    method WriteBitmaps(inputs: seq<ColumnInput>, numRows: nat, at: nat)
      requires InputsFit(inputs, numRows) && HEADER_SIZE <= at && at + BitmapArea(numRows, |inputs|) <= page.data.Length
      modifies page.data
      ensures page.data[..at + BitmapArea(numRows, |inputs|)] == old(page.data[..at]) + Flat(Bitmaps(inputs, numRows))
    {
      hide Flat, Bitmap;
      ghost var top, parts := page.data[..at], Bitmaps(inputs, numRows);
      var bitmapBytes := BitmapBytes(numRows);
      forall i | 0 <= i < |inputs| ensures |parts[i]| == bitmapBytes { BitmapLength(inputs, numRows, i); }
      FlatUniform(parts, bitmapBytes);
      StartZero(parts);
      for i := 0 to |inputs|
        invariant at + Start(parts, i) <= page.data.Length
        invariant page.data[..at + Start(parts, i)] == top + Flat(parts[..i])
      {
        StartStep(parts, i);
        StartMono(parts, i + 1, |parts|);
        StartUniform(parts, bitmapBytes, i);
        CopyInto(page.data, at + bitmapBytes * i, Bitmap(inputs[i], numRows));
      }
      assert parts[..|parts|] == parts;
    }

    lemma BitmapLength(inputs: seq<ColumnInput>, numRows: nat, i: nat)
      requires InputsFit(inputs, numRows) && i < |inputs|
      ensures |Bitmap(inputs[i], numRows)| == BitmapBytes(numRows)
    {
    }

    /** All that lies behind the header. */
    method WriteBody(inputs: seq<ColumnInput>, numRows: nat, kind: CompressionType, compressed: seq<Bytes>,
                     dir: seq<DirEntry>)
      requires InputsFit(inputs, numRows) && EndOf(codec, kind, inputs, numRows) <= PAGE_SIZE == page.data.Length
      requires compressed == Compressed(codec, kind, inputs) && dir == Directory(inputs, compressed)
      modifies page.data
      ensures page.data[..HEADER_SIZE] == old(page.data[..HEADER_SIZE])
      ensures page.data[HEADER_SIZE..EndOf(codec, kind, inputs, numRows)] == Body(codec, kind, inputs, numRows)
    {
      hide Flat, Start, InputsFit, Compressed, Bitmaps, DirBytes;
      ghost var top, end := page.data[..HEADER_SIZE], EndOf(codec, kind, inputs, numRows);
      BodyLength(codec, kind, inputs, numRows);
      WriteDirectory(dir);
      WriteColumns(dir, compressed, DataStart(|inputs|));
      WriteBitmaps(inputs, numRows, DataStart(|inputs|) + |Flat(compressed)|);
      assert page.data[..end] == top + Body(codec, kind, inputs, numRows);
      assert page.data[..end][HEADER_SIZE..] == page.data[HEADER_SIZE..end];
    }

    /** Succeeds exactly when the columns fit; then the page holds them, and otherwise nothing changes. */
    method BuildFromColumns(inputs: seq<ColumnInput>, numRows: nat, kind: CompressionType, baseRowId: nat,
                            createTs: nat)
      returns (ok: bool)
      requires Valid() && InputsFit(inputs, numRows) && EndOf(codec, kind, inputs, numRows) < TWO32
      requires page.pageNo < TWO64 && baseRowId < TWO64 && createTs < TWO64
      modifies this, page.data
      ensures Valid() && ok == (EndOf(codec, kind, inputs, numRows) <= PAGE_SIZE)
      ensures ok ==> Written(page.data[..], codec, kind, inputs, numRows) && ChecksumHolds(page.data[..], codec, header)
      ensures ok ==> header == HeaderOf(codec, kind, inputs, numRows, page.pageNo, baseRowId, createTs, header.checksum)
      ensures !ok ==> page.data[..] == old(page.data[..]) && header == old(header) && cols == old(cols)
    {
      hide Flat, Start, InputsFit, Compressed, ParseHeader, HeaderParts, Body, Directory, DirectoryIn, Written,
           ChecksumHolds, BitmapArea;
      InputsSmall(inputs, numRows);
      ghost var end := EndOf(codec, kind, inputs, numRows);
      var compressed, dir, nullBitmapOffset := PlaceColumns(inputs, kind);
      var totalSize := (nullBitmapOffset + (BitmapArea(numRows, |inputs|)) % TWO32) % TWO32;
      if totalSize > PAGE_SIZE {
        return false;
      }
      header := Header(PAGE_MAGIC_NUM, 2, DATA_PAGE, Code(kind), page.pageNo, numRows, |inputs|, HEADER_SIZE,
        DataStart(|inputs|), nullBitmapOffset, baseRowId,
        if numRows == 0 then baseRowId else (baseRowId + numRows - 1) % TWO64, createTs, 0);
      WriteHeader();
      WriteBody(inputs, numRows, kind, compressed, dir);
      cols := dir;
      ghost var was := page.data[..];
      assert was[HEADER_SIZE..end] == page.data[HEADER_SIZE..end];
      header := header.(checksum := codec.checksum(page.data[HEADER_SIZE..totalSize]));
      WriteHeader();
      ok := true;
      BehindHeader(was, page.data[..], end);
      Sealed(page.data[..], header, kind, inputs, numRows);
    }

    lemma BehindHeader(was: Bytes, now: Bytes, end: nat)
      requires |was| == |now| && HEADER_SIZE <= end <= |now| && was[HEADER_FIELDS..] == now[HEADER_FIELDS..]
      ensures was[HEADER_SIZE..end] == now[HEADER_SIZE..end]
    {
      SliceSlice(was, HEADER_FIELDS, |was|, HEADER_SIZE - HEADER_FIELDS, end - HEADER_FIELDS);
      SliceSlice(now, HEADER_FIELDS, |now|, HEADER_SIZE - HEADER_FIELDS, end - HEADER_FIELDS);
    }

    /** A header in front of the body makes the page complete. */
    lemma Sealed(bs: Bytes, h: Header, kind: CompressionType, inputs: seq<ColumnInput>, numRows: nat)
      requires |bs| == PAGE_SIZE && bs[..HEADER_FIELDS] == Flat(HeaderParts(h)) && HeaderFits(h)
      requires InputsFit(inputs, numRows) && EndOf(codec, kind, inputs, numRows) <= PAGE_SIZE
      requires bs[HEADER_SIZE..EndOf(codec, kind, inputs, numRows)] == Body(codec, kind, inputs, numRows)
      requires h == HeaderOf(codec, kind, inputs, numRows, h.pageId, h.minRowId, h.createTs, h.checksum)
      requires h.checksum == codec.checksum(bs[HEADER_SIZE..EndOf(codec, kind, inputs, numRows)])
      ensures ChecksumHolds(bs, codec, h)
      ensures Written(bs, codec, kind, inputs, numRows) && ParseHeader(bs) == h
      ensures h.colDirOffset + DIR_ENTRY_SIZE * h.numColumns <= PAGE_SIZE
      ensures DirectoryIn(bs, h) == Directory(inputs, Compressed(codec, kind, inputs))
    {
      hide Flat, Start, InputsFit, Compressed, ParseHeader, HeaderParts, Body, Directory, BitmapArea;
      HeaderRoundTrip(h, bs);
      DirectoryReadBack(bs, codec, kind, inputs, numRows);
    }

    lemma InputsSmall(inputs: seq<ColumnInput>, numRows: nat)
      requires InputsFit(inputs, numRows)
      ensures |inputs| < 0x1_0000 && numRows < TWO32
    {
    }

    /** Out of range is an exception of the program, as are the failures of `Decompress`. */
    method GetColumnRaw(colIdx: nat) returns (raw: Option<Bytes>)
      requires Valid() && IsData(header)
      requires colIdx < |cols| ==> cols[colIdx].dataOffset + cols[colIdx].compressedSize <= PAGE_SIZE
      ensures raw == if colIdx < |cols| then RawIn(page.data[..], codec, header, cols[colIdx]) else None
    {
      if colIdx >= |cols| { return None; }
      var entry := cols[colIdx];
      var src := page.data[entry.dataOffset..entry.dataOffset + entry.compressedSize];
      assert src == page.data[..][entry.dataOffset..entry.dataOffset + entry.compressedSize];
      raw := Decompress(codec, header.compression, src, entry.rawSize);
    }

    method GetColumnValidity(colIdx: nat) returns (bits: Bytes)
      requires Valid() && header.nullBitmapOffset + (colIdx + 1) * BitmapBytes(header.numRows) <= PAGE_SIZE
      ensures bits == ValidityIn(page.data[..], header, colIdx)
    {
      var bitmapBytes := BitmapBytes(header.numRows);
      var src := header.nullBitmapOffset + colIdx * bitmapBytes;
      bits := page.data[src..src + bitmapBytes];
      assert bits == page.data[..][src..src + bitmapBytes];
    }

    method VerifyChecksum() returns (ok: bool)
      requires Valid()
      requires HEADER_SIZE <= header.nullBitmapOffset + BitmapArea(header.numRows, header.numColumns) <= PAGE_SIZE
      ensures ok == ChecksumOk(page.data[..], codec, header)
    {
      if header.checksum == 0 { return true; }
      var end := header.nullBitmapOffset + BitmapArea(header.numRows, header.numColumns);
      assert page.data[HEADER_SIZE..end] == page.data[..][HEADER_SIZE..end];
      ok := codec.checksum(page.data[HEADER_SIZE..end]) == header.checksum;
    }
  }
}
