/** The C structures of include/bmp.h (bmp_t with its three heap
    pointers) and the pieces shared by the C loaders and savers of
    src/bmp.c, src/bmp_io.c and src/bmp.cpp: the row-size formula, the
    row pointer table over one contiguous pixel buffer, and the row read
    and write loops. */
module CBitmap {
  import opened Seqs
  import opened BmpFormat
  import BmpCodec

  const MinI32: int := -0x8000_0000

  /** A C pointer: NULL, pointing at a live object, or dangling after the
      object was freed (dereferencing or freeing it again is undefined). */
  datatype Ptr<T> = Null | Live(value: T) | Freed

  /** A path argument: NULL, a file fopen cannot open, or a file with the
      given contents. */
  datatype Path = NullPath | Unopenable | Openable(data: seq<byte>)

  /** pixel_t **rows over one calloc'ed pixel buffer: rows[r] points at
      buffer + starts[r]. */
  datatype RowTable = RowTable(buffer: seq<Pixel>, starts: seq<int>)

  /** What a successful load leaves behind: both headers as stored and the
      image, top row first. */
  datatype Loaded = Loaded(fh: FileHeader, ih: InfoHeader, image: seq<seq<Pixel>>)

  /** bmp_t: the three pointers the C functions test, allocate and free. */
  class Bitmap {
    var fileheader: Ptr<FileHeader>
    var infoheader: Ptr<InfoHeader>
    var rows: Ptr<RowTable>

    /** A zero-initialised bmp_t: all three pointers NULL. */
    constructor ()
      ensures fileheader == Null && infoheader == Null && rows == Null
    {
      fileheader := Null;
      infoheader := Null;
      rows := Null;
    }
  }

  /** row_byte_width(bpp, w) evaluated in size_t: the int32 width is
      converted to size_t (a negative one wraps), then ((bpp·w + 31) / 32)·4.
      For a non-negative width nothing wraps, and for 24 bits per pixel it
      is the padded row size. */
  function RowByteWidth(bpp: u16, w: i32): (r: nat)
    ensures w >= 0 ==> r == ((bpp * w + 31) / 32) * 4
    ensures w >= 0 && bpp == 24 ==> r == RowSize(w)
  {
    var product := Wrap64(bpp * Wrap64(w));
    if w >= 0 then
      DepthTimesWidth(bpp, w);
      (Wrap64(product + 31) / 32) * 4
    else
      (Wrap64(product + 31) / 32) * 4
  }

  /** bpp·w for a 16-bit depth and a non-negative 32-bit width, plus 31,
      fits a size_t. */
  lemma DepthTimesWidth(bpp: u16, w: i32)
    requires w >= 0
    ensures 0 <= bpp * w && bpp * w + 31 < 0x1_0000_0000_0000_0000
  {
    MulMono(bpp, 0xFFFF, w);
    MulMono(w, 0x8000_0000, 0xFFFF);
    assert 0xFFFF * w == w * 0xFFFF;
  }

  /** rows[r] = buffer + r·w for r < h: the layout every allocator here
      builds. */
  function Starts(w: int, h: nat): (s: seq<int>)
    ensures |s| == h
  {
    seq(h, r => r * w)
  }

  /** The row table holding `image` row-major in one buffer. */
  function Table(image: seq<seq<Pixel>>, w: int): RowTable {
    RowTable(Flatten(image), Starts(w, |image|))
  }

  /** rows[0..h) each point at w pixels inside the buffer. */
  predicate Covers(t: RowTable, w: int, h: int) {
    && 0 <= w && 0 <= h <= |t.starts|
    && forall r :: 0 <= r < h ==> 0 <= t.starts[r] && t.starts[r] + w <= |t.buffer|
  }

  /** rows[y][x] is inside the buffer. */
  predicate Addressable(t: RowTable, x: int, y: int) {
    0 <= y < |t.starts| && 0 <= t.starts[y] + x < |t.buffer|
  }

  /** The w pixels rows[r] points at. */
  function Row(t: RowTable, r: nat, w: nat): (row: seq<Pixel>)
    requires Covers(t, w, r + 1)
    ensures |row| == w
  {
    t.buffer[t.starts[r]..t.starts[r] + w]
  }

  /** The image seen through the first h row pointers. */
  function Image(t: RowTable, w: nat, h: nat): (image: seq<seq<Pixel>>)
    requires Covers(t, w, h)
    ensures |image| == h && AllWidth(image, w)
  {
    seq(h, r requires 0 <= r < h => Row(t, r, w))
  }

  /** rows[y][x], read through the table. */
  function PixelAt(t: RowTable, x: int, y: int): Pixel
    requires Addressable(t, x, y)
  {
    t.buffer[t.starts[y] + x]
  }

  /** rows[y][x] = p. */
  function Store(t: RowTable, x: int, y: int, p: Pixel): (u: RowTable)
    requires Addressable(t, x, y)
  {
    t.(buffer := t.buffer[t.starts[y] + x := p])
  }

  /** The table of an image of w-pixel rows covers it and shows exactly
      that image. */
  lemma TableImage(image: seq<seq<Pixel>>, w: nat)
    requires AllWidth(image, w)
    ensures Covers(Table(image, w), w, |image|)
    ensures Image(Table(image, w), w, |image|) == image
  {
    var t := Table(image, w);
    FlattenLength(image, w);
    forall r | 0 <= r < |image|
      ensures 0 <= t.starts[r] && t.starts[r] + w <= |t.buffer|
      ensures t.buffer[t.starts[r]..t.starts[r] + w] == image[r]
    {
      FlattenSlice(image, w, r);
    }
  }

  /** Reading pixel (x, y) through the table of an image gives image[y][x]. */
  lemma TablePixel(image: seq<seq<Pixel>>, w: nat, x: int, y: int)
    requires AllWidth(image, w) && 0 <= x < w && 0 <= y < |image|
    ensures Addressable(Table(image, w), x, y)
    ensures PixelAt(Table(image, w), x, y) == image[y][x]
  {
    FlattenIndex(image, w, y, x);
  }

  /** Writing pixel (x, y) through the table of an image gives the table of
      the image with exactly that pixel replaced: rows never overlap. */
  lemma TableStore(image: seq<seq<Pixel>>, w: nat, x: int, y: int, p: Pixel)
    requires AllWidth(image, w) && 0 <= x < w && 0 <= y < |image|
    ensures Addressable(Table(image, w), x, y)
    ensures Store(Table(image, w), x, y, p) == Table(image[y := image[y][x := p]], w)
  {
    FlattenIndex(image, w, y, x);
    FlattenStore(image, w, x, y, p);
    assert |image[y := image[y][x := p]]| == |image|;
  }

  /** The loop `for r < h: rows[r] = pixels + r·w` of all three
      allocators. */
  method RowPointers(w: int, h: nat) returns (starts: seq<int>)
    ensures starts == Starts(w, h)
  {
    starts := Repeat(0, h);
    for r := 0 to h
      invariant |starts| == h
      invariant forall i :: 0 <= i < r ==> starts[i] == i * w
    {
      starts := starts[r := r * w];
    }
  }

  // ------------------------------------------------------------- file rows

  /** The loaders read h rows of w pixels from byte `offset` on, stepping
      RowSize(w) bytes per row; fread of w pixels succeeds when 3·w bytes
      remain (and always when w is 0). All rows are read exactly when the
      last one is: its padding need not be in the file. */
  predicate RowsPresent(data: seq<byte>, offset: nat, w: nat, h: nat) {
    w == 0 || h == 0 || offset + (h - 1) * RowSize(w) + 3 * w <= |data|
  }

  /** File row i as fread fills it: the w pixels from byte
      offset + i·RowSize(w) on (a row the file does not hold reads as black;
      a load stops before reaching one). */
  function StoredRow(data: seq<byte>, offset: nat, w: nat, i: nat): (row: seq<Pixel>)
    ensures |row| == w
  {
    if w > 0 && offset + i * RowSize(w) + 3 * w <= |data| then
      DecodePixels(data[offset + i * RowSize(w)..], w)
    else
      Repeat(Pixel(0, 0, 0), w)
  }

  /** The h file rows, in file order. */
  function CFileRows(data: seq<byte>, offset: nat, w: nat, h: nat): (rows: seq<seq<Pixel>>)
    ensures |rows| == h && AllWidth(rows, w)
  {
    seq(h, i requires 0 <= i < h => StoredRow(data, offset, w, i))
  }

  /** When the file holds all h padded rows, the rows read one by one are
      the rows the strict decoder splits off. */
  lemma CFileRowsFull(data: seq<byte>, offset: nat, w: nat, h: nat)
    requires offset + h * RowSize(w) <= |data|
    ensures RowsPresent(data, offset, w, h)
    ensures CFileRows(data, offset, w, h) == DecodeRows(data[offset..], w, h, RowSize(w))
  {
    if h > 0 {
      MulStep(h, RowSize(w));
    }
    forall i | 0 <= i < h
      ensures CFileRows(data, offset, w, h)[i] == DecodeRows(data[offset..], w, h, RowSize(w))[i]
    {
      CFileRowAt(data, offset, w, h, i);
    }
  }

  /** Row i of a file holding all h padded rows, read one by one or split
      off by the strict decoder. */
  lemma CFileRowAt(data: seq<byte>, offset: nat, w: nat, h: nat, i: nat)
    requires offset + h * RowSize(w) <= |data| && i < h
    ensures CFileRows(data, offset, w, h)[i] == DecodeRows(data[offset..], w, h, RowSize(w))[i]
  {
    var rs := RowSize(w);
    RowBounds(i, h, rs);
    DecodeRowsIndex(data[offset..], w, h, rs, i);
    SliceShift(data, offset, i * rs);
    if w == 0 {
      assert StoredRow(data, offset, w, i) == [] == DecodePixels(data[offset..][i * rs..], w);
    }
  }

  /** The read loop of load_bmp and bmp_load: file row i goes to image row
      i of a top-down file and to row h − 1 − i of a bottom-up one; after
      each row the stream skips the padding. It fails at the first row
      fread cannot fill. */
  method ReadRows(data: seq<byte>, offset: nat, w: nat, h: nat, topDown: bool, starts: seq<int>)
    returns (ok: bool, buffer: seq<Pixel>)
    requires starts == Starts(w, h)
    ensures ok <==> RowsPresent(data, offset, w, h)
    ensures ok ==> RowTable(buffer, starts) == Table(FileOrder(CFileRows(data, offset, w, h), !topDown), w)
  {
    buffer := Repeat(Pixel(0, 0, 0), w * h);
    var pos := offset;
    var i := 0;
    while i < h
      invariant ReadInv(data, offset, w, h, !topDown, buffer, pos, i)
    {
      var target := if topDown then i else h - 1 - i;
      var start := starts[target];
      assert start == BmpCodec.TargetRow(i, h, !topDown) * w;
      var read;
      read, buffer, pos := ReadRow(data, offset, w, h, !topDown, buffer, pos, i, start);
      if !read {
        return false, buffer;
      }
      i := i + 1;
    }
    ok := true;
    ReadDone(data, offset, w, h, !topDown, buffer, pos);
  }

  /** One pass of the read loop: fread of w pixels into the row at `start`
      (failing when fewer than 3·w bytes remain), then fseek over the
      padding. */
  method ReadRow(data: seq<byte>, offset: nat, w: nat, h: nat, bottomUp: bool,
                 buffer: seq<Pixel>, pos: int, i: nat, start: int)
    returns (ok: bool, buffer': seq<Pixel>, pos': int)
    requires ReadInv(data, offset, w, h, bottomUp, buffer, pos, i) && i < h
    requires start == BmpCodec.TargetRow(i, h, bottomUp) * w
    ensures ok ==> ReadInv(data, offset, w, h, bottomUp, buffer', pos', i + 1)
    ensures !ok ==> !RowsPresent(data, offset, w, h)
  {
    var rowBytes := RowSize(w);
    var padding := rowBytes - 3 * w;
    RowStart(data, offset, w, h, bottomUp, buffer, pos, i, start);
    if w > 0 && pos + 3 * w > |data| {
      ReadFails(data, offset, w, h, pos, i);
      return false, buffer, pos;
    }
    var row := if w == 0 then [] else DecodePixels(data[pos..], w);
    buffer' := Splice(buffer, start, row);
    pos' := pos + 3 * w;
    if padding != 0 {
      pos' := pos' + padding;
    }
    ReadStep(data, offset, w, h, bottomUp, buffer, pos, i, start, row, buffer', pos');
    ok := true;
  }

  /** The read loop's invariant: i rows read, all of them present, the
      stream at the start of row i, and each row read placed. */
  ghost predicate ReadInv(data: seq<byte>, offset: nat, w: nat, h: nat, bottomUp: bool,
                          buffer: seq<Pixel>, pos: int, i: nat)
  {
    && i <= h && |buffer| == w * h
    && pos == offset + i * RowSize(w)
    && (w == 0 || i == 0 || offset + (i - 1) * RowSize(w) + 3 * w <= |data|)
    && BmpCodec.Placed(Rows(buffer, w, h), CFileRows(data, offset, w, h), h, bottomUp, i)
  }

  /** Where row i is read from and copied to: at or after the pixel
      offset, and inside the buffer. */
  lemma RowStart(data: seq<byte>, offset: nat, w: nat, h: nat, bottomUp: bool,
                 buffer: seq<Pixel>, pos: int, i: nat, start: int)
    requires ReadInv(data, offset, w, h, bottomUp, buffer, pos, i) && i < h
    requires start == BmpCodec.TargetRow(i, h, bottomUp) * w
    ensures offset <= pos && 0 <= start && start + w <= |buffer|
  {
    var y := BmpCodec.TargetRow(i, h, bottomUp);
    MulStep(y + 1, w);
    MulMono(y + 1, h, w);
    MulMono(0, i, RowSize(w));
  }

  /** A row fread cannot fill means the last row is not in the file. */
  lemma ReadFails(data: seq<byte>, offset: nat, w: nat, h: nat, pos: int, i: nat)
    requires i < h && pos == offset + i * RowSize(w) && w > 0 && pos + 3 * w > |data|
    ensures !RowsPresent(data, offset, w, h)
  {
    MulMono(i, h - 1, RowSize(w));
  }

  /** Reading file row i (present in the file) into its target row keeps
      the invariant for i + 1. */
  lemma ReadStep(data: seq<byte>, offset: nat, w: nat, h: nat, bottomUp: bool,
                 buffer: seq<Pixel>, pos: int, i: nat, start: int, row: seq<Pixel>,
                 buffer': seq<Pixel>, pos': int)
    requires ReadInv(data, offset, w, h, bottomUp, buffer, pos, i) && i < h
    requires offset <= pos && (w == 0 || pos + 3 * w <= |data|)
    requires row == if w == 0 then [] else DecodePixels(data[pos..], w)
    requires start == BmpCodec.TargetRow(i, h, bottomUp) * w && 0 <= start && start + |row| <= |buffer|
    requires buffer' == Splice(buffer, start, row) && pos' == pos + RowSize(w)
    ensures ReadInv(data, offset, w, h, bottomUp, buffer', pos', i + 1)
  {
    var F := CFileRows(data, offset, w, h);
    StoredRowAt(data, offset, w, h, i, pos);
    NextRowPosition(offset, w, i, pos, pos');
    PlaceRow(buffer, F, w, h, bottomUp, i, start, row, buffer');
  }

  /** The stream position after row i is the start of row i + 1. */
  lemma NextRowPosition(offset: nat, w: nat, i: nat, pos: int, pos': int)
    requires pos == offset + i * RowSize(w) && pos' == pos + RowSize(w)
    ensures pos' == offset + (i + 1) * RowSize(w)
  {
    MulStep(i + 1, RowSize(w));
  }

  /** The row fread fills from the stream position of row i is file row i. */
  lemma StoredRowAt(data: seq<byte>, offset: nat, w: nat, h: nat, i: nat, pos: int)
    requires i < h && pos == offset + i * RowSize(w) && (w == 0 || pos + 3 * w <= |data|)
    ensures offset <= pos <= |data| || w == 0
    ensures CFileRows(data, offset, w, h)[i] == if w == 0 then [] else DecodePixels(data[pos..], w)
  {
    MulMono(0, i, RowSize(w));
  }

  /** Copying file row i over the buffer slice of its target row places it. */
  lemma PlaceRow(buffer: seq<Pixel>, F: seq<seq<Pixel>>, w: nat, h: nat, bottomUp: bool, i: nat,
                 start: int, row: seq<Pixel>, buffer': seq<Pixel>)
    requires |buffer| == w * h && |F| == h && AllWidth(F, w) && i < h
    requires BmpCodec.Placed(Rows(buffer, w, h), F, h, bottomUp, i)
    requires start == BmpCodec.TargetRow(i, h, bottomUp) * w && row == F[i]
    requires 0 <= start && start + |row| <= |buffer| && buffer' == Splice(buffer, start, row)
    ensures |buffer'| == w * h
    ensures BmpCodec.Placed(Rows(buffer', w, h), F, h, bottomUp, i + 1)
  {
    var y := BmpCodec.TargetRow(i, h, bottomUp);
    SpliceRow(buffer, w, h, y, F[i]);
    BmpCodec.PlacedStep(Rows(buffer, w, h), F, h, bottomUp, i);
  }

  /** Copying a row over the slice [y·w, (y+1)·w) replaces image row y. */
  lemma SpliceRow(buffer: seq<Pixel>, w: nat, h: nat, y: nat, row: seq<Pixel>)
    requires |buffer| == w * h && y < h && |row| == w
    ensures y * w + w <= |buffer|
    ensures Rows(Splice(buffer, y * w, row), w, h) == Rows(buffer, w, h)[y := row]
  {
    RowsUpdate(buffer, w, h, y, row);
  }

  /** After all h rows the buffer is the file rows in image order. */
  lemma ReadDone(data: seq<byte>, offset: nat, w: nat, h: nat, bottomUp: bool,
                 buffer: seq<Pixel>, pos: int)
    requires ReadInv(data, offset, w, h, bottomUp, buffer, pos, h)
    ensures RowsPresent(data, offset, w, h)
    ensures RowTable(buffer, Starts(w, h)) == Table(FileOrder(CFileRows(data, offset, w, h), bottomUp), w)
  {
    var F := CFileRows(data, offset, w, h);
    BmpCodec.PlacedAll(Rows(buffer, w, h), F, h, bottomUp);
  }

  /** The write loop of save_bmp and bmp_save: rows h − 1 down to 0, each
      as w pixels followed by rowBytes − 3·w zero bytes. */
  method WriteRowsBottomUp(t: RowTable, w: nat, h: nat, rowBytes: nat) returns (out: seq<byte>)
    requires Covers(t, w, h) && 3 * w <= rowBytes
    ensures out == EncodeRows(Reverse(Image(t, w, h)), rowBytes)
  {
    ghost var image := Image(t, w, h);
    out := [];
    var r := h - 1;
    while r >= 0
      invariant -1 <= r < h
      invariant out == EncodeRows(Reverse(image)[..h - 1 - r], rowBytes)
    {
      var piece := RowPiece(t, w, h, r, rowBytes);
      WriteStep(image, w, h - 1 - r, r, rowBytes, piece);
      out := out + piece;
      r := r - 1;
    }
    assert Reverse(image)[..h] == Reverse(image);
  }

  /** One pass of the write loop: fwrite of the w pixels at rows[r], then
      of the padding bytes when there are any. */
  method RowPiece(t: RowTable, w: nat, h: nat, r: int, rowBytes: nat) returns (piece: seq<byte>)
    requires Covers(t, w, h) && 3 * w <= rowBytes && 0 <= r < h
    ensures piece == PixelBytes(Image(t, w, h)[r])
                     + (if rowBytes - 3 * w != 0 then Repeat(0, rowBytes - 3 * w) else [])
  {
    var padding := rowBytes - 3 * w;
    var row := t.buffer[t.starts[r]..t.starts[r] + w];
    assert row == Image(t, w, h)[r];
    piece := PixelBytes(row);
    if padding != 0 {
      piece := piece + Repeat(0, padding);
    }
  }

  /** Writing image row |R| − 1 − k (its pixels, then the padding when
      there is any) extends the written rows by one. */
  lemma WriteStep(R: seq<seq<Pixel>>, w: nat, k: nat, r: nat, size: nat, piece: seq<byte>)
    requires AllWidth(R, w) && 3 * w <= size && k < |R| && r == |R| - 1 - k
    requires piece == PixelBytes(R[r]) + (if size - 3 * w != 0 then Repeat(0, size - 3 * w) else [])
    ensures EncodeRows(Reverse(R)[..k + 1], size) == EncodeRows(Reverse(R)[..k], size) + piece
  {
    BmpCodec.WrittenRowsStep(R, w, k, size);
    var row := R[|R| - 1 - k];
    if size - 3 * w == 0 {
      assert PaddedRow(row, size) == PixelBytes(row) + [];
    }
  }

  // ------------------------------------------------------------ saved files

  /** A file made of a file header, an info header and rows written
      bottom-up: the headers read back as written. */
  lemma ParseHeaders(fh: FileHeader, ih: InfoHeader, pixels: seq<byte>)
    ensures |EncodeFileHeader(fh) + EncodeInfoHeader(ih) + pixels| >= FileHeaderSize + InfoHeaderSize
    ensures DecodeFileHeader(EncodeFileHeader(fh) + EncodeInfoHeader(ih) + pixels) == fh
    ensures DecodeInfoHeader((EncodeFileHeader(fh) + EncodeInfoHeader(ih) + pixels)[FileHeaderSize..]) == ih
  {
    var data := EncodeFileHeader(fh) + EncodeInfoHeader(ih) + pixels;
    assert data == EncodeFileHeader(fh) + (EncodeInfoHeader(ih) + pixels);
    FileHeaderRoundTrip(fh, EncodeInfoHeader(ih) + pixels);
    assert data[FileHeaderSize..] == EncodeInfoHeader(ih) + pixels;
    InfoHeaderRoundTrip(ih, pixels);
  }

  /** ... and the rows written bottom-up from byte 54 on read back, in file
      order, as the image rows reversed. */
  lemma ParseRows(header: seq<byte>, R: seq<seq<Pixel>>, w: nat)
    requires AllWidth(R, w)
    ensures |header + EncodeRows(Reverse(R), RowSize(w))| == |header| + |R| * RowSize(w)
    ensures RowsPresent(header + EncodeRows(Reverse(R), RowSize(w)), |header|, w, |R|)
    ensures CFileRows(header + EncodeRows(Reverse(R), RowSize(w)), |header|, w, |R|) == Reverse(R)
  {
    var pixels := EncodeRows(Reverse(R), RowSize(w));
    var data := header + pixels;
    assert data[|header|..] == pixels + [];
    DecodeEncodeRows(Reverse(R), w, RowSize(w), []);
    CFileRowsFull(data, |header|, w, |R|);
  }
}
