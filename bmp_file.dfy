/** Bmp::load and Bmp::save of src/bmp/bmp.cpp: the codec of the C++ image
    class. The loader reads without checking its reads: a short file leaves
    the value-initialised header structs partly zero, and a short pixel
    section leaves rows from the stale row buffer. */
module BmpFile {
  import opened Wrappers
  import opened Seqs
  import opened BmpFormat
  import opened Image
  import opened Streams
  import opened BmpCodec

  /** What an unchecked read of n bytes at offset `from` leaves in a
      zero-initialised struct: the bytes present, then zeros. */
  function ZeroFilled(data: seq<byte>, from: nat, n: nat): (r: seq<byte>)
    ensures |r| == n
    ensures from + n <= |data| ==> r == data[from..from + n]
    ensures from >= |data| ==> r == Repeat(0, n)
  {
    if from >= |data| then Repeat(0, n)
    else if from + n <= |data| then data[from..from + n]
    else Overlay(Repeat(0, n), data[from..])
  }

  /** The file header as Bmp::load sees it. */
  function LoadedFileHeader(data: seq<byte>): (fh: FileHeader)
    ensures |data| >= FileHeaderSize ==> fh == DecodeFileHeader(data)
  {
    DecodeFileHeader(ZeroFilled(data, 0, FileHeaderSize))
  }

  /** The info header as Bmp::load sees it; all zero when the file header
      was already short, since the failed stream then reads nothing. */
  function LoadedInfoHeader(data: seq<byte>): (ih: InfoHeader)
    ensures |data| >= PixelOffset ==> ih == DecodeInfoHeader(data[FileHeaderSize..])
  {
    DecodeInfoHeader(ZeroFilled(data, FileHeaderSize, InfoHeaderSize))
  }

  /** Bmp::load(path); `file` is None when the file cannot be opened.
      Header problems are reported in the order the loader checks them; a
      negative width·height makes the vector throw length_error; otherwise
      the image has width `width` and height |height|, and when both headers
      and all pixel rows are present it holds exactly the rows of the file,
      bottom-up for a positive height. On every file the strict decoder accepts, this
      loader returns the same image. */
  method Load(file: Option<seq<byte>>) returns (r: Result<Picture>)
    ensures file.None? ==> r == Err(CannotOpen)
    ensures file.Some? ==>
      var fh, ih := LoadedFileHeader(file.value), LoadedInfoHeader(file.value);
      && (LoadCheck(fh, ih).Some? ==> r == Err(LoadCheck(fh, ih).value))
      && (LoadCheck(fh, ih).None? ==>
            (r.Err? <==> ih.width * Abs(ih.height) < 0) && (r.Err? ==> r.error == LengthError))
      && (r.Ok? ==> r.value.Valid() && r.value.width == ih.width && r.value.height == Abs(ih.height))
      && (r.Ok? && |file.value| >= PixelOffset
            && PixelsPresent(file.value, fh.pixelOffset, ih.width, Abs(ih.height)) ==>
            r.value.pixels == FilePixels(file.value, fh.pixelOffset, ih.width, Abs(ih.height), ih.height > 0))
    ensures file.Some? && Decode(file.value).Ok? ==> r == Decode(file.value)
  {
    if file.None? {
      return Err(CannotOpen);
    }
    var data := file.value;
    var fh, ih, s := ReadHeaders(data);

    if fh.signature != Signature {
      return Err(NotBmp);
    }
    if ih.headerSize != 40 {
      return Err(UnsupportedHeader);
    }
    if ih.planes != 1 || ih.bitsPerPixel != 24 {
      return Err(UnsupportedDepth);
    }
    if ih.compression != 0 {
      return Err(Compressed);
    }

    var bottomUp := ih.height > 0;
    var width: int := ih.width;
    var height: nat := Abs(ih.height);
    if width * height < 0 {
      return Err(LengthError);
    }
    NegativeProduct(width, height);
    var pixels := Repeat(Pixel(0, 0, 0), width * height);
    s := Seek(s, fh.pixelOffset);
    pixels := ReadRows(s, width, height, bottomUp, pixels);
    return Ok(Picture(width, height, pixels));
  }

  /** The two unchecked header reads into value-initialised structs. */
  method ReadHeaders(data: seq<byte>) returns (fh: FileHeader, ih: InfoHeader, s: IStream)
    ensures fh == LoadedFileHeader(data) && ih == LoadedInfoHeader(data)
    ensures s.data == data && (|data| >= PixelOffset ==> s.good)
  {
    s := Open(data);
    ReadZeroFilled(s, 0, FileHeaderSize);
    var t := Read(s, FileHeaderSize);
    s := t.1;
    fh := DecodeFileHeader(Overlay(Repeat(0, FileHeaderSize), t.0));
    ReadZeroFilled(s, FileHeaderSize, InfoHeaderSize);
    t := Read(s, InfoHeaderSize);
    s := t.1;
    ih := DecodeInfoHeader(Overlay(Repeat(0, InfoHeaderSize), t.0));
  }

  /** An unchecked read of n bytes into a zeroed struct, from a stream that
      is at `from` when good and has failed only past the end of the file. */
  lemma ReadZeroFilled(s: IStream, from: nat, n: nat)
    requires s.good ==> s.pos == from
    requires !s.good ==> from >= |s.data|
    ensures Overlay(Repeat(0, n), Read(s, n).0) == ZeroFilled(s.data, from, n)
    ensures Read(s, n).1.data == s.data
    ensures Read(s, n).1.good ==> Read(s, n).1.pos == from + n
    ensures !Read(s, n).1.good ==> from + n >= |s.data|
    ensures from + n <= |s.data| && s.good ==> Read(s, n).1.good
  {
    var got := Read(s, n).0;
    if s.good && from < |s.data| && from + n > |s.data| {
      assert got == s.data[from..];
    }
  }

  /** The row loop of Bmp::load: `height` unchecked reads of row_size bytes
      into one row buffer, each copied into image row TargetRow. When the
      stream is good and all rows are present the image is the file's rows. */
  method ReadRows(s0: IStream, width: int, height: nat, bottomUp: bool, pixels0: seq<Pixel>)
    returns (pixels: seq<Pixel>)
    requires |pixels0| == width * height && (height > 0 ==> width >= 0)
    ensures |pixels| == width * height
    ensures s0.good && PixelsPresent(s0.data, s0.pos, width, height) ==>
              pixels == FilePixels(s0.data, s0.pos, width, height, bottomUp)
  {
    pixels := pixels0;
    var rowSize := RowSizeU32(width);
    var row := Repeat(0, rowSize);
    var s := s0;
    var rowIndex := 0;
    while rowIndex < height
      invariant 0 <= rowIndex <= height
      invariant |pixels| == width * height && |row| == rowSize
      invariant RowsInv(s0, s, pixels, width, height, bottomUp, rowIndex)
    {
      s, row, pixels := ReadOneRow(s0, s, row, pixels, width, height, bottomUp, rowIndex);
      rowIndex := rowIndex + 1;
    }
    if s0.good && PixelsPresent(s0.data, s0.pos, width, height) {
      PlacedAll(Rows(pixels, width, height), FileRows(s0.data, s0.pos, width, height), height, bottomUp);
    }
  }

  /** One pass of the row loop: read row_size bytes over the row buffer
      and copy the buffer's pixels into image row TargetRow(rowIndex). */
  method ReadOneRow(s0: IStream, s: IStream, row: seq<byte>, pixels: seq<Pixel>, width: int,
                    height: nat, bottomUp: bool, rowIndex: nat)
    returns (s': IStream, row': seq<byte>, pixels': seq<Pixel>)
    requires rowIndex < height && width >= 0
    requires |pixels| == width * height && |row| == RowSize(width)
    requires RowsInv(s0, s, pixels, width, height, bottomUp, rowIndex)
    ensures |pixels'| == width * height && |row'| == RowSize(width)
    ensures s' == Read(s, RowSize(width)).1 && row' == Overlay(row, Read(s, RowSize(width)).0)
    ensures pixels' == ReplaceRow(pixels, width, height, TargetRow(rowIndex, height, bottomUp),
                                  DecodePixels(row', width))
    ensures RowsInv(s0, s', pixels', width, height, bottomUp, rowIndex + 1)
  {
    var rowSize := RowSizeU32(width);
    var y := if bottomUp then height - 1 - rowIndex else rowIndex;
    var t := Read(s, rowSize);
    s' := t.1;
    row' := Overlay(row, t.0);
    pixels' := ReplaceRow(pixels, width, height, y, DecodePixels(row', width));
    RowsStep(s0, s, pixels, width, height, bottomUp, rowIndex, row);
  }

  /** The row loop's invariant: when the pixel rows are all present, the
      stream is good and at the start of row `count`, and the first `count`
      file rows are in place. */
  ghost predicate RowsInv(s0: IStream, s: IStream, pixels: seq<Pixel>, width: int, height: nat,
                          bottomUp: bool, count: nat)
    requires |pixels| == width * height && count <= height
  {
    && s.data == s0.data
    && (s0.good && PixelsPresent(s0.data, s0.pos, width, height) ==>
          && s.good && s.pos == s0.pos + count * RowSize(width)
          && Placed(Rows(pixels, width, height), FileRows(s0.data, s0.pos, width, height),
                    height, bottomUp, count))
  }

  /** One iteration of the row loop keeps RowsInv. */
  lemma RowsStep(s0: IStream, s: IStream, pixels: seq<Pixel>, width: int, height: nat, bottomUp: bool,
                 index: nat, row: seq<byte>)
    requires |pixels| == width * height && index < height && width >= 0
    requires |row| == RowSize(width)
    requires RowsInv(s0, s, pixels, width, height, bottomUp, index)
    ensures var t := Read(s, RowSize(width));
      var newRow := Overlay(row, t.0);
      var y := TargetRow(index, height, bottomUp);
      && RowsInv(s0, t.1, ReplaceRow(pixels, width, height, y, DecodePixels(newRow, width)),
                 width, height, bottomUp, index + 1)
  {
    var y := TargetRow(index, height, bottomUp);
    var t := Read(s, RowSize(width));
    var after := ReplaceRow(pixels, width, height, y, DecodePixels(Overlay(row, t.0), width));
    if s0.good && PixelsPresent(s0.data, s0.pos, width, height) {
      LoadRowStep(s0.data, s0.pos, pixels, width, height, bottomUp, index, s);
      assert Overlay(row, t.0) == t.0;
      assert RowsInv(s0, t.1, after, width, height, bottomUp, index + 1);
    } else {
      assert RowsInv(s0, t.1, after, width, height, bottomUp, index + 1);
    }
  }

  /** Bmp::save(path): runtime_error "Cannot create file" when the
      ofstream does not open (`canCreate` false); otherwise the bytes the
      file receives, the two headers, then the rows from the last image
      row to the first, each copied into one zero-initialised row buffer of
      row_size bytes whose padding therefore stays zero. */
  method Save(b: Bmp, canCreate: bool) returns (r: Result<seq<byte>>)
    requires b.Valid() && IsI32(b.width) && IsI32(b.height)
    ensures !canCreate ==> r == Err(CannotOpen)
    ensures canCreate ==> r == Ok(SavedFile(b.Value()))
  {
    if !canCreate {
      return Err(CannotOpen);
    }
    var fh := SaveFileHeader(b.width, b.height);
    var ih := SaveInfoHeader(b.width, b.height);
    var out := EncodeFileHeader(fh) + EncodeInfoHeader(ih);
    out := WriteRows(out, b.Value());
    return Ok(out);
  }

  /** The row loop of Bmp::save, appending to what was written so far. */
  method WriteRows(header: seq<byte>, p: Picture) returns (out: seq<byte>)
    requires p.Valid()
    ensures out == header + SavedPixels(p)
  {
    out := header;
    if p.height <= 0 {
      return;
    }
    WidthOfValid(p);
    var rowSize := RowSizeU32(p.width);
    var row := Repeat(0, rowSize);
    ghost var rows := Rows(p.pixels, p.width, p.height);
    var y := p.height - 1;
    while y >= 0
      invariant SaveInv(rows, p.width, y, row, header, out)
    {
      var r := RowSlice(p.pixels, p.width, p.height, y);
      SaveStep(rows, p.width, y, row, header, out);
      row := PixelBytes(r) + row[3 * p.width..];
      out := out + row;
      y := y - 1;
    }
    assert Reverse(rows)[..p.height] == Reverse(rows);
  }

  /** The save loop's invariant: the rows below y have been written, last
      image row first, and the row buffer's padding is still zero. */
  ghost predicate SaveInv(rows: seq<seq<Pixel>>, w: int, y: int, row: seq<byte>,
                          header: seq<byte>, out: seq<byte>)
  {
    && -1 <= y < |rows| && w >= 0 && AllWidth(rows, w)
    && |row| == RowSize(w) && row[3 * w..] == Repeat(0, RowSize(w) - 3 * w)
    && out == header + EncodeRows(Reverse(rows)[..|rows| - 1 - y], RowSize(w))
  }

  /** One iteration: the buffer now holds row y padded with zeros, and
      appending it extends the written rows by image row y. */
  lemma SaveStep(rows: seq<seq<Pixel>>, w: nat, y: nat, row: seq<byte>, header: seq<byte>,
                 out: seq<byte>)
    requires SaveInv(rows, w, y, row, header, out)
    ensures var next := PixelBytes(rows[y]) + row[3 * w..];
      SaveInv(rows, w, y - 1, next, header, out + next)
  {
    var next := PixelBytes(rows[y]) + row[3 * w..];
    SaveBuffer(rows[y], row, w);
    AppendWritten(rows, w, y, header, out, next);
  }

  /** The buffer after copying row r over it is r padded with zeros, and
      its padding is still zero. */
  lemma SaveBuffer(r: seq<Pixel>, row: seq<byte>, w: nat)
    requires |r| == w && |row| == RowSize(w) && row[3 * w..] == Repeat(0, RowSize(w) - 3 * w)
    ensures var next := PixelBytes(r) + row[3 * w..];
      && next == PaddedRow(r, RowSize(w)) && |next| == RowSize(w)
      && next[3 * w..] == Repeat(0, RowSize(w) - 3 * w)
  {
    var next := PixelBytes(r) + row[3 * w..];
    PaddedRowBuffer(r, row, RowSize(w));
    assert next[3 * w..] == row[3 * w..];
  }

  /** Appending padded image row y to the rows written after it gives the
      rows written down to y. */
  lemma AppendWritten(rows: seq<seq<Pixel>>, w: nat, y: nat, header: seq<byte>, out: seq<byte>,
                      next: seq<byte>)
    requires y < |rows| && AllWidth(rows, w)
    requires out == header + EncodeRows(Reverse(rows)[..|rows| - 1 - y], RowSize(w))
    requires next == PaddedRow(rows[y], RowSize(w))
    ensures out + next == header + EncodeRows(Reverse(rows)[..|rows| - y], RowSize(w))
  {
    var k := |rows| - 1 - y;
    assert |rows| - 1 - k == y && k + 1 == |rows| - y;
    WrittenRowsStep(rows, w, k, RowSize(w));
    AppendAfter(header, EncodeRows(Reverse(rows)[..k], RowSize(w)), next, out,
                EncodeRows(Reverse(rows)[..k + 1], RowSize(w)));
  }

  /** Regrouping an append after a header. */
  lemma AppendAfter(header: seq<byte>, written: seq<byte>, next: seq<byte>, out: seq<byte>,
                    whole: seq<byte>)
    requires out == header + written && whole == written + next
    ensures out + next == header + whole
  {
  }

  /** Copying a row's pixels over the front of a buffer whose tail is zero
      gives the padded row. */
  lemma PaddedRowBuffer(r: seq<Pixel>, buf: seq<byte>, size: nat)
    requires 3 * |r| <= size && |buf| == size && buf[3 * |r|..] == Repeat(0, size - 3 * |r|)
    ensures PixelBytes(r) + buf[3 * |r|..] == PaddedRow(r, size)
  {
  }

  /** Reading file row `index` from a stream at its start and copying its
      pixels into image row TargetRow(index) places one more row and leaves
      the stream at the next row. */
  lemma LoadRowStep(data: seq<byte>, offset: nat, pixels: seq<Pixel>, w: nat, h: nat, bottomUp: bool,
                    index: nat, s: IStream)
    requires index < h && |pixels| == w * h && offset + h * RowSize(w) <= |data|
    requires s.data == data && s.good && s.pos == offset + index * RowSize(w)
    requires Placed(Rows(pixels, w, h), FileRows(data, offset, w, h), h, bottomUp, index)
    ensures var got := Read(s, RowSize(w)).0;
      var y := TargetRow(index, h, bottomUp);
      && |got| == RowSize(w) && Read(s, RowSize(w)).1.good
      && Read(s, RowSize(w)).1.pos == offset + (index + 1) * RowSize(w)
      && Placed(Rows(ReplaceRow(pixels, w, h, y, DecodePixels(got, w)), w, h),
                FileRows(data, offset, w, h), h, bottomUp, index + 1)
  {
    var y := TargetRow(index, h, bottomUp);
    var got := Read(s, RowSize(w)).0;
    ReadRow(data, offset, w, h, index, s);
    PlacedStep(Rows(pixels, w, h), FileRows(data, offset, w, h), h, bottomUp, index);
  }

  /** The stream at the start of file row `index` delivers the whole row,
      and its pixels are file row `index`. */
  lemma ReadRow(data: seq<byte>, offset: nat, w: nat, h: nat, index: nat, s: IStream)
    requires index < h && offset + h * RowSize(w) <= |data|
    requires s.data == data && s.good && s.pos == offset + index * RowSize(w)
    ensures var got := Read(s, RowSize(w)).0;
      && |got| == RowSize(w) && Read(s, RowSize(w)).1.good
      && Read(s, RowSize(w)).1.pos == offset + (index + 1) * RowSize(w)
      && DecodePixels(got, w) == FileRows(data, offset, w, h)[index]
  {
    var rs := RowSize(w);
    FileRowAt(data, offset, w, h, index);
    MulStep(index + 1, rs);
    var start := offset + index * rs;
    assert Read(s, rs).0 == data[start..start + rs];
  }
}
