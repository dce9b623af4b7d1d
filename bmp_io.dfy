/** BmpIO::load and BmpIO::save of src/bmp/bmp_io.cpp: the checked codec.
    Every read is checked, the pixel section is read in one piece into a
    buffer of row_size·height bytes, and the save assembles the same
    layout in one zero-initialised buffer written at once. */
module BmpIO {
  import opened Wrappers
  import opened Seqs
  import opened BmpFormat
  import opened Image
  import opened Streams
  import opened BmpCodec

  /** row_size_bytes on a size_t: a negative int width converts to
      2⁶⁴ + width first and the arithmetic wraps modulo 2⁶⁴. */
  function RowSizeSizeT(w: int): (r: nat)
    ensures w >= 0 ==> r == RowSize(w)
  {
    if w >= 0 then RowSize(w) else Wrap64((Wrap64(Wrap64(w) * 24 + 31) / 32) * 4)
  }

  /** BmpIO::load(path); `file` is None when the file cannot be opened.
      It agrees with Decode on every file. */
  method Load(file: Option<seq<byte>>) returns (r: Result<Picture>)
    ensures file.None? ==> r == Err(CannotOpen)
    ensures file.Some? ==> r == Decode(file.value)
  {
    if file.None? {
      return Err(CannotOpen);
    }
    var data := file.value;
    var headers, s := ReadHeaders(data);
    if headers.Err? {
      return Err(headers.error);
    }
    var (fh, ih) := headers.value;
    if fh.signature != Signature {
      return Err(NotBmp);
    }
    if ih.headerSize != 40 || ih.planes != 1 || ih.bitsPerPixel != 24 || ih.compression != 0 {
      return Err(UnsupportedFormat);
    }

    var bottomUp := ih.height > 0;
    var width := ih.width;
    var height := Abs(ih.height);
    if width < 0 && height > 0 {
      return Err(LengthError);
    }
    SizesFit(width, height);
    var pixels := Repeat(Pixel(0, 0, 0), Wrap64(width * height));
    var rowSize := RowSizeSizeT(width);
    var buffer := Repeat(0, Wrap64(rowSize * height));
    s := Seek(s, fh.pixelOffset);
    var t := Read(s, |buffer|);
    PixelReadAgrees(data, fh.pixelOffset, width, height, t);
    if !t.1.good {
      return Err(TruncatedPixels);
    }
    buffer := t.0;
    if height == 0 || width == 0 {
      return Ok(Picture(width, height, []));
    }
    pixels := CopyRows(data, fh.pixelOffset, buffer, width, height, bottomUp, pixels);
    return Ok(Picture(width, height, pixels));
  }

  /** The two checked header reads of BmpIO::load: both succeed exactly
      when the file holds the 54 header bytes, and they deliver the
      headers Decode reads. */
  method ReadHeaders(data: seq<byte>) returns (r: Result<(FileHeader, InfoHeader)>, s: IStream)
    ensures r.Err? <==> |data| < PixelOffset
    ensures r.Err? ==> r.error == TruncatedHeader
    ensures r.Ok? ==> r.value == (DecodeFileHeader(data), DecodeInfoHeader(data[FileHeaderSize..]))
    ensures r.Ok? ==> s.good && s.data == data
  {
    s := Open(data);
    var t := Read(s, FileHeaderSize);
    if !t.1.good {
      return Err(TruncatedHeader), t.1;
    }
    s := t.1;
    var fh := DecodeFileHeader(t.0);
    t := Read(s, InfoHeaderSize);
    if !t.1.good {
      return Err(TruncatedHeader), t.1;
    }
    s := t.1;
    var ih := DecodeInfoHeader(t.0);
    HeadersRead(data, fh, ih);
    return Ok((fh, ih)), s;
  }

  /** Both pixel-section sizes of BmpIO::load are exact for a non-negative
      width and a height of at most 2³¹. */
  lemma SizesFit(w: int, h: nat)
    requires -0x8000_0000 <= w < 0x8000_0000 && h <= 0x8000_0000 && (h > 0 ==> w >= 0)
    ensures Wrap64(w * h) == w * h
    ensures w >= 0 ==> Wrap64(RowSizeSizeT(w) * h) == RowSize(w) * h
  {
    if w >= 0 {
      MulMono(w, 0x8000_0000, h);
      MulMono(h, 0x8000_0000, 0x8000_0000);
      MulMono(RowSize(w), 0x1_8000_0000, h);
      MulMono(h, 0x8000_0000, 0x1_8000_0000);
    } else {
      assert h == 0;
    }
  }

  /** The one-piece read of the pixel section succeeds exactly when the
      section is empty or the file holds all of it, and then delivers it. */
  lemma PixelReadAgrees(data: seq<byte>, offset: nat, w: int, h: nat, t: (seq<byte>, IStream))
    requires w >= 0 || h == 0
    requires t == Read(IStream(data, offset, true), Wrap64(RowSizeSizeT(w) * h))
    requires -0x8000_0000 <= w < 0x8000_0000 && h <= 0x8000_0000
    ensures h == 0 || w == 0 ==> t.1.good
    ensures h > 0 && w > 0 ==> (t.1.good <==> PixelsPresent(data, offset, w, h))
    ensures h > 0 && w > 0 && t.1.good ==> t.0 == data[offset..offset + h * RowSize(w)]
  {
    if h > 0 && w > 0 {
      SizesFit(w, h);
      assert RowSize(w) * h == h * RowSize(w);
      MulMono(1, h, RowSize(w));
    } else if h == 0 {
      assert RowSizeSizeT(w) * h == 0;
    } else {
      assert RowSize(0) == 0;
    }
  }

  /** The copy loop of BmpIO::load: file row `row` of the buffer goes to
      image row TargetRow(row). */
  method CopyRows(ghost data: seq<byte>, ghost offset: nat, buffer: seq<byte>, width: nat, height: nat,
                  bottomUp: bool, pixels0: seq<Pixel>) returns (pixels: seq<Pixel>)
    requires |pixels0| == width * height && offset + height * RowSize(width) <= |data|
    requires buffer == data[offset..offset + height * RowSize(width)]
    ensures pixels == FilePixels(data, offset, width, height, bottomUp)
  {
    pixels := pixels0;
    var row := 0;
    while row < height
      invariant CopyInv(data, offset, width, height, bottomUp, pixels, row)
    {
      pixels := CopyRow(data, offset, buffer, width, height, bottomUp, pixels, row);
      row := row + 1;
    }
    CopyDone(data, offset, width, height, bottomUp, pixels);
  }

  /** One pass of the copy loop: file row `row`, at row·row_size in the
      buffer, replaces image row TargetRow(row). */
  method CopyRow(ghost data: seq<byte>, ghost offset: nat, buffer: seq<byte>, width: nat, height: nat,
                 bottomUp: bool, pixels: seq<Pixel>, row: nat) returns (next: seq<Pixel>)
    requires offset + height * RowSize(width) <= |data|
    requires buffer == data[offset..offset + height * RowSize(width)]
    requires CopyInv(data, offset, width, height, bottomUp, pixels, row) && row < height
    ensures CopyInv(data, offset, width, height, bottomUp, next, row + 1)
  {
    var start := row * RowSize(width);
    var y := if bottomUp then height - 1 - row else row;
    assert y == TargetRow(row, height, bottomUp);
    BufferRow(data, offset, buffer, width, height, row, start);
    var pixelRow := DecodePixels(buffer[start..], width);
    next := ReplaceRow(pixels, width, height, y, pixelRow);
    CopyStep(data, offset, width, height, bottomUp, pixels, row, next);
  }

  /** With every file row placed, the image is the file's pixels. */
  lemma CopyDone(data: seq<byte>, offset: nat, w: nat, h: nat, bottomUp: bool, pixels: seq<Pixel>)
    requires offset + h * RowSize(w) <= |data|
    requires CopyInv(data, offset, w, h, bottomUp, pixels, h)
    ensures pixels == FilePixels(data, offset, w, h, bottomUp)
  {
    PlacedAll(Rows(pixels, w, h), FileRows(data, offset, w, h), h, bottomUp);
  }

  /** The copy loop's invariant: `row` file rows placed. */
  ghost predicate CopyInv(data: seq<byte>, offset: nat, w: nat, h: nat, bottomUp: bool,
                          pixels: seq<Pixel>, row: nat)
    requires offset + h * RowSize(w) <= |data|
  {
    && row <= h && |pixels| == w * h
    && Placed(Rows(pixels, w, h), FileRows(data, offset, w, h), h, bottomUp, row)
  }

  /** Copying file row `row` into its image row keeps the invariant. */
  lemma CopyStep(data: seq<byte>, offset: nat, w: nat, h: nat, bottomUp: bool,
                 pixels: seq<Pixel>, row: nat, next: seq<Pixel>)
    requires offset + h * RowSize(w) <= |data|
    requires CopyInv(data, offset, w, h, bottomUp, pixels, row) && row < h
    requires |FileRows(data, offset, w, h)[row]| == w
    requires next == ReplaceRow(pixels, w, h, TargetRow(row, h, bottomUp), FileRows(data, offset, w, h)[row])
    ensures CopyInv(data, offset, w, h, bottomUp, next, row + 1)
  {
    PlacedStep(Rows(pixels, w, h), FileRows(data, offset, w, h), h, bottomUp, row);
  }

  /** The headers read by the two checked reads are those Decode reads. */
  lemma HeadersRead(data: seq<byte>, fh: FileHeader, ih: InfoHeader)
    requires PixelOffset <= |data|
    requires fh == DecodeFileHeader(data[0..FileHeaderSize])
    requires ih == DecodeInfoHeader(data[FileHeaderSize..PixelOffset])
    ensures fh == DecodeFileHeader(data) && ih == DecodeInfoHeader(data[FileHeaderSize..])
  {
    FileHeaderPrefix(data[0..FileHeaderSize], data);
    InfoHeaderPrefix(data[FileHeaderSize..PixelOffset], data[FileHeaderSize..]);
  }

  lemma SlicePrefix(a: seq<byte>, d: seq<byte>, start: nat, n: nat)
    requires |a| <= |d| && a == d[..|a|] && start + n <= |a|
    ensures a[start..][..n] == d[start..][..n]
  {
  }

  /** File row `row` starts at row·row_size in the buffer. */
  lemma BufferRow(data: seq<byte>, offset: nat, buffer: seq<byte>, w: nat, h: nat, row: nat, start: int)
    requires row < h && offset + h * RowSize(w) <= |data|
    requires buffer == data[offset..offset + h * RowSize(w)]
    requires start == row * RowSize(w)
    ensures 0 <= start && start + 3 * w <= |buffer|
    ensures DecodePixels(buffer[start..], w) == FileRows(data, offset, w, h)[row]
  {
    var rs := RowSize(w);
    MulMono(row + 1, h, rs);
    MulStep(row + 1, rs);
    var d := data[offset..];
    assert buffer == d[..h * rs];
    DecodeRowsIndex(d, w, h, rs, row);
    SlicePrefix(buffer, d, start, 3 * w);
    DecodePixelsPrefix(buffer[start..], d[start..], w);
  }

  /** BmpIO::save(bmp, path): runtime_error "Cannot create file" when the
      ofstream does not open (`canCreate` false); otherwise the bytes the
      file receives, the two headers and then the one zero-initialised
      buffer into which row `row` of the file receives image row
      h - 1 - row. The loop runs to the height taken as a size_t, so a
      negative height is left out (see NegativeHeightSizes). */
  method Save(b: Bmp, canCreate: bool) returns (r: Result<seq<byte>>)
    requires b.Valid() && IsI32(b.width) && IsI32(b.height) && b.height >= 0
    ensures !canCreate ==> r == Err(CannotOpen)
    ensures canCreate ==> r == Ok(SavedFile(b.Value()))
  {
    if !canCreate {
      return Err(CannotOpen);
    }
    if b.height > 0 {
      WidthOfValid(b.Value());
    }
    var header := SaveHeaders(b.width, b.height);
    var buffer := FillBuffer(b);
    return Ok(header + buffer);
  }

  /** Why a negative height is outside the model of BmpIO::save: the
      buffer size row_size·height wraps modulo 2⁶⁴ while the row loop runs
      2⁶⁴ - |height| times. For width -1 the row size is 0, so the buffer
      is empty; for width -2 and height -8 the buffer has 32 bytes. */
  lemma NegativeHeightSizes()
    ensures RowSizeSizeT(-1) == 0 && Wrap64(RowSizeSizeT(-1) * Wrap64(-3)) == 0
    ensures Wrap64(RowSizeSizeT(-2) * Wrap64(-8)) == 32
    ensures Wrap64(-8) == 0x1_0000_0000_0000_0000 - 8
  {
    var m := 0x1_0000_0000_0000_0000;
    assert Wrap64(-1) == m - 1;
    assert Wrap64((m - 1) * 24 + 31) == 7;
    assert Wrap64(-2) == m - 2;
    assert Wrap64((m - 2) * 24 + 31) == m - 17;
    assert (m - 17) / 32 * 4 == 0x2000_0000_0000_0000 - 4;
    assert RowSizeSizeT(-2) == 0x2000_0000_0000_0000 - 4;
    assert (0x2000_0000_0000_0000 - 4) * (m - 8) == (0x2000_0000_0000_0000 - 5) * m + 32;
  }

  /** The two headers of BmpIO::save, computed with size_t sizes. */
  method SaveHeaders(w: i32, h: i32) returns (header: seq<byte>)
    requires h >= 0 && (h > 0 ==> w >= 0)
    ensures header == EncodeFileHeader(SaveFileHeader(w, h)) + EncodeInfoHeader(SaveInfoHeader(w, h))
  {
    var rowSize := RowSizeSizeT(w);
    var imageSize := Wrap64(rowSize * h);
    var fh := FileHeader(Signature, Wrap32(PixelOffset + imageSize), 0, 0, PixelOffset);
    var ih := InfoHeader(InfoHeaderSize, w, h, 1, 24, 0, Wrap32(imageSize), 0, 0, 0, 0);
    SaveSizes(w, h);
    header := EncodeFileHeader(fh) + EncodeInfoHeader(ih);
  }

  /** The pixel buffer of BmpIO::save: row_size·height zero bytes, and
      then the copy loop, bottom-up. */
  method FillBuffer(b: Bmp) returns (buffer: seq<byte>)
    requires b.Valid() && IsI32(b.width) && IsI32(b.height) && b.height >= 0
    ensures buffer == SavedPixels(b.Value())
  {
    if b.height > 0 {
      WidthOfValid(b.Value());
    }
    var rowSize := RowSizeSizeT(b.width);
    SaveSizes(b.width, b.height);
    buffer := Repeat(0, Wrap64(rowSize * b.height));
    if b.height == 0 {
      return;
    }
    ghost var rows := Rows(b.pixels, b.width, b.height);
    var row := 0;
    while row < b.height
      invariant 0 <= row <= b.height && BufferInv(rows, b.width, row, buffer)
    {
      var y := b.height - 1 - row;
      var r := RowSlice(b.pixels, b.width, b.height, y);
      BufferStep(rows, b.width, row, buffer);
      buffer := Splice(buffer, row * rowSize, PixelBytes(r));
      row := row + 1;
    }
    assert Reverse(rows)[..b.height] == Reverse(rows);
  }

  /** The size_t sizes of the save agree with the uint32 ones SavedFile
      describes: image_size is exact, and reducing 54 + image_size to
      uint32 gives the same file size. */
  lemma SaveSizes(w: int, h: int)
    requires IsI32(w) && IsI32(h) && h >= 0 && (h > 0 ==> w >= 0)
    ensures w >= 0 ==> Wrap64(RowSizeSizeT(w) * h) == RowSize(w) * h
    ensures h == 0 ==> Wrap64(RowSizeSizeT(w) * h) == 0
    ensures Wrap32(Wrap64(RowSizeSizeT(w) * h)) == ImageSize(w, h)
    ensures Wrap32(PixelOffset + Wrap64(RowSizeSizeT(w) * h)) == Wrap32(PixelOffset + ImageSize(w, h))
  {
    if w >= 0 {
      SizesFit(w, h);
      var x := RowSize(w) * h;
      Wrap32Add(PixelOffset, x);
    } else {
      assert h == 0;
      assert RowSizeSizeT(w) * h == 0;
      assert RowSizeU32(w) * h == 0;
    }
  }

  /** Reducing modulo 2³² before or after adding a gives the same value. */
  lemma Wrap32Add(a: nat, x: nat)
    ensures Wrap32(a + Wrap32(x)) == Wrap32(a + x)
  {
    var q := x / 0x1_0000_0000;
    assert a + x == (a + Wrap32(x)) + q * 0x1_0000_0000;
    assert (a + x) / 0x1_0000_0000 == (a + Wrap32(x)) / 0x1_0000_0000 + q;
  }

  /** After `row` iterations the buffer holds the first `row` rows of the
      reversed image, padded, and zeros after them. */
  ghost predicate BufferInv(rows: seq<seq<Pixel>>, w: int, row: nat, buffer: seq<byte>)
  {
    && row <= |rows| && w >= 0 && AllWidth(rows, w)
    && buffer == EncodeRows(Reverse(rows)[..row], RowSize(w)) + Repeat(0, (|rows| - row) * RowSize(w))
  }

  /** One iteration: copying image row |rows| - 1 - row to offset
      row·row_size extends the written part by one padded row. */
  lemma BufferStep(rows: seq<seq<Pixel>>, w: nat, row: nat, buffer: seq<byte>)
    requires BufferInv(rows, w, row, buffer) && row < |rows|
    ensures row * RowSize(w) + 3 * w <= |buffer|
    ensures BufferInv(rows, w, row + 1, Splice(buffer, row * RowSize(w), PixelBytes(rows[|rows| - 1 - row])))
  {
    var rs := RowSize(w);
    var e := EncodeRows(Reverse(rows)[..row], rs);
    var n := |rows| - row;
    MulStep(n, rs);
    assert |rows| - (row + 1) == n - 1;
    WrittenRowsStep(rows, w, row, rs);
    RowIntoZeros(e, rows[|rows| - 1 - row], rs, (n - 1) * rs, buffer,
                 EncodeRows(Reverse(rows)[..row + 1], rs));
  }

  /** The product-free core of BufferStep: the row written at the end of
      the rows already placed lands over zeros, whose rest stays zero. */
  lemma RowIntoZeros(e: seq<byte>, r: seq<Pixel>, rs: nat, q: nat, buffer: seq<byte>, written: seq<byte>)
    requires 3 * |r| <= rs && buffer == e + Repeat(0, q + rs) && written == e + PaddedRow(r, rs)
    ensures |e| + 3 * |r| <= |buffer|
    ensures Splice(buffer, |e|, PixelBytes(r)) == written + Repeat(0, q)
  {
    ZerosAfter(e, q, rs);
    RowOverZeros(e, r, rs, Repeat(0, q), written);
  }

  lemma ZerosAfter(e: seq<byte>, q: nat, rs: nat)
    ensures e + Repeat(0, q + rs) == e + Repeat(0, rs) + Repeat(0, q)
  {
    assert Repeat(0 as byte, q + rs) == Repeat(0, rs) + Repeat(0, q);
  }


  /** Copying a row's pixels over the zeroed row after the written part e
      gives the written part extended by the padded row. */
  lemma RowOverZeros(e: seq<byte>, r: seq<Pixel>, rs: nat, z: seq<byte>, written: seq<byte>)
    requires 3 * |r| <= rs && written == e + PaddedRow(r, rs)
    ensures Splice(e + Repeat(0, rs) + z, |e|, PixelBytes(r)) == written + z
  {
    SpliceAfter(e, Repeat(0, rs), z, PixelBytes(r));
    ZerosTail(rs, 3 * |r|);
    PaddedRowParts(r, rs);
  }

  /** A padded row is the row's pixel bytes followed by zeros. */
  lemma PaddedRowParts(r: seq<Pixel>, rs: nat)
    requires 3 * |r| <= rs
    ensures PaddedRow(r, rs) == PixelBytes(r) + Repeat(0 as byte, rs - 3 * |r|)
  {
  }

  /** Dropping k of n zeros leaves n − k zeros. */
  lemma ZerosTail(n: nat, k: nat)
    requires k <= n
    ensures Repeat(0 as byte, n)[k..] == Repeat(0 as byte, n - k)
  {
  }

  /** Splicing t over the front of the part p between e and z. */
  lemma SpliceAfter(e: seq<byte>, p: seq<byte>, z: seq<byte>, t: seq<byte>)
    requires |t| <= |p|
    ensures Splice(e + p + z, |e|, t) == e + (t + p[|t|..]) + z
  {
    var s := e + p + z;
    assert s[..|e|] == e;
    assert s[|e| + |t|..] == p[|t|..] + z;
  }
}
