/** What the two C++ codecs (Bmp::load/save in src/bmp/bmp.cpp and
    BmpIO::load/save in src/bmp/bmp_io.cpp) write and read, as functions on
    byte sequences: the file a save produces, the header checks of each
    loader and the strict decoding of BmpIO::load. The methods that model
    the codecs step by step are proved against these functions. */
module BmpCodec {
  import opened Wrappers
  import opened Seqs
  import opened BmpFormat
  import opened Image

  /** sizeof(BmpFileHeader) + sizeof(BmpInfoHeader). */
  const PixelOffset: nat := 54

  predicate IsI32(x: int) {
    -0x8000_0000 <= x < 0x8000_0000
  }

  /** A valid picture with a positive height has a non-negative width. */
  lemma WidthOfValid(p: Picture)
    requires p.Valid() && p.height > 0
    ensures p.width >= 0
  {
    NegativeProduct(p.width, p.height);
  }

  lemma NegativeProduct(a: int, b: int)
    ensures b > 0 && a < 0 ==> a * b < 0
  {
    if b > 0 && a < 0 {
      assert (-a - 1) * b >= 0;
    }
  }

  /** row_size of the C++ Bmp (a uint32 computed from an int width). For a
      negative width this is the negative int converted to uint32. */
  function RowSizeU32(w: int): (r: nat)
    ensures w >= 0 ==> r == RowSize(w)
    ensures w < 0 ==> r == Wrap32(RowSizeInt(w))
  {
    if w >= 0 then RowSize(w) else Wrap32(RowSizeInt(w))
  }

  /** image_size = row_size · height in uint32 arithmetic. */
  function ImageSize(w: int, h: int): (r: u32)
    ensures 0 <= w && 0 <= h && RowSize(w) * h < 0x1_0000_0000 ==> r == RowSize(w) * h
  {
    Wrap32(RowSizeU32(w) * h)
  }

  /** The file header both saves write: 'B','M', offset 54 and file size
      54 + image_size, reduced to uint32. */
  function SaveFileHeader(w: int, h: int): (fh: FileHeader)
    ensures fh.signature == Signature && fh.pixelOffset == PixelOffset
    ensures fh.fileSize == Wrap32(PixelOffset + ImageSize(w, h))
    ensures fh.reserved1 == 0 && fh.reserved2 == 0
  {
    FileHeader(Signature, Wrap32(PixelOffset + ImageSize(w, h)), 0, 0, PixelOffset)
  }

  /** The info header both saves write: a value-initialised struct with the
      BITMAPINFOHEADER size, the dimensions, one plane, 24 bits per pixel,
      no compression and image_size. */
  function SaveInfoHeader(w: i32, h: i32): (ih: InfoHeader)
    ensures ih.headerSize == InfoHeaderSize && ih.width == w && ih.height == h
    ensures ih.planes == 1 && ih.bitsPerPixel == 24 && ih.compression == 0
    ensures ih.imageSize == ImageSize(w, h)
    ensures ih.xPixelsPerMeter == 0 && ih.yPixelsPerMeter == 0
    ensures ih.colorsUsed == 0 && ih.colorsImportant == 0
  {
    InfoHeader(InfoHeaderSize, w, h, 1, 24, 0, ImageSize(w, h), 0, 0, 0, 0)
  }

  /** The pixel data of a save: the image rows from the last to the first,
      each padded to RowSize(width); nothing for a non-positive height. */
  function SavedPixels(p: Picture): (s: seq<byte>)
    requires p.Valid()
    ensures p.height > 0 ==> p.width >= 0 && |s| == p.height * RowSize(p.width)
    ensures p.height <= 0 ==> s == []
  {
    if p.height > 0 then
      WidthOfValid(p);
      EncodeRows(Reverse(Rows(p.pixels, p.width, p.height)), RowSize(p.width))
    else []
  }

  /** The whole file a save writes. */
  function SavedFile(p: Picture): (s: seq<byte>)
    requires p.Valid() && IsI32(p.width) && IsI32(p.height)
    ensures |s| == PixelOffset + |SavedPixels(p)|
    ensures s[PixelOffset..] == SavedPixels(p)
  {
    EncodeFileHeader(SaveFileHeader(p.width, p.height))
      + EncodeInfoHeader(SaveInfoHeader(p.width, p.height)) + SavedPixels(p)
  }

  /** Bmp::load's checks, in order: the signature, then the header size,
      then planes and bit depth, then compression. */
  function LoadCheck(fh: FileHeader, ih: InfoHeader): (r: Option<Error>)
    ensures r == None <==> fh.signature == Signature && ih.headerSize == 40 && ih.planes == 1
                           && ih.bitsPerPixel == 24 && ih.compression == 0
    ensures r.Some? && fh.signature != Signature ==> r.value == NotBmp
  {
    if fh.signature != Signature then Some(NotBmp)
    else if ih.headerSize != 40 then Some(UnsupportedHeader)
    else if ih.planes != 1 || ih.bitsPerPixel != 24 then Some(UnsupportedDepth)
    else if ih.compression != 0 then Some(Compressed)
    else None
  }

  /** BmpIO::load's checks: the signature, then all format fields at once. */
  function IoCheck(fh: FileHeader, ih: InfoHeader): (r: Option<Error>)
    ensures r == None <==> LoadCheck(fh, ih) == None
    ensures r.Some? ==> r.value == if fh.signature != Signature then NotBmp else UnsupportedFormat
  {
    if fh.signature != Signature then Some(NotBmp)
    else if ih.headerSize != 40 || ih.planes != 1 || ih.bitsPerPixel != 24 || ih.compression != 0
    then Some(UnsupportedFormat)
    else None
  }

  /** The image held by h stored rows of w pixels starting at byte offset
      `offset`, in file order. */
  function FilePixels(data: seq<byte>, offset: nat, w: nat, h: nat, bottomUp: bool): (px: seq<Pixel>)
    requires offset + h * RowSize(w) <= |data|
    ensures |px| == w * h
  {
    var rows := FileOrder(DecodeRows(data[offset..], w, h, RowSize(w)), bottomUp);
    FlattenLength(rows, w);
    Flatten(rows)
  }

  /** The pixel rows are all present in the file. */
  predicate PixelsPresent(data: seq<byte>, offset: nat, w: int, h: nat) {
    w >= 0 && offset + h * RowSize(w) <= |data|
  }

  /** The row of the image that the file row `index` is copied into. */
  function TargetRow(index: nat, height: nat, bottomUp: bool): (y: nat)
    requires index < height
    ensures y < height
  {
    if bottomUp then height - 1 - index else index
  }

  /** The h stored rows of w pixels starting at byte `offset`. */
  ghost function FileRows(data: seq<byte>, offset: nat, w: nat, h: nat): (rows: seq<seq<Pixel>>)
    requires offset + h * RowSize(w) <= |data|
    ensures |rows| == h
  {
    DecodeRows(data[offset..], w, h, RowSize(w))
  }

  /** Image row TargetRow(i) holds file row i, for every i < count. */
  ghost predicate Placed(rows: seq<seq<Pixel>>, fileRows: seq<seq<Pixel>>, h: nat, bottomUp: bool,
                         count: nat)
    requires |rows| == h && |fileRows| == h && count <= h
  {
    forall i :: 0 <= i < count ==> rows[TargetRow(i, h, bottomUp)] == fileRows[i]
  }

  /** Placing file row `index` keeps the rows placed before it, since
      distinct file rows go to distinct image rows. */
  lemma PlacedStep(rows: seq<seq<Pixel>>, fileRows: seq<seq<Pixel>>, h: nat, bottomUp: bool,
                   index: nat)
    requires |rows| == h && |fileRows| == h && index < h
    requires Placed(rows, fileRows, h, bottomUp, index)
    ensures Placed(rows[TargetRow(index, h, bottomUp) := fileRows[index]], fileRows, h, bottomUp, index + 1)
  {
    var y := TargetRow(index, h, bottomUp);
    forall i | 0 <= i < index
      ensures TargetRow(i, h, bottomUp) != y
    {
    }
  }

  /** With all h rows placed, the image rows are the file rows in file
      order. */
  lemma PlacedAll(rows: seq<seq<Pixel>>, fileRows: seq<seq<Pixel>>, h: nat, bottomUp: bool)
    requires |rows| == h && |fileRows| == h
    requires Placed(rows, fileRows, h, bottomUp, h)
    ensures rows == FileOrder(fileRows, bottomUp)
  {
    var F := FileOrder(fileRows, bottomUp);
    forall y | 0 <= y < h
      ensures rows[y] == F[y]
    {
      var i := TargetRow(y, h, bottomUp);
      assert TargetRow(i, h, bottomUp) == y;
    }
  }

  /** BmpIO::load on the bytes of a file: TruncatedHeader for fewer than 54
      bytes, the header checks, length_error for a negative width with a
      non-zero height (size_t wrap-around makes the vector too large),
      TruncatedPixels when a non-empty pixel section runs past the end, and
      otherwise
      the image of width `width` and height |height|, read bottom-up for a
      positive height. */
  function Decode(data: seq<byte>): (r: Result<Picture>)
    ensures |data| < PixelOffset ==> r == Err(TruncatedHeader)
    ensures r.Ok? ==> r.value.Valid() && PixelOffset <= |data|
    ensures r.Ok? ==> r.value.width == DecodeInfoHeader(data[FileHeaderSize..]).width
    ensures r.Ok? ==> r.value.height == Abs(DecodeInfoHeader(data[FileHeaderSize..]).height)
  {
    if |data| < PixelOffset then Err(TruncatedHeader)
    else
      var fh := DecodeFileHeader(data);
      var ih := DecodeInfoHeader(data[FileHeaderSize..]);
      var check := IoCheck(fh, ih);
      if check.Some? then Err(check.value)
      else
        var w := ih.width;
        var h := Abs(ih.height);
        if w < 0 && h > 0 then Err(LengthError)
        else if h == 0 || w == 0 then Ok(Picture(w, h, []))
        else if !PixelsPresent(data, fh.pixelOffset, w, h) then Err(TruncatedPixels)
        else Ok(Picture(w, h, FilePixels(data, fh.pixelOffset, w, h, ih.height > 0)))
  }

  function Abs(x: int): (r: nat)
    ensures r == x || r == -x
  {
    if x < 0 then -x else x
  }

  /** Saving a picture and decoding the file gives the picture back, for
      any valid picture with non-negative 32-bit dimensions. */
  lemma DecodeSaved(p: Picture)
    requires p.Valid() && IsI32(p.width) && IsI32(p.height) && p.width >= 0 && p.height >= 0
    ensures Decode(SavedFile(p)) == Ok(p)
  {
    var data := SavedFile(p);
    SavedHeaders(p);
    var fh, ih := DecodeFileHeader(data), DecodeInfoHeader(data[FileHeaderSize..]);
    assert IoCheck(fh, ih) == None;
    assert ih.width == p.width && Abs(ih.height) == p.height;
    if p.height > 0 && p.width > 0 {
      SavedRows(p);
      assert Decode(data) == Ok(Picture(p.width, p.height, FilePixels(data, PixelOffset, p.width, p.height, true)));
    } else {
      assert p.width * p.height == 0;
      assert Decode(data) == Ok(Picture(p.width, p.height, []));
    }
  }

  /** The headers read back from a saved file are the headers written. */
  lemma SavedHeaders(p: Picture)
    requires p.Valid() && IsI32(p.width) && IsI32(p.height)
    ensures DecodeFileHeader(SavedFile(p)) == SaveFileHeader(p.width, p.height)
    ensures DecodeInfoHeader(SavedFile(p)[FileHeaderSize..]) == SaveInfoHeader(p.width, p.height)
  {
    var data := SavedFile(p);
    var fh, ih := SaveFileHeader(p.width, p.height), SaveInfoHeader(p.width, p.height);
    var px := SavedPixels(p);
    assert data == EncodeFileHeader(fh) + (EncodeInfoHeader(ih) + px);
    FileHeaderRoundTrip(fh, EncodeInfoHeader(ih) + px);
    assert data[FileHeaderSize..] == EncodeInfoHeader(ih) + px;
    InfoHeaderRoundTrip(ih, px);
  }

  /** The rows read back from a saved file, bottom-up, are the picture's. */
  lemma SavedRows(p: Picture)
    requires p.Valid() && IsI32(p.width) && IsI32(p.height) && p.width >= 0 && p.height > 0
    ensures PixelsPresent(SavedFile(p), PixelOffset, p.width, p.height)
    ensures FilePixels(SavedFile(p), PixelOffset, p.width, p.height, true) == p.pixels
  {
    var data := SavedFile(p);
    var w: nat, h: nat := p.width, p.height;
    var rows := Rows(p.pixels, w, h);
    assert AllWidth(Reverse(rows), w);
    DecodeEncodeRows(Reverse(rows), w, RowSize(w), []);
    assert SavedPixels(p) + [] == data[PixelOffset..];
    FileOrderInvolution(rows, true);
  }

  /** Writing the rows of the reversal one more row at a time. */
  lemma WrittenRowsStep(R: seq<seq<Pixel>>, w: nat, k: nat, size: nat)
    requires AllWidth(R, w) && 3 * w <= size && k < |R|
    ensures EncodeRows(Reverse(R)[..k + 1], size)
         == EncodeRows(Reverse(R)[..k], size) + PaddedRow(R[|R| - 1 - k], size)
  {
    ReversePrefix(R, k);
    EncodeRowsAppend(Reverse(R)[..k], R[|R| - 1 - k], size);
  }

  /** File row `index` occupies bytes [index·row_size, (index+1)·row_size)
      of the pixel section. */
  lemma FileRowAt(data: seq<byte>, offset: nat, w: nat, h: nat, index: nat)
    requires index < h && offset + h * RowSize(w) <= |data|
    ensures offset + index * RowSize(w) + RowSize(w) <= |data|
    ensures DecodePixels(data[offset + index * RowSize(w)..offset + index * RowSize(w) + RowSize(w)], w)
         == FileRows(data, offset, w, h)[index]
  {
    var rs := RowSize(w);
    RowBounds(index, h, rs);
    DecodeRowsIndex(data[offset..], w, h, rs, index);
    ShiftedRow(data, offset, index * rs, rs, w);
  }

  /** The row of rs bytes at offset + start decodes as the bytes from
      start on of the section at offset. */
  lemma ShiftedRow(data: seq<byte>, offset: nat, start: nat, rs: nat, w: nat)
    requires 3 * w <= rs && offset + start + rs <= |data|
    ensures DecodePixels(data[offset + start..offset + start + rs], w) == DecodePixels(data[offset..][start..], w)
  {
    var got := data[offset + start..offset + start + rs];
    var d := data[offset..][start..];
    assert d[..3 * w] == got[..3 * w];
    DecodePixelsPrefix(d, got, w);
  }
}
