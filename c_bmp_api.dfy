/** The C API of src/bmp.cpp over the bmp_t of include/bmp.h: building an
    empty image, reading and writing single pixels through the row table,
    and releasing the three allocations. */
module CBmpApi {
  import opened Seqs
  import opened BmpFormat
  import opened CBitmap

  /** row_bytes of init_empty_bmp, ((width·3 + 3) / 4)·4, is the 24-bit
      row_byte_width: the smallest multiple of 4 holding 3·width bytes. */
  lemma InitRowBytes(w: nat)
    ensures ((w * 3 + 3) / 4) * 4 == RowSize(w)
  {
    var k := w * 3 + 3;
    var q := k / 4;
    assert k == 4 * q + k % 4;
    assert 24 * w + 31 == 32 * q + (8 * (k % 4) + 7);
    assert (24 * w + 31) / 32 == q;
  }

  /** The file header init_empty_bmp fills in: signature 'BM', no
      reserved bits, pixels right after the 14 + 40 header bytes, and
      file_size = offset + image_size truncated to 32 bits. */
  function EmptyFileHeader(w: nat, h: nat): (fh: FileHeader)
    ensures fh.signature == Signature && fh.pixelOffset == FileHeaderSize + InfoHeaderSize
    ensures fh.fileSize == Wrap32(fh.pixelOffset + RowSize(w) * h)
  {
    InitRowBytes(w);
    var imageSize := ((w * 3 + 3) / 4) * 4 * h;
    FileHeader(Signature, Wrap32(54 + imageSize), 0, 0, 54)
  }

  /** The info header init_empty_bmp fills in: a 40-byte BITMAPINFOHEADER
      for an uncompressed 24-bit bottom-up image of w × h pixels at
      2835 pixels per metre. */
  function EmptyInfoHeader(w: i32, h: i32): (ih: InfoHeader)
    requires w > 0 && h > 0
    ensures ih.headerSize == InfoHeaderSize && ih.width == w && ih.height == h
    ensures ih.planes == 1 && ih.bitsPerPixel == 24 && ih.compression == 0
    ensures ih.imageSize == Wrap32(RowSize(w) * h)
  {
    InitRowBytes(w);
    var imageSize := ((w * 3 + 3) / 4) * 4 * h;
    InfoHeader(40, w, h, 1, 24, 0, Wrap32(imageSize), 2835, 2835, 0, 0)
  }

  /** The zero-filled image calloc gives: h rows of w pixels {0, 0, 0}. */
  function Blank(w: nat, h: nat): (image: seq<seq<Pixel>>)
    ensures |image| == h && AllWidth(image, w)
    ensures forall y, x :: 0 <= y < h && 0 <= x < w ==> image[y][x] == Pixel(0, 0, 0)
  {
    Repeat(Repeat(Pixel(0, 0, 0), w), h)
  }

  /** init_empty_bmp: 1 for a NULL bmp or a non-positive size (nothing
      changes); otherwise both headers, a zeroed pixel buffer and row
      pointers rows[y] = buffer + y·width, and 0. Allocation is assumed to
      succeed. */
  method InitEmptyBmp(bmp: Bitmap?, width: i32, height: i32) returns (status: int)
    requires bmp != null && width > 0 && height > 0 ==> width * 3 + 3 < 0x8000_0000
    modifies bmp
    ensures status == 0 <==> bmp != null && width > 0 && height > 0
    ensures status != 0 ==> status == 1 && (bmp != null ==> unchanged(bmp))
    ensures status == 0 ==> && bmp.fileheader == Live(EmptyFileHeader(width, height))
                            && bmp.infoheader == Live(EmptyInfoHeader(width, height))
                            && bmp.rows == Live(Table(Blank(width, height), width))
  {
    if bmp == null || width <= 0 || height <= 0 {
      return 1;
    }
    bmp.fileheader := Live(EmptyFileHeader(width, height));
    bmp.infoheader := Live(EmptyInfoHeader(width, height));
    var buffer := Repeat(Pixel(0, 0, 0), width * height);
    var starts := RowPointers(width, height);
    FlattenRepeat(Pixel(0, 0, 0), width, height);
    bmp.rows := Live(RowTable(buffer, starts));
    return 0;
  }

  /** `if (h < 0) h = -h` on an int: the magnitude, except that −INT_MIN
      wraps back to INT_MIN. */
  function AbsHeight(h: i32): (r: int)
    ensures h > MinI32 ==> r >= 0 && (r == h || r == -h)
  {
    if h < 0 then (if h == MinI32 then h else -h) else h
  }

  /** The guard shared by set_pixel and get_pixel: bmp, its info header and
      its row table are non-NULL, and (x, y) lies inside width × |height|. */
  predicate InRange(bmp: Bitmap?, x: int, y: int)
    reads bmp
  {
    && bmp != null && bmp.infoheader.Live? && !bmp.rows.Null?
    && 0 <= x < bmp.infoheader.value.width && 0 <= y < AbsHeight(bmp.infoheader.value.height)
  }

  /** What set_pixel and get_pixel dereference must be valid: a non-NULL
      info header must be live, and for an in-range pixel the row table
      must be live and rows[y][x] inside the buffer. */
  predicate Dereferenceable(bmp: Bitmap?, x: int, y: int)
    reads bmp
  {
    && (bmp != null && !bmp.infoheader.Null? && !bmp.rows.Null? ==> bmp.infoheader.Live?)
    && (InRange(bmp, x, y) ==> bmp.rows.Live? && Addressable(bmp.rows.value, x, y))
  }

  /** set_pixel: 0 after writing rows[y][x] = p, and 1 with nothing
      written when a pointer is NULL or (x, y) is out of range. */
  method SetPixel(bmp: Bitmap?, x: i32, y: i32, p: Pixel) returns (status: int)
    requires Dereferenceable(bmp, x, y)
    modifies bmp
    ensures status == 0 <==> old(InRange(bmp, x, y))
    ensures status != 0 ==> status == 1 && (bmp != null ==> unchanged(bmp))
    ensures status == 0 ==> && bmp.rows == Live(Store(old(bmp.rows.value), x, y, p))
                            && bmp.fileheader == old(bmp.fileheader)
                            && bmp.infoheader == old(bmp.infoheader)
  {
    if bmp == null || bmp.infoheader.Null? || bmp.rows.Null? {
      return 1;
    }
    var w := bmp.infoheader.value.width;
    var h := bmp.infoheader.value.height;
    if h < 0 {
      h := if h == MinI32 then h else -h;
    }
    if x < 0 || y < 0 || x >= w || y >= h {
      return 1;
    }
    bmp.rows := Live(Store(bmp.rows.value, x, y, p));
    return 0;
  }

  /** set_pixel_rgb: set_pixel with the pixel {b, g, r}. */
  method SetPixelRgb(bmp: Bitmap?, x: i32, y: i32, r: byte, g: byte, b: byte) returns (status: int)
    requires Dereferenceable(bmp, x, y)
    modifies bmp
    ensures status == 0 <==> old(InRange(bmp, x, y))
    ensures status != 0 ==> status == 1 && (bmp != null ==> unchanged(bmp))
    ensures status == 0 ==> && bmp.rows == Live(Store(old(bmp.rows.value), x, y, Pixel(b, g, r)))
                            && bmp.fileheader == old(bmp.fileheader)
                            && bmp.infoheader == old(bmp.infoheader)
  {
    status := SetPixel(bmp, x, y, Pixel(b, g, r));
  }

  /** get_pixel: with `out` the caller's pixel_t, 0 after *out = rows[y][x]
      and 1 with *out untouched when a pointer is NULL or (x, y) is out of
      range. */
  method GetPixel(bmp: Bitmap?, x: i32, y: i32, out: Ptr<Pixel>) returns (status: int, result: Ptr<Pixel>)
    requires !out.Null? ==> Dereferenceable(bmp, x, y)
    requires InRange(bmp, x, y) ==> !out.Freed?
    ensures status == 0 <==> InRange(bmp, x, y) && !out.Null?
    ensures status == 0 ==> result == Live(PixelAt(bmp.rows.value, x, y))
    ensures status != 0 ==> status == 1 && result == out
  {
    if bmp == null || bmp.infoheader.Null? || bmp.rows.Null? || out.Null? {
      return 1, out;
    }
    var w := bmp.infoheader.value.width;
    var h := bmp.infoheader.value.height;
    if h < 0 {
      h := if h == MinI32 then h else -h;
    }
    if x < 0 || y < 0 || x >= w || y >= h {
      return 1, out;
    }
    return 0, Live(PixelAt(bmp.rows.value, x, y));
  }

  /** On the contiguous table of an image, get_pixel after set_pixel reads
      the pixel written at (x, y) and the old pixel everywhere else. */
  lemma GetAfterSet(image: seq<seq<Pixel>>, w: nat, x: int, y: int, p: Pixel, x2: int, y2: int)
    requires AllWidth(image, w) && 0 <= x < w && 0 <= y < |image|
    requires 0 <= x2 < w && 0 <= y2 < |image|
    ensures Addressable(Table(image, w), x, y)
    ensures Addressable(Store(Table(image, w), x, y, p), x2, y2)
    ensures PixelAt(Store(Table(image, w), x, y, p), x2, y2)
         == if x2 == x && y2 == y then p else image[y2][x2]
  {
    var image' := image[y := image[y][x := p]];
    TableStore(image, w, x, y, p);
    TablePixel(image', w, x2, y2);
  }

  /** free_bmp: frees the pixel buffer (rows[0]) when there is a table,
      the table and both headers, and leaves all three pointers NULL. */
  method FreeBmp(bmp: Bitmap?)
    requires bmp != null ==> !bmp.fileheader.Freed? && !bmp.infoheader.Freed? && !bmp.rows.Freed?
    requires bmp != null && bmp.rows.Live? ==> |bmp.rows.value.starts| > 0 && bmp.rows.value.starts[0] == 0
    modifies bmp
    ensures bmp != null ==> bmp.fileheader == Null && bmp.infoheader == Null && bmp.rows == Null
  {
    if bmp == null {
      return;
    }
    bmp.rows := Null;
    bmp.fileheader := Null;
    bmp.infoheader := Null;
  }
}
