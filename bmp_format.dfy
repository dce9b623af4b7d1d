/** The byte layout of an uncompressed 24-bit BMP file, shared by the four
    codecs of the repository: little-endian header fields, the 14-byte
    BITMAPFILEHEADER, the 40-byte BITMAPINFOHEADER, BGR pixel triples and
    rows zero-padded to a multiple of four bytes. */
module BmpFormat {
  import opened Seqs

  type byte = x: int | 0 <= x < 0x100
  type u16 = x: int | 0 <= x < 0x1_0000
  type u32 = x: int | 0 <= x < 0x1_0000_0000
  type i32 = x: int | -0x8000_0000 <= x < 0x8000_0000

  /** Conversion to uint32_t: reduction modulo 2³². */
  function Wrap32(x: int): (r: u32)
    ensures 0 <= x < 0x1_0000_0000 ==> r == x
    ensures (r - x) % 0x1_0000_0000 == 0
  {
    x % 0x1_0000_0000
  }

  /** Conversion of an in-range value to int32_t. */
  function ToI32(x: int): (r: i32)
    requires -0x8000_0000 <= x < 0x8000_0000
    ensures r == x
  {
    x
  }

  /** Conversion to a 64-bit size_t: reduction modulo 2⁶⁴. */
  function Wrap64(x: int): (r: nat)
    ensures r < 0x1_0000_0000_0000_0000
    ensures 0 <= x < 0x1_0000_0000_0000_0000 ==> r == x
  {
    x % 0x1_0000_0000_0000_0000
  }

  /** C's integer division, which truncates toward zero (Dafny's `/`
      rounds toward negative infinity for a negative dividend). */
  function CDiv(a: int, b: int): (q: int)
    requires b > 0
    ensures a >= 0 ==> q * b <= a < q * b + b
    ensures a < 0 ==> q * b - b < a <= q * b
  {
    if a >= 0 then a / b else -((-a) / b)
  }

  // ---------------------------------------------------------------- integers

  function U16Bytes(x: u16): (s: seq<byte>)
    ensures |s| == 2
  {
    [x % 0x100, x / 0x100]
  }

  function U16At(s: seq<byte>, i: nat): u16
    requires i + 2 <= |s|
  {
    s[i] as int + 0x100 * s[i + 1] as int
  }

  function U32Bytes(x: u32): (s: seq<byte>)
    ensures |s| == 4
  {
    [x % 0x100, (x / 0x100) % 0x100, (x / 0x1_0000) % 0x100, x / 0x100_0000]
  }

  function U32At(s: seq<byte>, i: nat): u32
    requires i + 4 <= |s|
  {
    s[i] as int + 0x100 * s[i + 1] as int + 0x1_0000 * s[i + 2] as int + 0x100_0000 * s[i + 3] as int
  }

  /** Two's complement: an int32_t is stored as the uint32_t it wraps to. */
  function I32Bytes(x: i32): (s: seq<byte>)
    ensures |s| == 4
  {
    U32Bytes(Wrap32(x))
  }

  function I32At(s: seq<byte>, i: nat): i32
    requires i + 4 <= |s|
  {
    var u := U32At(s, i);
    if u < 0x8000_0000 then u else u - 0x1_0000_0000
  }

  lemma U16RoundTrip(x: u16, s: seq<byte>, i: nat)
    requires i + 2 <= |s| && s[i] == U16Bytes(x)[0] && s[i + 1] == U16Bytes(x)[1]
    ensures U16At(s, i) == x
  {
  }

  lemma U16BytesRoundTrip(s: seq<byte>, i: nat)
    requires i + 2 <= |s|
    ensures U16Bytes(U16At(s, i)) == s[i..i + 2]
  {
  }

  lemma U32RoundTrip(x: u32, s: seq<byte>, i: nat)
    requires i + 4 <= |s|
    requires s[i] == U32Bytes(x)[0] && s[i + 1] == U32Bytes(x)[1]
    requires s[i + 2] == U32Bytes(x)[2] && s[i + 3] == U32Bytes(x)[3]
    ensures U32At(s, i) == x
  {
    var b := U32Bytes(x);
    var q1: int, q2: int := x / 0x100, x / 0x1_0000;
    assert x == 0x100 * q1 + b[0];
    assert q2 == q1 / 0x100 && q1 == 0x100 * q2 + b[1];
    assert b[3] == q2 / 0x100 && q2 == 0x100 * (b[3] as int) + b[2];
  }

  lemma U32BytesRoundTrip(s: seq<byte>, i: nat)
    requires i + 4 <= |s|
    ensures U32Bytes(U32At(s, i)) == s[i..i + 4]
  {
    var b0, b1, b2, b3 := s[i] as int, s[i + 1] as int, s[i + 2] as int, s[i + 3] as int;
    var u := U32At(s, i);
    assert u == b0 + 0x100 * (b1 + 0x100 * (b2 + 0x100 * b3));
    assert u % 0x100 == b0 && u / 0x100 == b1 + 0x100 * (b2 + 0x100 * b3);
    assert u / 0x1_0000 == (u / 0x100) / 0x100 == b2 + 0x100 * b3;
    assert u / 0x100_0000 == (u / 0x1_0000) / 0x100 == b3;
  }

  lemma I32RoundTrip(x: i32, s: seq<byte>, i: nat)
    requires i + 4 <= |s|
    requires s[i] == I32Bytes(x)[0] && s[i + 1] == I32Bytes(x)[1]
    requires s[i + 2] == I32Bytes(x)[2] && s[i + 3] == I32Bytes(x)[3]
    ensures I32At(s, i) == x
  {
    U32RoundTrip(Wrap32(x), s, i);
  }

  lemma I32BytesRoundTrip(s: seq<byte>, i: nat)
    requires i + 4 <= |s|
    ensures I32Bytes(I32At(s, i)) == s[i..i + 4]
  {
    U32BytesRoundTrip(s, i);
  }

  // ----------------------------------------------------------------- headers

  /** 'B' then 'M' in file order: 0x4D42 read as a little-endian uint16. */
  const Signature: u16 := 0x4D42
  const FileHeaderSize: nat := 14
  const InfoHeaderSize: nat := 40

  /** BITMAPFILEHEADER (packed, 14 bytes). */
  datatype FileHeader = FileHeader(signature: u16, fileSize: u32, reserved1: u16, reserved2: u16,
                                   pixelOffset: u32)

  /** BITMAPINFOHEADER (packed, 40 bytes). A positive height means
      bottom-up rows, a negative one top-down rows. */
  datatype InfoHeader = InfoHeader(headerSize: u32, width: i32, height: i32, planes: u16,
                                   bitsPerPixel: u16, compression: u32, imageSize: u32,
                                   xPixelsPerMeter: i32, yPixelsPerMeter: i32,
                                   colorsUsed: u32, colorsImportant: u32)

  function EncodeFileHeader(h: FileHeader): (s: seq<byte>)
    ensures |s| == FileHeaderSize
  {
    U16Bytes(h.signature) + U32Bytes(h.fileSize) + U16Bytes(h.reserved1) + U16Bytes(h.reserved2)
      + U32Bytes(h.pixelOffset)
  }

  /** Reading the struct from its first 14 bytes. */
  function DecodeFileHeader(s: seq<byte>): FileHeader
    requires FileHeaderSize <= |s|
  {
    FileHeader(U16At(s, 0), U32At(s, 2), U16At(s, 6), U16At(s, 8), U32At(s, 10))
  }

  function EncodeInfoHeader(h: InfoHeader): (s: seq<byte>)
    ensures |s| == InfoHeaderSize
  {
    U32Bytes(h.headerSize) + I32Bytes(h.width) + I32Bytes(h.height) + U16Bytes(h.planes)
      + U16Bytes(h.bitsPerPixel) + U32Bytes(h.compression) + U32Bytes(h.imageSize)
      + I32Bytes(h.xPixelsPerMeter) + I32Bytes(h.yPixelsPerMeter) + U32Bytes(h.colorsUsed)
      + U32Bytes(h.colorsImportant)
  }

  function DecodeInfoHeader(s: seq<byte>): InfoHeader
    requires InfoHeaderSize <= |s|
  {
    InfoHeader(U32At(s, 0), I32At(s, 4), I32At(s, 8), U16At(s, 12), U16At(s, 14), U32At(s, 16),
               U32At(s, 20), I32At(s, 24), I32At(s, 28), U32At(s, 32), U32At(s, 36))
  }

  /** Writing a file header and reading it back gives the same header,
      whatever follows it. */
  lemma FileHeaderRoundTrip(h: FileHeader, rest: seq<byte>)
    ensures DecodeFileHeader(EncodeFileHeader(h) + rest) == h
  {
    var s := EncodeFileHeader(h) + rest;
    U16RoundTrip(h.signature, s, 0);
    U32RoundTrip(h.fileSize, s, 2);
    U16RoundTrip(h.reserved1, s, 6);
    U16RoundTrip(h.reserved2, s, 8);
    U32RoundTrip(h.pixelOffset, s, 10);
  }

  /** Every 14 bytes are the encoding of the header read from them. */
  lemma FileHeaderBytesRoundTrip(s: seq<byte>)
    requires FileHeaderSize <= |s|
    ensures EncodeFileHeader(DecodeFileHeader(s)) == s[..FileHeaderSize]
  {
    U16BytesRoundTrip(s, 0);
    U32BytesRoundTrip(s, 2);
    U16BytesRoundTrip(s, 6);
    U16BytesRoundTrip(s, 8);
    U32BytesRoundTrip(s, 10);
    assert s[..2] == s[0..2];
    SliceSplit(s, 2, 6);
    SliceSplit(s, 6, 8);
    SliceSplit(s, 8, 10);
    SliceSplit(s, 10, 14);
  }

  lemma InfoHeaderRoundTrip(h: InfoHeader, rest: seq<byte>)
    ensures DecodeInfoHeader(EncodeInfoHeader(h) + rest) == h
  {
    InfoFieldsLow(h, rest);
    InfoFieldsMiddle(h, rest);
    InfoFieldsHigh(h, rest);
  }

  lemma InfoFieldsLow(h: InfoHeader, rest: seq<byte>)
    ensures var s := EncodeInfoHeader(h) + rest;
      U32At(s, 0) == h.headerSize && I32At(s, 4) == h.width && I32At(s, 8) == h.height
      && U16At(s, 12) == h.planes
  {
    InfoFieldsSize(h, rest);
    InfoFieldsExtent(h, rest);
  }

  lemma InfoFieldsSize(h: InfoHeader, rest: seq<byte>)
    ensures var s := EncodeInfoHeader(h) + rest;
      U32At(s, 0) == h.headerSize && I32At(s, 4) == h.width
  {
    var s := EncodeInfoHeader(h) + rest;
    U32RoundTrip(h.headerSize, s, 0);
    I32RoundTrip(h.width, s, 4);
  }

  lemma InfoFieldsExtent(h: InfoHeader, rest: seq<byte>)
    ensures var s := EncodeInfoHeader(h) + rest;
      I32At(s, 8) == h.height && U16At(s, 12) == h.planes
  {
    var s := EncodeInfoHeader(h) + rest;
    I32RoundTrip(h.height, s, 8);
    U16RoundTrip(h.planes, s, 12);
  }

  lemma InfoFieldsMiddle(h: InfoHeader, rest: seq<byte>)
    ensures var s := EncodeInfoHeader(h) + rest;
      U16At(s, 14) == h.bitsPerPixel && U32At(s, 16) == h.compression
      && U32At(s, 20) == h.imageSize && I32At(s, 24) == h.xPixelsPerMeter
  {
    var s := EncodeInfoHeader(h) + rest;
    U16RoundTrip(h.bitsPerPixel, s, 14);
    U32RoundTrip(h.compression, s, 16);
    U32RoundTrip(h.imageSize, s, 20);
    I32RoundTrip(h.xPixelsPerMeter, s, 24);
  }

  lemma InfoFieldsHigh(h: InfoHeader, rest: seq<byte>)
    ensures var s := EncodeInfoHeader(h) + rest;
      I32At(s, 28) == h.yPixelsPerMeter && U32At(s, 32) == h.colorsUsed
      && U32At(s, 36) == h.colorsImportant
  {
    var s := EncodeInfoHeader(h) + rest;
    I32RoundTrip(h.yPixelsPerMeter, s, 28);
    U32RoundTrip(h.colorsUsed, s, 32);
    U32RoundTrip(h.colorsImportant, s, 36);
  }

  lemma InfoHeaderBytesRoundTrip(s: seq<byte>)
    requires InfoHeaderSize <= |s|
    ensures EncodeInfoHeader(DecodeInfoHeader(s)) == s[..InfoHeaderSize]
  {
    InfoBytesFront(s);
    U32BytesRoundTrip(s, 16);
    U32BytesRoundTrip(s, 20);
    I32BytesRoundTrip(s, 24);
    I32BytesRoundTrip(s, 28);
    U32BytesRoundTrip(s, 32);
    U32BytesRoundTrip(s, 36);
    SliceSplit(s, 16, 20);
    SliceSplit(s, 20, 24);
    SliceSplit(s, 24, 28);
    SliceSplit(s, 28, 32);
    SliceSplit(s, 32, 36);
    SliceSplit(s, 36, 40);
  }

  /** The first five info header fields re-encode to the first 16 bytes. */
  lemma InfoBytesFront(s: seq<byte>)
    requires InfoHeaderSize <= |s|
    ensures U32Bytes(U32At(s, 0)) + I32Bytes(I32At(s, 4)) + I32Bytes(I32At(s, 8)) + U16Bytes(U16At(s, 12))
              + U16Bytes(U16At(s, 14)) == s[..16]
  {
    U32BytesRoundTrip(s, 0);
    I32BytesRoundTrip(s, 4);
    I32BytesRoundTrip(s, 8);
    U16BytesRoundTrip(s, 12);
    U16BytesRoundTrip(s, 14);
    assert s[..4] == s[0..4];
    SliceSplit(s, 4, 8);
    SliceSplit(s, 8, 12);
    SliceSplit(s, 12, 14);
    SliceSplit(s, 14, 16);
  }

  /** The headers depend only on their own bytes. */
  lemma FileHeaderPrefix(s: seq<byte>, t: seq<byte>)
    requires FileHeaderSize <= |s| && FileHeaderSize <= |t| && s[..FileHeaderSize] == t[..FileHeaderSize]
    ensures DecodeFileHeader(s) == DecodeFileHeader(t)
  {
    assert forall i :: 0 <= i < FileHeaderSize ==> s[i] == s[..FileHeaderSize][i];
    assert forall i :: 0 <= i < FileHeaderSize ==> t[i] == t[..FileHeaderSize][i];
  }

  lemma InfoHeaderPrefix(s: seq<byte>, t: seq<byte>)
    requires InfoHeaderSize <= |s| && InfoHeaderSize <= |t| && s[..InfoHeaderSize] == t[..InfoHeaderSize]
    ensures DecodeInfoHeader(s) == DecodeInfoHeader(t)
  {
    assert forall i :: 0 <= i < InfoHeaderSize ==> s[i] == s[..InfoHeaderSize][i];
    assert forall i :: 0 <= i < InfoHeaderSize ==> t[i] == t[..InfoHeaderSize][i];
  }

  /** The uint16 signature check and the two-character check select the
      same files. */
  lemma SignatureBytes(s: seq<byte>)
    requires 2 <= |s|
    ensures U16At(s, 0) == Signature <==> s[0] == 0x42 && s[1] == 0x4D
  {
  }

  // ------------------------------------------------------------------ rows

  /** A 24-bit pixel in file order: blue, green, red. */
  datatype Pixel = Pixel(b: byte, g: byte, r: byte)

  /** ((24·w + 31) / 32) · 4: bytes per stored row, rounded up to a
      multiple of four. */
  function RowSize(w: nat): (r: nat)
    ensures r % 4 == 0
    ensures 3 * w <= r < 3 * w + 4
  {
    ((24 * w + 31) / 32) * 4
  }

  /** row_size_bytes on a C int: ((w·24 + 31) / 32) · 4 with truncating
      division; for a non-negative width it is RowSize. */
  function RowSizeInt(w: int): (r: int)
    ensures w >= 0 ==> r == RowSize(w)
  {
    CDiv(w * 24 + 31, 32) * 4
  }

  function PixelBytes(row: seq<Pixel>): (s: seq<byte>)
    ensures |s| == 3 * |row|
  {
    if |row| == 0 then [] else [row[0].b, row[0].g, row[0].r] + PixelBytes(row[1..])
  }

  /** w pixels read from the first 3·w bytes. */
  function DecodePixels(s: seq<byte>, w: nat): (row: seq<Pixel>)
    requires 3 * w <= |s|
    ensures |row| == w
  {
    if w == 0 then [] else [Pixel(s[0], s[1], s[2])] + DecodePixels(s[3..], w - 1)
  }

  lemma {:induction false} DecodePixelBytes(row: seq<Pixel>, rest: seq<byte>)
    ensures DecodePixels(PixelBytes(row) + rest, |row|) == row
  {
    if |row| > 0 {
      var s := PixelBytes(row) + rest;
      assert s[3..] == PixelBytes(row[1..]) + rest;
      DecodePixelBytes(row[1..], rest);
    }
  }

  lemma {:induction false} PixelBytesDecode(s: seq<byte>, w: nat)
    requires 3 * w <= |s|
    ensures PixelBytes(DecodePixels(s, w)) == s[..3 * w]
  {
    if w > 0 {
      PixelBytesDecode(s[3..], w - 1);
      assert s[..3 * w] == s[..3] + s[3..][..3 * (w - 1)];
    }
  }

  /** A stored row: the BGR bytes of the pixels, then zero padding up to
      size bytes. */
  function PaddedRow(row: seq<Pixel>, size: nat): (s: seq<byte>)
    requires 3 * |row| <= size
    ensures |s| == size
    ensures s[..3 * |row|] == PixelBytes(row)
    ensures forall i :: 3 * |row| <= i < size ==> s[i] == 0
  {
    PixelBytes(row) + Repeat(0, size - 3 * |row|)
  }

  /** The stored rows, each padded to size bytes, in the given order. */
  function EncodeRows(rows: seq<seq<Pixel>>, size: nat): (s: seq<byte>)
    requires forall i :: 0 <= i < |rows| ==> 3 * |rows[i]| <= size
    ensures |s| == |rows| * size
  {
    if |rows| == 0 then []
    else
      MulStep(|rows|, size);
      PaddedRow(rows[0], size) + EncodeRows(rows[1..], size)
  }

  /** n stored rows of w pixels, each size bytes long. */
  function DecodeRows(data: seq<byte>, w: nat, n: nat, size: nat): (rows: seq<seq<Pixel>>)
    requires 3 * w <= size && n * size <= |data|
    ensures |rows| == n && AllWidth(rows, w)
  {
    if n == 0 then []
    else
      MulStep(n, size);
      [DecodePixels(data, w)] + DecodeRows(data[size..], w, n - 1, size)
  }

  /** Decoding encoded rows gives the rows back; padding is skipped. */
  lemma {:induction false} DecodeEncodeRows(rows: seq<seq<Pixel>>, w: nat, size: nat, rest: seq<byte>)
    requires AllWidth(rows, w) && 3 * w <= size
    ensures |rows| * size <= |EncodeRows(rows, size) + rest|
    ensures DecodeRows(EncodeRows(rows, size) + rest, w, |rows|, size) == rows
  {
    if |rows| > 0 {
      var tail := EncodeRows(rows[1..], size) + rest;
      var data := EncodeRows(rows, size) + rest;
      assert data == PaddedRow(rows[0], size) + tail;
      DecodePaddedRow(rows[0], size, tail);
      DecodeEncodeRows(rows[1..], w, size, rest);
      assert DecodeRows(data, w, |rows|, size) == [DecodePixels(data, w)] + DecodeRows(tail, w, |rows| - 1, size);
    }
  }

  /** A stored row followed by anything decodes to the row, and the next
      row starts size bytes on. */
  lemma DecodePaddedRow(row: seq<Pixel>, size: nat, tail: seq<byte>)
    requires 3 * |row| <= size
    ensures (PaddedRow(row, size) + tail)[size..] == tail
    ensures DecodePixels(PaddedRow(row, size) + tail, |row|) == row
  {
    var data := PaddedRow(row, size) + tail;
    assert data == PixelBytes(row) + (Repeat(0, size - 3 * |row|) + tail);
    DecodePixelBytes(row, Repeat(0, size - 3 * |row|) + tail);
  }


  /** Appending a row to the stored rows appends its padded bytes. */
  lemma {:induction false} EncodeRowsAppend(rows: seq<seq<Pixel>>, row: seq<Pixel>, size: nat)
    requires forall i :: 0 <= i < |rows| ==> 3 * |rows[i]| <= size
    requires 3 * |row| <= size
    ensures EncodeRows(rows + [row], size) == EncodeRows(rows, size) + PaddedRow(row, size)
  {
    if |rows| == 0 {
      assert rows + [row] == [row];
    } else {
      assert (rows + [row])[1..] == rows[1..] + [row];
      EncodeRowsAppend(rows[1..], row, size);
    }
  }

  /** Only the first 3·w bytes matter to DecodePixels. */
  lemma {:induction false} DecodePixelsPrefix(s: seq<byte>, t: seq<byte>, w: nat)
    requires 3 * w <= |s| && 3 * w <= |t| && s[..3 * w] == t[..3 * w]
    ensures DecodePixels(s, w) == DecodePixels(t, w)
  {
    if w > 0 {
      assert s[0] == s[..3 * w][0] && s[1] == s[..3 * w][1] && s[2] == s[..3 * w][2];
      assert t[0] == t[..3 * w][0] && t[1] == t[..3 * w][1] && t[2] == t[..3 * w][2];
      assert s[3..][..3 * (w - 1)] == s[..3 * w][3..];
      assert t[3..][..3 * (w - 1)] == t[..3 * w][3..];
      DecodePixelsPrefix(s[3..], t[3..], w - 1);
    }
  }

  /** Stored row i is decoded from the bytes starting at i·size. */
  lemma {:induction false} DecodeRowsIndex(data: seq<byte>, w: nat, n: nat, size: nat, i: nat)
    requires 3 * w <= size && n * size <= |data| && i < n
    ensures i * size + size <= |data|
    ensures DecodeRows(data, w, n, size)[i] == DecodePixels(data[i * size..], w)
  {
    MulStep(n, size);
    if i == 0 {
      assert data[0 * size..] == data;
    } else {
      var tail := data[size..];
      DecodeRowsIndex(tail, w, n - 1, size, i - 1);
      MulStep(i, size);
      assert tail[(i - 1) * size..] == data[i * size..];
    }
  }

  /** Row i of n rows of size bytes starts at i·size and ends by n·size. */
  lemma RowBounds(i: nat, n: nat, size: nat)
    requires i < n
    ensures 0 <= i * size && i * size + size <= n * size
  {
    MulStep(i + 1, size);
    MulMono(i + 1, n, size);
  }

  /** Multiplication by a natural number is monotonic. */
  lemma MulMono(a: nat, b: nat, c: nat)
    requires a <= b
    ensures a * c <= b * c
  {
    var d: nat := b - a;
    assert b * c == a * c + d * c;
  }

  /** (m − 1)·size + size = m·size, for a positive m. */
  lemma MulStep(m: nat, size: nat)
    requires m > 0
    ensures 0 <= (m - 1) * size && (m - 1) * size + size == m * size
  {
  }

  /** The h rows of a row-major buffer of w·h pixels, top row first. */
  function Rows(pixels: seq<Pixel>, w: nat, h: nat): (rows: seq<seq<Pixel>>)
    requires |pixels| == w * h
    ensures |rows| == h && AllWidth(rows, w)
    ensures Flatten(rows) == pixels
  {
    if h == 0 then [] else [pixels[..w]] + Rows(pixels[w..], w, h - 1)
  }

  /** Splitting the concatenation of equal-width rows gives the rows back. */
  lemma {:induction false} RowsOfFlatten(rows: seq<seq<Pixel>>, w: nat)
    requires AllWidth(rows, w)
    ensures |Flatten(rows)| == w * |rows|
    ensures Rows(Flatten(rows), w, |rows|) == rows
  {
    FlattenLength(rows, w);
    if |rows| > 0 {
      RowsOfFlatten(rows[1..], w);
      assert Flatten(rows)[..w] == rows[0];
      assert Flatten(rows)[w..] == Flatten(rows[1..]);
    }
  }

  /** Overwriting the slice of row y in a row-major buffer replaces row y. */
  lemma RowsUpdate(pixels: seq<Pixel>, w: nat, h: nat, y: nat, row: seq<Pixel>)
    requires |pixels| == w * h && y < h && |row| == w
    ensures y * w + w <= |pixels|
    ensures Rows(pixels[..y * w] + row + pixels[y * w + w..], w, h) == Rows(pixels, w, h)[y := row]
  {
    var R := Rows(pixels, w, h);
    FlattenUpdate(R, w, y, row);
    assert AllWidth(R[y := row], w);
    RowsOfFlatten(R[y := row], w);
  }

  /** The slice [y·w, (y+1)·w) of a row-major buffer is its row y. */
  function RowSlice(pixels: seq<Pixel>, w: nat, h: nat, y: nat): (r: seq<Pixel>)
    requires |pixels| == w * h && y < h
    ensures r == Rows(pixels, w, h)[y]
  {
    FlattenSlice(Rows(pixels, w, h), w, y);
    pixels[y * w..y * w + w]
  }

  /** A row-major buffer with the slice of row y overwritten by `row`
      (the memcpy of one row): row y becomes `row`, the others stay. */
  function ReplaceRow(pixels: seq<Pixel>, w: nat, h: nat, y: nat, row: seq<Pixel>): (r: seq<Pixel>)
    requires |pixels| == w * h && y < h && |row| == w
    ensures |r| == w * h
    ensures Rows(r, w, h) == Rows(pixels, w, h)[y := row]
  {
    RowsUpdate(pixels, w, h, y, row);
    pixels[..y * w] + row + pixels[y * w + w..]
  }

  /** File order of the image rows: a bottom-up file stores the last image
      row first. Applying it twice gives the image order back. */
  function FileOrder(rows: seq<seq<Pixel>>, bottomUp: bool): (r: seq<seq<Pixel>>)
    ensures |r| == |rows|
    ensures forall i :: 0 <= i < |rows| ==> r[i] == rows[if bottomUp then |rows| - 1 - i else i]
  {
    if bottomUp then Reverse(rows) else rows
  }

  lemma FileOrderInvolution(rows: seq<seq<Pixel>>, bottomUp: bool)
    ensures FileOrder(FileOrder(rows, bottomUp), bottomUp) == rows
  {
    ReverseReverse(rows);
  }
}
