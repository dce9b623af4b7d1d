/** src/bmp.c: load_bmp, save_bmp and free_bmp over the bmp_t of
    include/bmp.h. */
module CBmp {
  import opened Wrappers
  import opened Seqs
  import opened BmpFormat
  import opened CBitmap

  /** The header checks of load_bmp: the 'BM' signature, a header of at
      least 40 bytes, 24 bits per pixel, no compression, a positive width
      and a non-zero height. */
  predicate Accepted(fh: FileHeader, ih: InfoHeader) {
    && fh.signature == Signature
    && ih.headerSize >= InfoHeaderSize && ih.bitsPerPixel == 24 && ih.compression == 0
    && ih.width > 0 && ih.height != 0
  }

  /** The outcome of load_bmp on the contents of a file: None where it
      returns 1. Both header reads need their 14 and 40 bytes; a height of
      INT_MIN makes abs_height·width·3 overflow size_t, so calloc fails; and
      every row's pixels must be in the file. */
  function LoadResult(data: seq<byte>): (r: Option<Loaded>)
    ensures r.Some? ==> && |data| >= FileHeaderSize + InfoHeaderSize
                        && r.value.fh == DecodeFileHeader(data)
                        && r.value.ih == DecodeInfoHeader(data[FileHeaderSize..])
                        && Accepted(r.value.fh, r.value.ih)
                        && |r.value.image| == (if r.value.ih.height < 0 then -(r.value.ih.height as int) else r.value.ih.height)
                        && AllWidth(r.value.image, r.value.ih.width)
    ensures (|data| >= FileHeaderSize + InfoHeaderSize
             && !Accepted(DecodeFileHeader(data), DecodeInfoHeader(data[FileHeaderSize..]))) ==> r.None?
  {
    if |data| < FileHeaderSize + InfoHeaderSize then None
    else
      var fh := DecodeFileHeader(data);
      var ih := DecodeInfoHeader(data[FileHeaderSize..]);
      if !Accepted(fh, ih) || ih.height == MinI32 then None
      else
        var h := if ih.height < 0 then -ih.height else ih.height;
        if !RowsPresent(data, fh.pixelOffset, ih.width, h) then None
        else Some(Loaded(fh, ih, FileOrder(CFileRows(data, fh.pixelOffset, ih.width, h), ih.height > 0)))
  }

  /** load_bmp. With a NULL argument or a file fopen cannot open it returns
      1 and changes nothing. Otherwise it returns 0 with both headers and a
      contiguous row table holding the image (rows[0] the top row) exactly
      when LoadResult accepts the file, and 1 with both header pointers
      NULL and the row table untouched when it does not. The two header
      mallocs are taken to succeed. */
  method LoadBmp(path: Path, bmp: Bitmap?) returns (status: int)
    modifies bmp
    ensures !path.Openable? || bmp == null ==> status == 1 && (bmp != null ==> unchanged(bmp))
    ensures path.Openable? && bmp != null && LoadResult(path.data).None? ==>
              && status == 1 && bmp.fileheader == Null && bmp.infoheader == Null
              && bmp.rows == old(bmp.rows)
    ensures path.Openable? && bmp != null && LoadResult(path.data).Some? ==>
              var l := LoadResult(path.data).value;
              && status == 0 && bmp.fileheader == Live(l.fh) && bmp.infoheader == Live(l.ih)
              && bmp.rows == Live(Table(l.image, l.ih.width))
  {
    if path.NullPath? || bmp == null {
      return 1;
    }
    if path.Unopenable? {
      return 1;
    }
    var data := path.data;
    if |data| < FileHeaderSize {
      status := Fail(bmp);
      return;
    }
    var fh := DecodeFileHeader(data);
    if fh.signature != Signature {
      status := Fail(bmp);
      return;
    }
    if |data| < FileHeaderSize + InfoHeaderSize {
      status := Fail(bmp);
      return;
    }
    var ih := DecodeInfoHeader(data[FileHeaderSize..]);
    if ih.headerSize < 40 || ih.bitsPerPixel != 24 || ih.compression != 0 {
      status := Fail(bmp);
      return;
    }
    var width := ih.width;
    var height := ih.height;
    if width <= 0 || height == 0 {
      status := Fail(bmp);
      return;
    }
    var topDown := height < 0;
    if height == MinI32 {
      // abs_height = 2⁶⁴ − 2³¹ as a size_t: both callocs overflow and fail
      status := Fail(bmp);
      return;
    }
    var absHeight: nat := if topDown then -height else height;
    var starts := RowPointers(width, absHeight);
    var ok, buffer := ReadRows(data, fh.pixelOffset, width, absHeight, topDown, starts);
    if !ok {
      status := Fail(bmp);
      return;
    }
    bmp.fileheader := Live(fh);
    bmp.infoheader := Live(ih);
    bmp.rows := Live(RowTable(buffer, starts));
    return 0;
  }

  /** The `fail:` path of load_bmp: both headers freed and set to NULL. */
  method Fail(bmp: Bitmap) returns (status: int)
    modifies bmp
    ensures status == 1 && bmp.fileheader == Null && bmp.infoheader == Null
    ensures bmp.rows == old(bmp.rows)
  {
    bmp.fileheader := Null;
    bmp.infoheader := Null;
    return 1;
  }

  // ------------------------------------------------------------------ saving

  /** The padding fwrite reads from the 4-byte zero buffer: row_bytes − 3·w
      must lie in [0, 4] (24 bits per pixel gives [0, 3]). For another
      bits_per_pixel the padding can exceed 4 and fwrite would read past
      padbuf, which is undefined behaviour; load_bmp and init_empty_bmp
      only produce 24 bits per pixel, so no bitmap they build reaches it. */
  predicate PaddingFits(bpp: u16, w: i32) {
    w >= 0 && 3 * w <= RowByteWidth(bpp, w) <= 3 * w + 4
  }

  /** What save_bmp needs of a bitmap it writes: a positive size, rows
      0..height-1 inside the pixel buffer and a padding that fits. */
  predicate Savable(ih: InfoHeader, t: RowTable) {
    ih.width > 0 && ih.height > 0 && Covers(t, ih.width, ih.height) && PaddingFits(ih.bitsPerPixel, ih.width)
  }

  /** The headers save_bmp writes, for a given pixel offset: image_size
      and file_size recomputed, everything else copied. */
  function SavedHeaders(fh: FileHeader, ih: InfoHeader, offset: u32): (r: (FileHeader, InfoHeader))
    requires ih.width > 0 && ih.height > 0
    ensures r.1 == ih.(imageSize := Wrap32(RowByteWidth(ih.bitsPerPixel, ih.width) * ih.height))
    ensures r.0 == fh.(pixelOffset := offset, fileSize := Wrap32(offset + r.1.imageSize))
  {
    var imageSize := RowByteWidth(ih.bitsPerPixel, ih.width) * ih.height;
    var ih' := ih.(height := ih.height, imageSize := Wrap32(imageSize));
    (fh.(pixelOffset := offset, fileSize := Wrap32(offset + Wrap32(imageSize))), ih')
  }

  /** A file as save_bmp lays it out with the given pixel offset in its
      header: the 14 + 40 header bytes, then rows height−1 down to 0, each
      followed by its zero padding. */
  function SavedWith(fh: FileHeader, ih: InfoHeader, t: RowTable, offset: u32): (s: seq<byte>)
    requires Savable(ih, t)
  {
    var headers := SavedHeaders(fh, ih, offset);
    EncodeFileHeader(headers.0) + EncodeInfoHeader(headers.1)
      + EncodeRows(Reverse(Image(t, ih.width, ih.height)), RowByteWidth(ih.bitsPerPixel, ih.width))
  }

  /** The file save_bmp writes, as written: the pixel offset is
      14 + header_size although only 40 info header bytes are written. */
  function SaveBytes(fh: FileHeader, ih: InfoHeader, t: RowTable): (s: seq<byte>)
    requires Savable(ih, t)
    ensures |s| == FileHeaderSize + InfoHeaderSize + ih.height * RowByteWidth(ih.bitsPerPixel, ih.width)
    ensures s[FileHeaderSize + InfoHeaderSize..] == EncodeRows(Reverse(Image(t, ih.width, ih.height)),
                                                              RowByteWidth(ih.bitsPerPixel, ih.width))
  {
    SavedWith(fh, ih, t, Wrap32(FileHeaderSize + ih.headerSize))
  }

  /** The file save_bmp evidently means to write: pixels right after the
      14 + 40 header bytes it writes. */
  function IntendedSaveBytes(fh: FileHeader, ih: InfoHeader, t: RowTable): (s: seq<byte>)
    requires Savable(ih, t)
    ensures |s| == FileHeaderSize + InfoHeaderSize + ih.height * RowByteWidth(ih.bitsPerPixel, ih.width)
  {
    SavedWith(fh, ih, t, FileHeaderSize + InfoHeaderSize)
  }

  /** The pointers save_bmp tests: all non-NULL. */
  predicate Complete(bmp: Bitmap?)
    reads bmp
  {
    bmp != null && !bmp.rows.Null? && !bmp.fileheader.Null? && !bmp.infoheader.Null?
  }

  /** save_bmp. It returns 1 without creating a file for a NULL argument
      or pointer and for a path fopen cannot open; 1 leaving an empty file
      for a non-positive width or height; and otherwise 0 having written
      SaveBytes. fwrite is taken to succeed. The bitmap is read only. */
  method SaveBmp(path: Path, bmp: Bitmap?) returns (status: int, file: Option<seq<byte>>)
    requires Complete(bmp) ==> bmp.rows.Live? && bmp.fileheader.Live? && bmp.infoheader.Live?
    requires Complete(bmp) && bmp.infoheader.value.width > 0 && bmp.infoheader.value.height > 0 ==>
               Savable(bmp.infoheader.value, bmp.rows.value)
    ensures file.None? <==> path.NullPath? || !Complete(bmp) || path.Unopenable?
    ensures status == 0 <==> file.Some? && bmp.infoheader.value.width > 0 && bmp.infoheader.value.height > 0
    ensures status != 0 ==> status == 1 && (file.Some? ==> file.value == [])
    ensures status == 0 ==> file.value == SaveBytes(bmp.fileheader.value, bmp.infoheader.value, bmp.rows.value)
  {
    if path.NullPath? || !Complete(bmp) {
      return 1, None;
    }
    if path.Unopenable? {
      return 1, None;
    }
    var fh := bmp.fileheader.value;
    var ih := bmp.infoheader.value;
    var t := bmp.rows.value;
    var width := ih.width;
    var height := ih.height;
    if width <= 0 || height <= 0 {
      return 1, Some([]);
    }
    var rowBytes := RowByteWidth(ih.bitsPerPixel, width);
    var imageSize := rowBytes * height;
    var ih' := ih.(height := height, imageSize := Wrap32(imageSize));
    var offset := Wrap32(FileHeaderSize + ih'.headerSize);
    var fh' := fh.(pixelOffset := offset, fileSize := Wrap32(offset + Wrap32(imageSize)));
    var out := EncodeFileHeader(fh') + EncodeInfoHeader(ih');
    var pixels := WriteRowsBottomUp(t, width, height, rowBytes);
    return 0, Some(out + pixels);
  }

  /** free_bmp: frees each non-NULL header, the pixel buffer rows[0] and the
      table, and the bmp_t itself. The pointers are not reset: every live
      one is left dangling. */
  method FreeBmp(bmp: Bitmap?)
    requires bmp != null ==> !bmp.fileheader.Freed? && !bmp.infoheader.Freed? && !bmp.rows.Freed?
    requires bmp != null && bmp.rows.Live? ==> |bmp.rows.value.starts| > 0 && bmp.rows.value.starts[0] == 0
    modifies bmp
    ensures bmp != null ==> && bmp.fileheader == (if old(bmp.fileheader).Live? then Freed else Null)
                            && bmp.infoheader == (if old(bmp.infoheader).Live? then Freed else Null)
                            && bmp.rows == (if old(bmp.rows).Live? then Freed else Null)
  {
    if bmp == null {
      return;
    }
    if bmp.fileheader.Live? {
      bmp.fileheader := Freed;
    }
    if bmp.infoheader.Live? {
      bmp.infoheader := Freed;
    }
    if bmp.rows.Live? {
      bmp.rows := Freed;
    }
  }

  // --------------------------------------------------------------- round trip

  /** The conditions of a save that load_bmp can read back: 24 bits per
      pixel, no compression, the 'BM' signature and a header_size of at
      least 40. */
  predicate Reloadable(fh: FileHeader, ih: InfoHeader, t: RowTable) {
    && Savable(ih, t) && fh.signature == Signature
    && ih.bitsPerPixel == 24 && ih.compression == 0 && ih.headerSize >= InfoHeaderSize
  }

  /** A saved file, whatever its pixel offset, starts with the headers
      SavedHeaders computes, which read back as written. */
  lemma ParseSavedWith(fh: FileHeader, ih: InfoHeader, t: RowTable, offset: u32)
    requires Reloadable(fh, ih, t)
    ensures |SavedWith(fh, ih, t, offset)| == FileHeaderSize + InfoHeaderSize + ih.height * RowSize(ih.width)
    ensures DecodeFileHeader(SavedWith(fh, ih, t, offset)) == SavedHeaders(fh, ih, offset).0
    ensures DecodeInfoHeader(SavedWith(fh, ih, t, offset)[FileHeaderSize..]) == SavedHeaders(fh, ih, offset).1
  {
    var headers := SavedHeaders(fh, ih, offset);
    var pixels := EncodeRows(Reverse(Image(t, ih.width, ih.height)), RowSize(ih.width));
    assert SavedWith(fh, ih, t, offset) == EncodeFileHeader(headers.0) + EncodeInfoHeader(headers.1) + pixels;
    ParseHeaders(headers.0, headers.1, pixels);
  }

  /** The rows of a file saved with offset 54 read back as the image. */
  lemma ParseIntendedRows(fh: FileHeader, ih: InfoHeader, t: RowTable)
    requires Reloadable(fh, ih, t)
    ensures RowsPresent(IntendedSaveBytes(fh, ih, t), 54, ih.width, ih.height)
    ensures FileOrder(CFileRows(IntendedSaveBytes(fh, ih, t), 54, ih.width, ih.height), true)
         == Image(t, ih.width, ih.height)
  {
    var headers := SavedHeaders(fh, ih, 54);
    var R := Image(t, ih.width, ih.height);
    var header := EncodeFileHeader(headers.0) + EncodeInfoHeader(headers.1);
    assert IntendedSaveBytes(fh, ih, t) == header + EncodeRows(Reverse(R), RowSize(ih.width));
    ParseRows(header, R, ih.width);
    ReverseReverse(R);
  }

  /** Loading the intended file gives back the saved headers and exactly
      the image the row table shows. */
  lemma LoadIntendedSave(fh: FileHeader, ih: InfoHeader, t: RowTable)
    requires Reloadable(fh, ih, t)
    ensures LoadResult(IntendedSaveBytes(fh, ih, t))
         == Some(Loaded(SavedHeaders(fh, ih, 54).0, SavedHeaders(fh, ih, 54).1, Image(t, ih.width, ih.height)))
  {
    ParseSavedWith(fh, ih, t, 54);
    ParseIntendedRows(fh, ih, t);
  }

  /** With the standard 40-byte header the offset as written is the
      intended one, so the file save_bmp writes loads back. */
  lemma SaveLoadsWithStandardHeader(fh: FileHeader, ih: InfoHeader, t: RowTable)
    requires Reloadable(fh, ih, t) && ih.headerSize == InfoHeaderSize
    ensures SaveBytes(fh, ih, t) == IntendedSaveBytes(fh, ih, t)
    ensures LoadResult(SaveBytes(fh, ih, t)).Some?
    ensures LoadResult(SaveBytes(fh, ih, t)).value.image == Image(t, ih.width, ih.height)
  {
    LoadIntendedSave(fh, ih, t);
  }

  /** As written, a 1 × 1 image whose info header says 124 bytes (a
      BITMAPV5HEADER file, which load_bmp accepts) is saved with pixel
      offset 138 in a 58-byte file, so load_bmp of the saved file fails
      (LoadIntendedSave shows the intended file loads). */
  lemma SaveLoseImageWithV5Header(fh: FileHeader, ih: InfoHeader, t: RowTable)
    requires Reloadable(fh, ih, t) && ih.headerSize == 124 && ih.width == 1 && ih.height == 1
    ensures |SaveBytes(fh, ih, t)| == 58
    ensures DecodeFileHeader(SaveBytes(fh, ih, t)).pixelOffset == 138
    ensures LoadResult(SaveBytes(fh, ih, t)).None?
  {
    assert Wrap32(FileHeaderSize + ih.headerSize) == 138;
    assert RowSize(1) == 4;
    var s := SaveBytes(fh, ih, t);
    assert |s| == 54 + RowByteWidth(ih.bitsPerPixel, ih.width);
    ParseSavedWith(fh, ih, t, 138);
    RowsMissing(s, SavedHeaders(fh, ih, 138).0, SavedHeaders(fh, ih, 138).1);
  }

  /** load_bmp fails on a file with accepted headers of height 1 that
      lacks the row's pixels. */
  lemma RowsMissing(data: seq<byte>, fh: FileHeader, ih: InfoHeader)
    requires |data| >= FileHeaderSize + InfoHeaderSize
    requires DecodeFileHeader(data) == fh && DecodeInfoHeader(data[FileHeaderSize..]) == ih
    requires Accepted(fh, ih) && ih.height == 1 && fh.pixelOffset + 3 * ih.width > |data|
    ensures LoadResult(data).None?
  {
  }

  /** A bitmap from init_empty_bmp saves to a file load_bmp reads back as
      the blank image. */
  lemma EmptyBitmapRoundTrip(fh: FileHeader, ih: InfoHeader, image: seq<seq<Pixel>>)
    requires |image| > 0 && ih.width > 0 && ih.height == |image| && AllWidth(image, ih.width)
    requires fh.signature == Signature && ih.headerSize == InfoHeaderSize
    requires ih.bitsPerPixel == 24 && ih.compression == 0
    ensures Savable(ih, Table(image, ih.width))
    ensures LoadResult(SaveBytes(fh, ih, Table(image, ih.width))).Some?
    ensures LoadResult(SaveBytes(fh, ih, Table(image, ih.width))).value.image == image
  {
    TableImage(image, ih.width);
    SaveLoadsWithStandardHeader(fh, ih, Table(image, ih.width));
  }
}
