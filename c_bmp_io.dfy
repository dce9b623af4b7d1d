/** src/bmp_io.c: bmp_load and bmp_save, a second C reader and writer for
    the bmp_t of include/bmp.h. Unlike load_bmp, bmp_load does not check
    the width or height, normalises a top-down height to the row count,
    and leaves the header pointers dangling when it fails. */
module CBmpIO {
  import opened Wrappers
  import opened Seqs
  import opened BmpFormat
  import opened CBitmap

  /** The header checks of bmp_load: the 'BM' signature, 24 bits per
      pixel, no compression and a header of at least 40 bytes. */
  predicate Accepted(fh: FileHeader, ih: InfoHeader) {
    && fh.signature == Signature
    && ih.bitsPerPixel == 24 && ih.compression == 0 && ih.headerSize >= InfoHeaderSize
  }

  /** The outcome of bmp_load on the contents of a file: None where it
      returns 1. A height of INT_MIN makes calloc of the row table
      overflow; a negative width with rows makes calloc of the pixels
      overflow; with no rows (height 0) any width loads as an empty image.
      The stored info header carries the row count as its height. */
  function LoadResult(data: seq<byte>): (r: Option<Loaded>)
    ensures r.Some? ==> && |data| >= FileHeaderSize + InfoHeaderSize
                        && r.value.fh == DecodeFileHeader(data)
                        && Accepted(r.value.fh, r.value.ih)
                        && r.value.ih.height >= 0 && |r.value.image| == r.value.ih.height
                        && var ih := DecodeInfoHeader(data[FileHeaderSize..]);
                           && r.value.ih == ih.(height := r.value.ih.height)
                           && (r.value.ih.height == ih.height || r.value.ih.height == -(ih.height as int))
    ensures (|data| >= FileHeaderSize + InfoHeaderSize
             && !Accepted(DecodeFileHeader(data), DecodeInfoHeader(data[FileHeaderSize..]))) ==> r.None?
  {
    if |data| < FileHeaderSize + InfoHeaderSize then None
    else
      var fh := DecodeFileHeader(data);
      var ih := DecodeInfoHeader(data[FileHeaderSize..]);
      if !Accepted(fh, ih) || ih.height == MinI32 then None
      else
        var h: nat := if ih.height < 0 then -ih.height else ih.height;
        if ih.width < 0 && h > 0 then None
        else
          var w: nat := if ih.width < 0 then 0 else ih.width;
          if !RowsPresent(data, fh.pixelOffset, w, h) then None
          else Some(Loaded(fh, ih.(height := h), FileOrder(CFileRows(data, fh.pixelOffset, w, h), ih.height > 0)))
  }

  /** bmp_load. With a NULL argument or a file fopen cannot open it returns
      1 and changes nothing. Otherwise rows is reset to NULL first; it
      returns 0 with both headers (the height normalised) and a contiguous
      row table holding the image exactly when LoadResult accepts the file,
      and 1 with both headers freed but still pointed at when it does not.
      The header mallocs are taken to succeed. */
  method BmpLoad(bmp: Bitmap?, path: Path) returns (status: int)
    modifies bmp
    ensures !path.Openable? || bmp == null ==> status == 1 && (bmp != null ==> unchanged(bmp))
    ensures path.Openable? && bmp != null && LoadResult(path.data).None? ==>
              && status == 1 && bmp.fileheader == Freed && bmp.infoheader == Freed && bmp.rows == Null
    ensures path.Openable? && bmp != null && LoadResult(path.data).Some? ==>
              var l := LoadResult(path.data).value;
              && status == 0 && bmp.fileheader == Live(l.fh) && bmp.infoheader == Live(l.ih)
              && bmp.rows == Live(Table(l.image, l.ih.width))
  {
    if bmp == null || path.NullPath? {
      return 1;
    }
    if path.Unopenable? {
      return 1;
    }
    bmp.rows := Null;
    status := LoadData(bmp, path.data);
  }

  /** bmp_load from the opened file on: parse both headers, allocate the
      row table and the pixels, read the rows; 0 with the bitmap filled in
      when LoadResult accepts the file, the `fail:` path when it does not. */
  method LoadData(bmp: Bitmap, data: seq<byte>) returns (status: int)
    requires bmp.rows == Null
    modifies bmp
    ensures LoadResult(data).None? ==>
              && status == 1 && bmp.fileheader == Freed && bmp.infoheader == Freed && bmp.rows == Null
    ensures LoadResult(data).Some? ==>
              var l := LoadResult(data).value;
              && status == 0 && bmp.fileheader == Live(l.fh) && bmp.infoheader == Live(l.ih)
              && bmp.rows == Live(Table(l.image, l.ih.width))
  {
    if |data| < FileHeaderSize {
      status := Fail(bmp);
      return;
    }
    var fh := DecodeFileHeader(data);
    if fh.signature != Signature || |data| < FileHeaderSize + InfoHeaderSize {
      status := Fail(bmp);
      return;
    }
    var ih := DecodeInfoHeader(data[FileHeaderSize..]);
    if ih.bitsPerPixel != 24 || ih.compression != 0 || ih.headerSize < 40 {
      status := Fail(bmp);
      return;
    }
    status := LoadPixels(bmp, data, fh, ih);
  }

  /** bmp_load once both headers are accepted: the row table and pixel
      callocs, which fail for a height of INT_MIN and for a negative width
      with rows, then the row reads. */
  method LoadPixels(bmp: Bitmap, data: seq<byte>, fh: FileHeader, ih: InfoHeader) returns (status: int)
    requires bmp.rows == Null && |data| >= FileHeaderSize + InfoHeaderSize
    requires fh == DecodeFileHeader(data) && ih == DecodeInfoHeader(data[FileHeaderSize..])
    requires Accepted(fh, ih)
    modifies bmp
    ensures LoadResult(data).None? ==>
              && status == 1 && bmp.fileheader == Freed && bmp.infoheader == Freed && bmp.rows == Null
    ensures LoadResult(data).Some? ==>
              var l := LoadResult(data).value;
              && status == 0 && bmp.fileheader == Live(l.fh) && bmp.infoheader == Live(l.ih)
              && bmp.rows == Live(Table(l.image, l.ih.width))
  {
    var w := ih.width;
    var h := ih.height;
    var topDown := h < 0;
    if h == MinI32 {
      // H = 2⁶⁴ − 2³¹ as a size_t: calloc of H row pointers overflows and fails
      status := Fail(bmp);
      return;
    }
    var H: nat := if topDown then -h else h;
    if w < 0 && H > 0 {
      // W·H·3 overflows size_t: calloc of the pixels fails
      status := Fail(bmp);
      return;
    }
    var W: nat := if w < 0 then 0 else w;
    var starts := RowPointers(w, H);
    var ok, buffer := ReadRows(data, fh.pixelOffset, W, H, topDown, starts);
    if !ok {
      status := Fail(bmp);
      return;
    }
    assert LoadResult(data) == Some(Loaded(fh, ih.(height := H), FileOrder(CFileRows(data, fh.pixelOffset, W, H), h > 0)));
    bmp.fileheader := Live(fh);
    bmp.infoheader := Live(ih.(height := H));
    bmp.rows := Live(RowTable(buffer, starts));
    return 0;
  }

  /** The `fail:` path of bmp_load: both headers freed, the pointers kept. */
  method Fail(bmp: Bitmap) returns (status: int)
    modifies bmp
    ensures status == 1 && bmp.fileheader == Freed && bmp.infoheader == Freed
    ensures bmp.rows == old(bmp.rows)
  {
    bmp.fileheader := Freed;
    bmp.infoheader := Freed;
    return 1;
  }

  // ------------------------------------------------------------------ saving

  /** What bmp_save needs of a bitmap: with rows to write, a non-negative
      width (fwrite takes it as a size_t) and rows 0..h-1 in the buffer. */
  predicate Savable(ih: InfoHeader, t: RowTable) {
    ih.height > 0 ==> ih.width >= 0 && Covers(t, ih.width, ih.height)
  }

  /** image_size as bmp_save computes it: row_bytes·h with h converted to
      size_t, product modulo 2⁶⁴, truncated to 32 bits. For a non-negative
      size nothing wraps before the final truncation. */
  function ImageSize(w: i32, h: i32): (n: u32)
    ensures w >= 0 && h >= 0 ==> n == Wrap32(RowSize(w) * h)
  {
    var rowBytes := RowByteWidth(24, w);
    if w >= 0 && h >= 0 then
      ProductFits(rowBytes, w, h);
      Wrap32(Wrap64(rowBytes * Wrap64(h)))
    else
      Wrap32(Wrap64(rowBytes * Wrap64(h)))
  }

  /** A row of a non-negative size times a non-negative height fits a
      size_t. */
  lemma ProductFits(rowBytes: int, w: i32, h: i32)
    requires w >= 0 && h >= 0 && rowBytes == RowSize(w)
    ensures Wrap64(h) == h && Wrap64(rowBytes * Wrap64(h)) == rowBytes * h
  {
    assert rowBytes < 0x1_8000_0004;
    MulMono(rowBytes, 0x1_8000_0004, h);
    MulMono(h, 0x8000_0000, 0x1_8000_0004);
    assert rowBytes * h < 0x1_0000_0000_0000_0000;
  }

  /** The headers bmp_save writes for a given pixel offset: image_size
      and file_size = offset + image_size recomputed, everything else
      copied. */
  function SavedHeaders(fh: FileHeader, ih: InfoHeader, offset: u32): (r: (FileHeader, InfoHeader))
    ensures r.1 == ih.(imageSize := ImageSize(ih.width, ih.height))
    ensures r.0 == fh.(pixelOffset := offset, fileSize := Wrap32(offset + r.1.imageSize))
  {
    var ih' := ih.(height := ih.height, imageSize := ImageSize(ih.width, ih.height));
    (fh.(pixelOffset := offset, fileSize := Wrap32(offset + ih'.imageSize)), ih')
  }

  /** The file bmp_save lays out with the given pixel offset: the 14 + 40
      header bytes, then (for a positive height) rows h−1 down to 0, each
      followed by its zero padding. */
  function SavedWith(fh: FileHeader, ih: InfoHeader, t: RowTable, offset: u32): (s: seq<byte>)
    requires Savable(ih, t)
  {
    var headers := SavedHeaders(fh, ih, offset);
    EncodeFileHeader(headers.0) + EncodeInfoHeader(headers.1)
      + if ih.height > 0 then EncodeRows(Reverse(Image(t, ih.width, ih.height)), RowSize(ih.width)) else []
  }

  /** The file bmp_save writes, as written: pixel offset 14 + header_size
      although only 40 info header bytes are written. */
  function SaveBytes(fh: FileHeader, ih: InfoHeader, t: RowTable): (s: seq<byte>)
    requires Savable(ih, t)
    ensures ih.height > 0 ==> |s| == FileHeaderSize + InfoHeaderSize + ih.height * RowSize(ih.width)
    ensures ih.height <= 0 ==> |s| == FileHeaderSize + InfoHeaderSize
  {
    SavedWith(fh, ih, t, Wrap32(FileHeaderSize + ih.headerSize))
  }

  /** The file bmp_save evidently means to write: pixels right after the
      14 + 40 header bytes. */
  function IntendedSaveBytes(fh: FileHeader, ih: InfoHeader, t: RowTable): (s: seq<byte>)
    requires Savable(ih, t)
  {
    SavedWith(fh, ih, t, FileHeaderSize + InfoHeaderSize)
  }

  /** The pointers bmp_save tests: all non-NULL. */
  predicate Complete(bmp: Bitmap?)
    reads bmp
  {
    bmp != null && !bmp.rows.Null? && !bmp.fileheader.Null? && !bmp.infoheader.Null?
  }

  /** bmp_save. It returns 1 without creating a file for a NULL argument or
      pointer and for a path fopen cannot open, and otherwise 0 having
      written SaveBytes; the size is not checked and fwrite results are
      ignored. The bitmap is read only. */
  method BmpSave(bmp: Bitmap?, path: Path) returns (status: int, file: Option<seq<byte>>)
    requires Complete(bmp) ==> bmp.rows.Live? && bmp.fileheader.Live? && bmp.infoheader.Live?
    requires Complete(bmp) ==> Savable(bmp.infoheader.value, bmp.rows.value)
    ensures status == 0 <==> file.Some?
    ensures status == 0 <==> Complete(bmp) && path.Openable?
    ensures status != 0 ==> status == 1
    ensures status == 0 ==> file.value == SaveBytes(bmp.fileheader.value, bmp.infoheader.value, bmp.rows.value)
  {
    if bmp == null || path.NullPath? || !Complete(bmp) {
      return 1, None;
    }
    if path.Unopenable? {
      return 1, None;
    }
    var out := WriteFile(bmp.fileheader.value, bmp.infoheader.value, bmp.rows.value);
    return 0, Some(out);
  }

  /** The writes of bmp_save once the file is open: both headers with
      image_size, file_size and the pixel offset recomputed, then the
      rows bottom-up for a positive height. */
  method WriteFile(fh: FileHeader, ih: InfoHeader, t: RowTable) returns (out: seq<byte>)
    requires Savable(ih, t)
    ensures out == SaveBytes(fh, ih, t)
  {
    var w := ih.width;
    var h := ih.height;
    out := WriteHeaders(fh, ih);
    if h > 0 {
      var rowBytes := RowByteWidth(24, w);
      var pixels := WriteRowsBottomUp(t, w, h, rowBytes);
      out := out + pixels;
    }
  }

  /** The two header writes of bmp_save: image_size recomputed from the
      width and height, the pixel offset 14 + header_size and file_size
      offset + image_size. */
  method WriteHeaders(fh: FileHeader, ih: InfoHeader) returns (out: seq<byte>)
    ensures var headers := SavedHeaders(fh, ih, Wrap32(FileHeaderSize + ih.headerSize));
      out == EncodeFileHeader(headers.0) + EncodeInfoHeader(headers.1)
  {
    var ih' := ih.(height := ih.height, imageSize := ImageSize(ih.width, ih.height));
    var offset := Wrap32(FileHeaderSize + ih'.headerSize);
    var fh' := fh.(pixelOffset := offset, fileSize := Wrap32(offset + ih'.imageSize));
    assert (fh', ih') == SavedHeaders(fh, ih, offset);
    out := EncodeFileHeader(fh') + EncodeInfoHeader(ih');
  }

  // --------------------------------------------------------------- round trip

  /** The conditions of a save bmp_load can read back: the 'BM' signature,
      24 bits per pixel, no compression, a header_size of at least 40, and
      a non-negative size. */
  predicate Reloadable(fh: FileHeader, ih: InfoHeader, t: RowTable) {
    && Savable(ih, t) && Accepted(fh, ih) && ih.width >= 0 && ih.height >= 0
  }

  /** A saved file, whatever its offset, starts with the headers
      SavedHeaders computes, which read back as written. */
  lemma ParseSavedWith(fh: FileHeader, ih: InfoHeader, t: RowTable, offset: u32)
    requires Reloadable(fh, ih, t)
    ensures |SavedWith(fh, ih, t, offset)| == FileHeaderSize + InfoHeaderSize + ih.height * RowSize(ih.width)
    ensures DecodeFileHeader(SavedWith(fh, ih, t, offset)) == SavedHeaders(fh, ih, offset).0
    ensures DecodeInfoHeader(SavedWith(fh, ih, t, offset)[FileHeaderSize..]) == SavedHeaders(fh, ih, offset).1
  {
    var headers := SavedHeaders(fh, ih, offset);
    var pixels := if ih.height > 0 then EncodeRows(Reverse(Image(t, ih.width, ih.height)), RowSize(ih.width)) else [];
    if ih.height > 0 {
      assert |Reverse(Image(t, ih.width, ih.height))| == ih.height;
    } else {
      assert ih.height * RowSize(ih.width) == 0;
    }
    assert |pixels| == ih.height * RowSize(ih.width);
    assert |EncodeFileHeader(headers.0)| == FileHeaderSize && |EncodeInfoHeader(headers.1)| == InfoHeaderSize;
    assert SavedWith(fh, ih, t, offset) == EncodeFileHeader(headers.0) + EncodeInfoHeader(headers.1) + pixels;
    ParseHeaders(headers.0, headers.1, pixels);
  }

  /** The rows of a file saved with offset 54 read back as the image. */
  lemma ParseIntendedRows(fh: FileHeader, ih: InfoHeader, t: RowTable)
    requires Reloadable(fh, ih, t) && ih.height > 0
    ensures RowsPresent(IntendedSaveBytes(fh, ih, t), 54, ih.width, ih.height)
    ensures FileOrder(CFileRows(IntendedSaveBytes(fh, ih, t), 54, ih.width, ih.height), true)
         == Image(t, ih.width, ih.height)
  {
    var headers := SavedHeaders(fh, ih, 54);
    var R := Image(t, ih.width, ih.height);
    var header := EncodeFileHeader(headers.0) + EncodeInfoHeader(headers.1);
    assert IntendedSaveBytes(fh, ih, t) == header + EncodeRows(Reverse(R), RowSize(ih.width));
    ParseRows(header, R, ih.width);
    ReverseReverse(R);
  }

  /** Loading the intended file gives back the saved headers and the image
      the row table shows (no rows for height 0). */
  lemma LoadIntendedSave(fh: FileHeader, ih: InfoHeader, t: RowTable)
    requires Reloadable(fh, ih, t)
    ensures LoadResult(IntendedSaveBytes(fh, ih, t))
         == Some(Loaded(SavedHeaders(fh, ih, 54).0, SavedHeaders(fh, ih, 54).1,
                        if ih.height > 0 then Image(t, ih.width, ih.height) else []))
  {
    ParseSavedWith(fh, ih, t, 54);
    if ih.height > 0 {
      ParseIntendedRows(fh, ih, t);
    }
  }

  /** With the standard 40-byte header the offset as written is the
      intended one, so the file bmp_save writes loads back. */
  lemma SaveLoadsWithStandardHeader(fh: FileHeader, ih: InfoHeader, t: RowTable)
    requires Reloadable(fh, ih, t) && ih.headerSize == InfoHeaderSize && ih.height > 0
    ensures SaveBytes(fh, ih, t) == IntendedSaveBytes(fh, ih, t)
    ensures LoadResult(SaveBytes(fh, ih, t)).Some?
    ensures LoadResult(SaveBytes(fh, ih, t)).value.image == Image(t, ih.width, ih.height)
  {
    LoadIntendedSave(fh, ih, t);
  }

  /** As written, a 1 × 1 image whose info header says 124 bytes is saved
      with pixel offset 138 in a 58-byte file, so bmp_load of the saved
      file fails. */
  lemma SaveLoseImageWithV5Header(fh: FileHeader, ih: InfoHeader, t: RowTable)
    requires Reloadable(fh, ih, t) && ih.headerSize == 124 && ih.width == 1 && ih.height == 1
    ensures |SaveBytes(fh, ih, t)| == 58
    ensures DecodeFileHeader(SaveBytes(fh, ih, t)).pixelOffset == 138
    ensures LoadResult(SaveBytes(fh, ih, t)).None?
  {
    assert Wrap32(FileHeaderSize + ih.headerSize) == 138;
    assert RowSize(1) == 4;
    var s := SaveBytes(fh, ih, t);
    assert |s| == 58;
    ParseSavedWith(fh, ih, t, 138);
    RowsMissing(s, SavedHeaders(fh, ih, 138).0, SavedHeaders(fh, ih, 138).1);
  }

  /** bmp_load fails on a file with accepted headers of height 1 that
      lacks the row's pixels. */
  lemma RowsMissing(data: seq<byte>, fh: FileHeader, ih: InfoHeader)
    requires |data| >= FileHeaderSize + InfoHeaderSize
    requires DecodeFileHeader(data) == fh && DecodeInfoHeader(data[FileHeaderSize..]) == ih
    requires Accepted(fh, ih) && ih.height == 1 && ih.width > 0 && fh.pixelOffset + 3 * ih.width > |data|
    ensures LoadResult(data).None?
  {
  }
}
