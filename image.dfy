/** The in-memory 24-bit image of src/bmp/bmp.cpp (iheay::bmp::Bmp): a width,
    a height and a row-major pixel vector indexed y·width + x. It is also
    the pixel surface (IPixeled) the renderers and the rasterizer draw on. */
module Image {
  import opened Wrappers
  import opened Seqs
  import opened BmpFormat

  /** Pixel{255, 255, 255}, the colour of Bmp::empty(w, h). */
  function White(): Pixel {
    Pixel(255, 255, 255)
  }

  /** Pixel{0, 0, 0}. */
  function Black(): Pixel {
    Pixel(0, 0, 0)
  }

  /** The bounds test shared by set_pixel, try_set_pixel and get_pixel. */
  predicate InBounds(x: int, y: int, width: int, height: int) {
    0 <= x < width && 0 <= y < height
  }

  /** The flat index y·width + x of an in-bounds pixel lies inside the
      vector, and distinct pixels have distinct indices. */
  lemma IndexInRange(x: int, y: int, width: int, height: int)
    requires InBounds(x, y, width, height)
    ensures 0 <= y * width + x < width * height
  {
    MulStep(y + 1, width);
    MulMono(y + 1, height, width);
  }

  lemma {:induction false} IndexInjective(x: int, y: int, x2: int, y2: int, width: int)
    requires 0 <= x < width && 0 <= x2 < width && 0 <= y && 0 <= y2
    requires y * width + x == y2 * width + x2
    ensures x == x2 && y == y2
  {
    RowStep(y, y2, width);
    RowStep(y2, y, width);
  }

  /** A later row starts at least one full row further on. */
  lemma RowStep(a: nat, b: nat, width: nat)
    requires width > 0
    ensures a < b ==> a * width + width <= b * width
  {
    if a < b {
      MulStep(a + 1, width);
      MulMono(a + 1, b, width);
    }
  }

  /** Writing pixel p at (x, y) of a w-wide row-major vector changes pixel
      (x, y) to p and every other pixel not at all. */
  lemma WriteOnlyTouches(pixels: seq<Pixel>, width: nat, height: nat, x: int, y: int, p: Pixel,
                         x2: int, y2: int)
    requires |pixels| == width * height
    requires InBounds(x, y, width, height) && InBounds(x2, y2, width, height)
    ensures 0 <= y * width + x < |pixels|
    ensures Rows(pixels[y * width + x := p], width, height)[y2][x2]
         == if x2 == x && y2 == y then p else Rows(pixels, width, height)[y2][x2]
  {
    IndexInRange(x, y, width, height);
    var after := pixels[y * width + x := p];
    FlattenIndex(Rows(pixels, width, height), width, y2, x2);
    FlattenIndex(Rows(after, width, height), width, y2, x2);
    if x2 != x || y2 != y {
      if y2 * width + x2 == y * width + x {
        IndexInjective(x, y, x2, y2, width);
      }
    }
  }

  /** An image that Bmp::empty accepts with a positive width has a
      non-negative height. */
  lemma PositiveFactor(a: int, b: int)
    requires a > 0 && a * b >= 0
    ensures b >= 0
  {
  }

  /** The flat index y·w + x gives back its column and row under Euclidean
      division by w. */
  lemma FlatCoordinates(x: int, y: int, w: int)
    requires 0 <= x < w && 0 <= y
    ensures (y * w + x) % w == x && (y * w + x) / w == y
  {
    var k := y * w + x;
    var q, r := k / w, k % w;
    assert q * w + r == k;
    if q > y {
      MulMono(1, q - y, w);
    } else if q < y {
      MulMono(1, y - q, w);
    }
  }

  /** The row-major vector of a w×h image whose pixel (x, y) is
      colour(x, y): the image a render loop leaves behind. */
  function Drawn(w: int, h: int, colour: (int, int) -> Pixel): (px: seq<Pixel>)
    requires w > 0 && h >= 0
    ensures |px| == w * h
    ensures forall x, y :: InBounds(x, y, w, h) ==> Rows(px, w, h)[y][x] == colour(x, y)
  {
    MulMono(0, h, w);
    var px := seq(w * h, i => colour(i % w, i / w));
    forall x, y | InBounds(x, y, w, h)
      ensures Rows(px, w, h)[y][x] == colour(x, y)
    {
      DrawnPixel(px, w, h, colour, x, y);
    }
    px
  }

  lemma DrawnPixel(px: seq<Pixel>, w: int, h: int, colour: (int, int) -> Pixel, x: int, y: int)
    requires InBounds(x, y, w, h) && |px| == w * h
    requires forall i :: 0 <= i < |px| ==> px[i] == colour(i % w, i / w)
    ensures Rows(px, w, h)[y][x] == colour(x, y)
  {
    FlattenIndex(Rows(px, w, h), w, y, x);
    FlatCoordinates(x, y, w);
    ColourAt(px, w, colour, y * w + x, x, y);
  }

  /** A pixel at flat index k of a buffer painted with colour holds the
      colour of k's column and row. */
  lemma ColourAt(px: seq<Pixel>, w: int, colour: (int, int) -> Pixel, k: int, x: int, y: int)
    requires w > 0 && 0 <= k < |px| && k % w == x && k / w == y
    requires forall i :: 0 <= i < |px| ==> px[i] == colour(i % w, i / w)
    ensures px[k] == colour(x, y)
  {
  }

  /** The pixels before flat index k already hold their colour, as after
      a row-major render loop has visited them. */
  ghost predicate PaintedPrefix(pixels: seq<Pixel>, w: int, colour: (int, int) -> Pixel, k: int) {
    && w > 0 && 0 <= k <= |pixels|
    && forall i :: 0 <= i < k ==> pixels[i] == colour(i % w, i / w)
  }

  /** Writing colour(x, y) at (x, y), the next pixel in row-major order,
      extends the painted prefix by one. */
  lemma PaintStep(pixels: seq<Pixel>, w: int, colour: (int, int) -> Pixel, x: int, y: int)
    requires 0 <= x < w && 0 <= y && y * w + x < |pixels|
    requires PaintedPrefix(pixels, w, colour, y * w + x)
    ensures PaintedPrefix(pixels[y * w + x := colour(x, y)], w, colour, y * w + x + 1)
  {
    FlatCoordinates(x, y, w);
  }

  /** A finished row: the prefix painted through column w of row y is the
      prefix up to the start of row y + 1. */
  lemma RowDone(pixels: seq<Pixel>, w: int, colour: (int, int) -> Pixel, y: int)
    requires y >= 0 && PaintedPrefix(pixels, w, colour, y * w + w)
    ensures PaintedPrefix(pixels, w, colour, (y + 1) * w)
  {
    MulStep(y + 1, w);
  }

  /** A fully painted vector of w·h pixels is the drawn image. */
  lemma PaintedAll(pixels: seq<Pixel>, w: int, h: int, colour: (int, int) -> Pixel)
    requires h >= 0 && |pixels| == w * h && PaintedPrefix(pixels, w, colour, h * w)
    ensures pixels == Drawn(w, h, colour)
  {
  }

  /** The value of an image: what Bmp::load returns and Bmp::save writes. */
  datatype Picture = Picture(width: int, height: int, pixels: seq<Pixel>) {
    predicate Valid() {
      |pixels| == width * height
    }
  }

  class Bmp {
    var width: int
    var height: int
    var pixels: seq<Pixel>

    /** The vector holds width·height pixels. */
    ghost predicate Valid()
      reads this
    {
      Value().Valid()
    }

    function Value(): (p: Picture)
      reads this
      ensures p.width == width && p.height == height && p.pixels == pixels
    {
      Picture(width, height, pixels)
    }

    /** Bmp(width, height, pixels): stores its arguments as given. */
    constructor (w: int, h: int, px: seq<Pixel>)
      ensures width == w && height == h && pixels == px
    {
      width, height, pixels := w, h, px;
    }

    /** Bmp::empty(w, h, p): a vector of w·h copies of p. A negative w·h
        converts to a huge size_t and std::vector throws length_error. */
    static method Empty(w: int, h: int, p: Pixel) returns (r: Result<Bmp>)
      ensures r.Err? <==> w * h < 0
      ensures r.Err? ==> r.error == LengthError
      ensures r.Ok? ==> fresh(r.value) && r.value.Valid()
      ensures r.Ok? ==> r.value.width == w && r.value.height == h
      ensures r.Ok? ==> r.value.pixels == Repeat(p, w * h)
    {
      if w * h < 0 {
        return Err(LengthError);
      }
      var b := new Bmp(w, h, Repeat(p, w * h));
      return Ok(b);
    }

    /** Bmp::empty(w, h): an all-white image. */
    static method EmptyWhite(w: int, h: int) returns (r: Result<Bmp>)
      ensures r.Err? <==> w * h < 0
      ensures r.Ok? ==> fresh(r.value) && r.value.Valid()
      ensures r.Ok? ==> r.value.width == w && r.value.height == h
      ensures r.Err? ==> r.error == LengthError
      ensures r.Ok? ==> r.value.pixels == Repeat(White(), w * h)
    {
      r := Empty(w, h, White());
    }

    /** get_pixel(x, y): out_of_range outside the image, otherwise row y,
        column x of the row-major vector. */
    function GetPixel(x: int, y: int): (r: Result<Pixel>)
      reads this
      requires Valid()
      ensures r.Err? <==> !InBounds(x, y, width, height)
      ensures r.Err? ==> r.error == OutOfRange
      ensures r.Ok? ==> r.value == Rows(pixels, width, height)[y][x]
    {
      if !InBounds(x, y, width, height) then Err(OutOfRange)
      else
        FlattenIndex(Rows(pixels, width, height), width, y, x);
        Ok(pixels[y * width + x])
    }

    /** set_pixel(x, y, p): throws out_of_range (the image unchanged)
        outside the image, otherwise overwrites index y·width + x. */
    method SetPixel(x: int, y: int, p: Pixel) returns (o: Outcome)
      requires Valid()
      modifies this
      ensures Valid() && width == old(width) && height == old(height)
      ensures o.Fail? <==> !InBounds(x, y, width, height)
      ensures o.Fail? ==> o.error == OutOfRange && pixels == old(pixels)
      ensures o.Pass? ==> 0 <= y * width + x < |old(pixels)|
      ensures o.Pass? ==> pixels == old(pixels)[y * width + x := p]
    {
      if !InBounds(x, y, width, height) {
        return Fail(OutOfRange);
      }
      IndexInRange(x, y, width, height);
      pixels := pixels[y * width + x := p];
      return Pass;
    }

    /** try_set_pixel(x, y, p): false (the image unchanged) outside the
        image, otherwise the write of set_pixel and true. */
    method TrySetPixel(x: int, y: int, p: Pixel) returns (ok: bool)
      requires Valid()
      modifies this
      ensures Valid() && width == old(width) && height == old(height)
      ensures ok <==> InBounds(x, y, width, height)
      ensures !ok ==> pixels == old(pixels)
      ensures ok ==> 0 <= y * width + x < |old(pixels)|
      ensures ok ==> pixels == old(pixels)[y * width + x := p]
    {
      if !InBounds(x, y, width, height) {
        return false;
      }
      IndexInRange(x, y, width, height);
      pixels := pixels[y * width + x := p];
      return true;
    }
  }

  /** tests/bmp/test_bmp.cpp, GetSetPixel and BottomUpAndPadding. */
  method GetSetExample() returns (b: Bmp)
    ensures b.Valid() && b.width == 2 && b.height == 2
    ensures b.GetPixel(0, 0) == Ok(Pixel(10, 20, 30))
    ensures b.GetPixel(1, 1) == Ok(Pixel(1, 2, 3))
    ensures b.GetPixel(0, 2) == Err(OutOfRange)
  {
    var r := Bmp.EmptyWhite(2, 2);
    b := r.value;
    var o := b.SetPixel(0, 0, Pixel(10, 20, 30));
    var ok := b.TrySetPixel(1, 1, Pixel(1, 2, 3));
    assert ok;
    var ok2 := b.TrySetPixel(2, 2, Pixel(0, 0, 0));
    assert !ok2;
    var o2 := b.SetPixel(-1, 0, Pixel(0, 0, 0));
    assert o2 == Fail(OutOfRange);
  }
}
