/** render_complex_fractal of src/fractal/complex_fractal.cpp: a greyscale
    renderer that draws into a caller's pixel surface. Each pixel's shade
    is its escape count scaled to 0..254, with interior points black; the
    loop stops once the modulus exceeds the escape radius. */
module ComplexFractal {
  import opened BmpFormat
  import C = Complex
  import opened EscapeTime
  import Palette
  import Image

  /** The arguments besides the image. */
  datatype Scene = Scene(view: Viewport,
                         iterate: (C.Complex, C.Complex) -> C.Complex,
                         initial: C.Complex -> C.Complex,
                         parameter: C.Complex -> C.Complex,
                         cfg: Config)

  /** pixel_to_complex(x, y, w, h, v): the fractions x / (w − 1) and
      y / (h − 1) of the viewport's extent, measured from its left and top
      edges. */
  function PixelToComplex(x: int, y: int, w: int, h: int, v: Viewport): C.Complex
    requires w != 1 && h != 1
  {
    C.Complex(v.min.re + x as real / (w - 1) as real * (v.max.re - v.min.re),
              v.max.im - y as real / (h - 1) as real * (v.max.im - v.min.im))
  }

  /** The first column maps to min.real and the last to max.real, the
      first row to max.imag and the last to min.imag. */
  lemma PixelEdges(v: Viewport, w: int, h: int, x: int, y: int)
    requires w >= 2 && h >= 2
    ensures PixelToComplex(0, y, w, h, v).re == v.min.re
    ensures PixelToComplex(w - 1, y, w, h, v).re == v.max.re
    ensures PixelToComplex(x, 0, w, h, v).im == v.max.im
    ensures PixelToComplex(x, h - 1, w, h, v).im == v.min.im
  {
    assert (w - 1) as real / (w - 1) as real == 1.0;
    assert (h - 1) as real / (h - 1) as real == 1.0;
  }

  /** The grey level: 0 for a point that used the whole budget, otherwise
      static_cast<uint8_t>(255.0 * iter / max_iter). */
  function Shade(iter: int, maxIter: int): (s: byte)
    requires iter == maxIter || maxIter != 0
    ensures iter == maxIter ==> s == 0
  {
    if iter == maxIter then 0 else Palette.ToByte(255.0 * iter as real / maxIter as real)
  }

  /** Below the budget the shade is the integer quotient ⌊255·iter / max_iter⌋,
      so it never reaches 255, and a point that escapes at once is black. */
  lemma ShadeInteger(iter: int, maxIter: int)
    requires 0 <= iter < maxIter
    ensures Shade(iter, maxIter) == (255 * iter) / maxIter
    ensures Shade(iter, maxIter) <= 254
    ensures iter == 0 ==> Shade(iter, maxIter) == 0
  {
    assert 255.0 * iter as real == (255 * iter) as real;
    FloorOfQuotient(255 * iter, maxIter);
    ScaledBelow(iter, maxIter);
  }

  /** 255·iter / max_iter lies in [0, 255) below the budget. */
  lemma ScaledBelow(iter: int, m: int)
    requires 0 <= iter < m
    ensures 0.0 <= (255 * iter) as real / m as real < 255.0
  {
    var x := (255 * iter) as real / m as real;
    assert x * m as real == 255.0 * iter as real;
    assert (x / 255.0) * m as real == iter as real;
    FractionBounds(x / 255.0, m as real, iter as real);
  }

  /** The real quotient of two integers rounds down to their Euclidean
      quotient. */
  lemma FloorOfQuotient(a: nat, m: int)
    requires m > 0
    ensures (a as real / m as real).Floor == a / m
  {
    var q, r := a / m, a % m;
    var x := a as real / m as real;
    CastMul(q, m);
    assert a as real == q as real * m as real + r as real;
    assert x * m as real == a as real;
    assert (x - q as real) * m as real == r as real;
    FractionBounds(x - q as real, m as real, r as real);
    assert q as real <= x < q as real + 1.0;
  }

  /** A real f with f·m = r for 0 <= r < m lies in [0, 1). */
  lemma FractionBounds(f: real, m: real, r: real)
    requires m > 0.0 && 0.0 <= r < m && f * m == r
    ensures 0.0 <= f < 1.0
  {
    if f < 0.0 {
      Palette.MulPos(-f, m);
    }
    if f >= 1.0 {
      Palette.MulNonneg(f - 1.0, m);
    }
  }

  lemma {:induction false} CastMul(q: nat, m: int)
    ensures (q * m) as real == q as real * m as real
  {
    if q > 0 {
      CastMul(q - 1, m);
      assert q * m == (q - 1) * m + m;
    }
  }

  /** The loop count at (x, y): `while (iter < max_iter && z.get_modulus()
      <= escape_radius)`. */
  function CountAt(s: Scene, w: int, h: int, x: int, y: int): (n: nat)
    requires w != 1 && h != 1
    ensures n <= Budget(s.cfg.maxIter)
  {
    var p := PixelToComplex(x, y, w, h, s.view);
    EscapeCount(WithinRadius(s.cfg.escapeRadius), s.iterate, s.initial(p), s.parameter(p), s.cfg.maxIter)
  }

  /** The grey pixel {shade, shade, shade} written at (x, y). */
  function ColorAt(s: Scene, w: int, h: int, x: int, y: int): (p: Pixel)
    requires w != 1 && h != 1
    ensures p.b == p.g == p.r
    ensures CountAt(s, w, h, x, y) == s.cfg.maxIter ==> p == Image.Black()
  {
    var shade := Shade(CountAt(s, w, h, x, y), s.cfg.maxIter);
    Pixel(shade, shade, shade)
  }

  function Colouring(s: Scene, w: int, h: int): (int, int) -> Pixel
    requires w != 1 && h != 1
  {
    (x, y) => ColorAt(s, w, h, x, y)
  }

  /** When the loop stops short of the budget, the point's modulus exceeds
      the escape radius; every earlier iterate was within it. */
  lemma StopsOutside(s: Scene, w: int, h: int, x: int, y: int)
    requires w != 1 && h != 1
    ensures var p := PixelToComplex(x, y, w, h, s.view);
            var n := CountAt(s, w, h, x, y);
            && (forall j :: 0 <= j < n ==>
                  C.ModulusAtMost(Orbit(s.iterate, s.initial(p), s.parameter(p), j), s.cfg.escapeRadius))
            && (n < s.cfg.maxIter ==>
                  !C.ModulusAtMost(Orbit(s.iterate, s.initial(p), s.parameter(p), n), s.cfg.escapeRadius))
  {
    var p := PixelToComplex(x, y, w, h, s.view);
    EscapeCountMeaning(WithinRadius(s.cfg.escapeRadius), s.iterate, s.initial(p), s.parameter(p), s.cfg.maxIter);
  }

  /** The body of the inner loop. */
  method RenderPixel(s: Scene, w: int, h: int, x: int, y: int) returns (p: Pixel)
    requires w != 1 && h != 1
    ensures p == ColorAt(s, w, h, x, y)
  {
    var pixel := PixelToComplex(x, y, w, h, s.view);
    var z := s.initial(pixel);
    var c := s.parameter(pixel);
    var iter, zn := EscapeLoop(WithinRadius(s.cfg.escapeRadius), s.iterate, z, c, s.cfg.maxIter);
    var shade := if iter == s.cfg.maxIter then 0
                 else Palette.ToByte(255.0 * iter as real / s.cfg.maxIter as real);
    p := Pixel(shade, shade, shade);
  }

  /** Row y painted with set_pixel, which never throws because the column
      stays below the image's own width. */
  method RenderRow(s: Scene, image: Image.Bmp, y: int)
    requires image.Valid() && image.width > 1 && 0 <= y < image.height && image.height != 1
    requires Image.PaintedPrefix(image.pixels, image.width, Colouring(s, image.width, image.height),
                                 y * image.width)
    modifies image
    ensures image.Valid() && image.width == old(image.width) && image.height == old(image.height)
    ensures Image.PaintedPrefix(image.pixels, image.width, Colouring(s, image.width, image.height),
                                (y + 1) * image.width)
  {
    ghost var colour := Colouring(s, image.width, image.height);
    var x := 0;
    while x < image.width
      invariant image.Valid() && image.width == old(image.width) && image.height == old(image.height)
      invariant 0 <= x <= image.width
      invariant Image.PaintedPrefix(image.pixels, image.width, colour, y * image.width + x)
    {
      var p := RenderPixel(s, image.width, image.height, x, y);
      ghost var before := image.pixels;
      var o := image.SetPixel(x, y, p);
      assert o.Pass?;
      Image.PaintStep(before, image.width, colour, x, y);
      x := x + 1;
    }
    Image.RowDone(image.pixels, image.width, colour, y);
  }

  /** render_complex_fractal(image, view, iterate, initial, parameter,
      cfg): every pixel of the surface, row by row, set to its grey
      level. A surface with no columns is left as it was. */
  method RenderComplexFractal(image: Image.Bmp, s: Scene)
    requires image.Valid() && image.width != 1 && image.height != 1
    modifies image
    ensures image.Valid() && image.width == old(image.width) && image.height == old(image.height)
    ensures image.width > 0 ==> image.height >= 0
    ensures image.width > 0 ==>
              image.pixels == Image.Drawn(image.width, image.height, Colouring(s, image.width, image.height))
    ensures image.width <= 0 ==> image.pixels == old(image.pixels)
  {
    if image.width > 0 {
      Image.PositiveFactor(image.width, image.height);
      RenderRows(s, image);
    }
  }

  /** The outer loop over a positive width: every row painted in turn.
      (With a non-positive width the inner loop never runs, so the rows
      are passed over and the image is unchanged.) */
  method RenderRows(s: Scene, image: Image.Bmp)
    requires image.Valid() && image.width > 1 && image.height >= 0 && image.height != 1
    modifies image
    ensures image.Valid() && image.width == old(image.width) && image.height == old(image.height)
    ensures image.pixels == Image.Drawn(image.width, image.height, Colouring(s, image.width, image.height))
  {
    ghost var colour := Colouring(s, image.width, image.height);
    var y := 0;
    while y < image.height
      invariant image.Valid() && image.width == old(image.width) && image.height == old(image.height)
      invariant 0 <= y <= image.height
      invariant Image.PaintedPrefix(image.pixels, image.width, colour, y * image.width)
    {
      RenderRow(s, image, y);
      y := y + 1;
    }
    Image.PaintedAll(image.pixels, image.width, image.height, colour);
  }

}
