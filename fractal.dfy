/** render_complex_fractal of src/fractal/fractal.cpp: a free-function
    variant of FractalRenderer::render. It computes the smoothed count but
    colours the pixel from the integer count, and builds each pixel as
    {r, g, b}, so red and blue land in swapped fields. */
module Fractal {
  import opened Wrappers
  import opened Seqs
  import opened BmpFormat
  import C = Complex
  import opened EscapeTime
  import Palette
  import Image

  /** The arguments of render_complex_fractal. */
  datatype Scene = Scene(width: int, height: int, view: Viewport,
                         iterate: (C.Complex, C.Complex) -> C.Complex,
                         initial: C.Complex -> C.Complex,
                         parameter: C.Complex -> C.Complex,
                         cfg: Config)

  /** The escape count at pixel (x, y). */
  function CountAt(s: Scene, g: Grid, x: int, y: int): (n: nat)
    ensures n <= Budget(s.cfg.maxIter)
  {
    var p := PixelToComplexFast(x, y, g);
    EscapeCount(WithinSq(s.cfg.escapeRadius * s.cfg.escapeRadius), s.iterate,
                s.initial(p), s.parameter(p), s.cfg.maxIter)
  }

  /** The colour written at (x, y): color_from_mu(iter, max_iter) with the
      {r, g, b} construction. */
  function ColorAt(s: Scene, g: Grid, x: int, y: int): Pixel {
    Palette.ColorFromMuRgb(CountAt(s, g, x, y) as real, s.cfg.maxIter)
  }

  function Colouring(s: Scene, g: Grid): (int, int) -> Pixel {
    (x, y) => ColorAt(s, g, x, y)
  }

  /** The colour is decided by the integer count: black when the budget
      is used up, and otherwise the exact blends of t = iter / max_iter in
      [0, 1), red blend in the b field and blue blend in the r field. */
  lemma CountColour(s: Scene, g: Grid, x: int, y: int)
    ensures var n := CountAt(s, g, x, y);
            && (n == Budget(s.cfg.maxIter) ==> ColorAt(s, g, x, y) == Image.Black())
            && (n < s.cfg.maxIter ==>
                  var t := n as real / s.cfg.maxIter as real;
                  && 0.0 <= t < 1.0
                  && ColorAt(s, g, x, y).b == Palette.RedLevel(t).Floor
                  && ColorAt(s, g, x, y).g == Palette.GreenLevel(t).Floor
                  && ColorAt(s, g, x, y).r == Palette.BlueLevel(t).Floor)
  {
    var n := CountAt(s, g, x, y);
    if n < s.cfg.maxIter {
      Palette.UnitFraction(n as real, s.cfg.maxIter as real);
      Palette.ChannelRange(n as real / s.cfg.maxIter as real);
    }
  }

  /** The body of the inner loop. The smoothed count mu is computed as in
      the source and then left unused. */
  method RenderPixel(s: Scene, nu: real -> real, grid: Grid, x: int, y: int) returns (p: Pixel)
    ensures p == ColorAt(s, grid, x, y)
  {
    var maxIter := s.cfg.maxIter;
    var escapeRadiusSq := s.cfg.escapeRadius * s.cfg.escapeRadius;
    var pixel := PixelToComplexFast(x, y, grid);
    var z := s.initial(pixel);
    var c := s.parameter(pixel);
    var iter, zn := EscapeLoop(WithinSq(escapeRadiusSq), s.iterate, z, c, maxIter);
    var mu := iter as real;
    if iter < maxIter {
      mu := (iter + 1) as real - nu(C.NormSq(zn));
    }
    assert iter == CountAt(s, grid, x, y);
    p := Palette.ColorFromMuRgb(iter as real, maxIter);
  }

  /** Row y painted with try_set_pixel, which succeeds on every column. */
  method RenderRow(s: Scene, nu: real -> real, grid: Grid, image: Image.Bmp, y: int)
    requires image.Valid() && image.width > 0 && 0 <= y < image.height
    requires Image.PaintedPrefix(image.pixels, image.width, Colouring(s, grid), y * image.width)
    modifies image
    ensures image.Valid() && image.width == old(image.width) && image.height == old(image.height)
    ensures Image.PaintedPrefix(image.pixels, image.width, Colouring(s, grid), (y + 1) * image.width)
  {
    ghost var colour := Colouring(s, grid);
    var x := 0;
    while x < image.width
      invariant image.Valid() && image.width == old(image.width) && image.height == old(image.height)
      invariant 0 <= x <= image.width
      invariant Image.PaintedPrefix(image.pixels, image.width, colour, y * image.width + x)
    {
      var p := RenderPixel(s, nu, grid, x, y);
      ghost var before := image.pixels;
      Image.IndexInRange(x, y, image.width, image.height);
      var ok := image.TrySetPixel(x, y, p);
      assert ok;
      Image.PaintStep(before, image.width, colour, x, y);
      x := x + 1;
    }
    Image.RowDone(image.pixels, image.width, colour, y);
  }

  /** The outer loop over a positive width. */
  method RenderRows(s: Scene, nu: real -> real, grid: Grid, image: Image.Bmp)
    requires image.Valid() && image.width > 0 && image.height >= 0
    modifies image
    ensures image.Valid() && image.width == old(image.width) && image.height == old(image.height)
    ensures image.pixels == Image.Drawn(image.width, image.height, Colouring(s, grid))
  {
    var y := 0;
    while y < image.height
      invariant image.Valid() && image.width == old(image.width) && image.height == old(image.height)
      invariant 0 <= y <= image.height
      invariant Image.PaintedPrefix(image.pixels, image.width, Colouring(s, grid), y * image.width)
    {
      RenderRow(s, nu, grid, image, y);
      y := y + 1;
    }
    Image.PaintedAll(image.pixels, image.width, image.height, Colouring(s, grid));
  }

  /** render_complex_fractal(width, height, view, iterate, initial,
      parameter, cfg): the same grid and escape loop as FractalRenderer,
      the pixels coloured from the integer count. */
  method RenderComplexFractal(s: Scene, nu: real -> real) returns (res: Result<Image.Bmp>)
    requires s.width != 1 && s.height != 1
    ensures res.Err? <==> s.width * s.height < 0
    ensures res.Err? ==> res.error == LengthError
    ensures res.Ok? ==> fresh(res.value) && res.value.Valid()
    ensures res.Ok? ==> res.value.width == s.width && res.value.height == s.height
    ensures res.Ok? && s.width > 0 && s.height >= 0 ==>
              res.value.pixels == Image.Drawn(s.width, s.height, Colouring(s, GridOf(s.view, s.width, s.height)))
    ensures res.Ok? && s.width <= 0 ==> res.value.pixels == Repeat(Image.White(), s.width * s.height)
  {
    var width, height := s.width, s.height;
    var empty := Image.Bmp.EmptyWhite(width, height);
    if empty.Err? {
      return Err(empty.error);
    }
    var image := empty.value;
    var realMin, realMax := s.view.min.re, s.view.max.re;
    var imagMin, imagMax := s.view.min.im, s.view.max.im;
    var realStep := (realMax - realMin) / (width - 1) as real;
    var imagStep := (imagMax - imagMin) / (height - 1) as real;
    var grid := Grid(realMin, imagMax, realStep, imagStep);
    if width > 0 {
      Image.PositiveFactor(width, height);
      RenderRows(s, nu, grid, image);
    }
    return Ok(image);
  }
}
