/** AbstractFractalRenderer (src/fractal/abstract_fractal_renderer.cpp): a
    template-method renderer. A subclass supplies initialize_pixel,
    get_param and iterate_pixel; smooth and colorize have default bodies,
    which this model uses. */
module AbstractFractalRenderer {
  import opened Wrappers
  import opened Seqs
  import opened BmpFormat
  import C = Complex
  import opened EscapeTime
  import Palette
  import Image

  /** The protected members and the three pure virtual hooks. */
  datatype Renderer = Renderer(width: int, height: int, config: Config, viewport: Viewport,
                               initializePixel: C.Complex -> C.Complex,
                               getParam: C.Complex -> C.Complex,
                               iteratePixel: (C.Complex, C.Complex) -> C.Complex)

  /** pixel_to_complex(x, y, real_step, imag_step): the viewport's
      (min.real, max.imag) corner moved x steps right and y steps down. */
  function PixelToComplex(r: Renderer, x: int, y: int, realStep: real, imagStep: real): C.Complex {
    PixelToComplexFast(x, y, Grid(r.viewport.min.re, r.viewport.max.im, realStep, imagStep))
  }

  /** With the steps render computes, the first pixel is the top-left
      corner of the viewport and the last pixel its bottom-right corner. */
  lemma PixelCorners(r: Renderer)
    requires r.width >= 2 && r.height >= 2
    ensures var g := GridOf(r.viewport, r.width, r.height);
            && PixelToComplex(r, 0, 0, g.realStep, g.imagStep) == C.Complex(r.viewport.min.re, r.viewport.max.im)
            && PixelToComplex(r, r.width - 1, r.height - 1, g.realStep, g.imagStep)
               == C.Complex(r.viewport.max.re, r.viewport.min.im)
  {
    GridCorners(r.viewport, r.width, r.height);
  }

  /** smooth(z, iter): the count itself once the budget is used up. */
  function Smooth(r: Renderer, nu: real -> real, z: C.Complex, iter: int): (mu: real)
    ensures iter >= r.config.maxIter ==> mu == iter as real
    ensures iter < r.config.maxIter ==> mu == (iter + 1) as real - nu(C.NormSq(z))
  {
    Smoothed(iter, z, r.config.maxIter, nu)
  }

  /** colorize(mu): black from max_iter on; below it, for a non-negative
      mu, the exact blends of mu / max_iter in {b, g, r} order. */
  function Colorize(r: Renderer, mu: real): (p: Pixel)
    requires mu < r.config.maxIter as real ==> r.config.maxIter != 0
    ensures mu >= r.config.maxIter as real ==> p == Image.Black()
    ensures 0.0 <= mu < r.config.maxIter as real ==>
              var t := mu / r.config.maxIter as real;
              && p.b == Palette.BlueLevel(t).Floor && p.g == Palette.GreenLevel(t).Floor
              && p.r == Palette.RedLevel(t).Floor
  {
    Palette.ColorFromMu(mu, r.config.maxIter)
  }

  /** The escape count of the loop at pixel (x, y). */
  function CountAt(r: Renderer, g: Grid, x: int, y: int): (n: nat)
    ensures n <= Budget(r.config.maxIter)
  {
    var p := PixelToComplex(r, x, y, g.realStep, g.imagStep);
    EscapeCount(WithinSq(r.config.escapeRadius * r.config.escapeRadius), r.iteratePixel,
                r.initializePixel(p), r.getParam(p), r.config.maxIter)
  }

  /** What render writes at (x, y): colorize(smooth(z, iter)). */
  function ColorAt(r: Renderer, g: Grid, nu: real -> real, x: int, y: int): Pixel {
    var p := PixelToComplex(r, x, y, g.realStep, g.imagStep);
    var n := CountAt(r, g, x, y);
    var z := Orbit(r.iteratePixel, r.initializePixel(p), r.getParam(p), n);
    Colorize(r, Smooth(r, nu, z, n))
  }

  function Colouring(r: Renderer, g: Grid, nu: real -> real): (int, int) -> Pixel {
    (x, y) => ColorAt(r, g, nu, x, y)
  }

  /** Interior points, whose orbit never leaves the escape radius within
      the budget, are black. */
  lemma InteriorBlack(r: Renderer, g: Grid, nu: real -> real, x: int, y: int)
    ensures var p := PixelToComplex(r, x, y, g.realStep, g.imagStep);
            var inside := WithinSq(r.config.escapeRadius * r.config.escapeRadius);
            (forall j :: 0 <= j < r.config.maxIter ==>
               inside(Orbit(r.iteratePixel, r.initializePixel(p), r.getParam(p), j)))
            ==> ColorAt(r, g, nu, x, y) == Image.Black()
  {
    var p := PixelToComplex(r, x, y, g.realStep, g.imagStep);
    var inside := WithinSq(r.config.escapeRadius * r.config.escapeRadius);
    var maxIter := r.config.maxIter;
    if forall j :: 0 <= j < maxIter ==> inside(Orbit(r.iteratePixel, r.initializePixel(p), r.getParam(p), j)) {
      EscapeCountUnique(inside, r.iteratePixel, r.initializePixel(p), r.getParam(p), maxIter, Budget(maxIter));
      var n := CountAt(r, g, x, y);
      assert n == Budget(maxIter);
      var mu := Smooth(r, nu, Orbit(r.iteratePixel, r.initializePixel(p), r.getParam(p), n), n);
      assert mu >= maxIter as real;
    }
  }

  /** The body of the inner loop of render(). */
  method RenderPixel(r: Renderer, nu: real -> real, grid: Grid, x: int, y: int) returns (p: Pixel)
    ensures p == ColorAt(r, grid, nu, x, y)
  {
    var escapeRadiusSq := r.config.escapeRadius * r.config.escapeRadius;
    var pixel := PixelToComplex(r, x, y, grid.realStep, grid.imagStep);
    var z := r.initializePixel(pixel);
    var c := r.getParam(pixel);
    var iter, zn := EscapeLoop(WithinSq(escapeRadiusSq), r.iteratePixel, z, c, r.config.maxIter);
    assert iter == CountAt(r, grid, x, y);
    var mu := Smooth(r, nu, zn, iter);
    p := Colorize(r, mu);
  }

  /** Row y painted with try_set_pixel, which succeeds on every column. */
  method RenderRow(r: Renderer, nu: real -> real, grid: Grid, image: Image.Bmp, y: int)
    requires image.Valid() && image.width > 0 && 0 <= y < image.height
    requires Image.PaintedPrefix(image.pixels, image.width, Colouring(r, grid, nu), y * image.width)
    modifies image
    ensures image.Valid() && image.width == old(image.width) && image.height == old(image.height)
    ensures Image.PaintedPrefix(image.pixels, image.width, Colouring(r, grid, nu), (y + 1) * image.width)
  {
    ghost var colour := Colouring(r, grid, nu);
    var x := 0;
    while x < image.width
      invariant image.Valid() && image.width == old(image.width) && image.height == old(image.height)
      invariant 0 <= x <= image.width
      invariant Image.PaintedPrefix(image.pixels, image.width, colour, y * image.width + x)
    {
      var p := RenderPixel(r, nu, grid, x, y);
      ghost var before := image.pixels;
      Image.IndexInRange(x, y, image.width, image.height);
      var ok := image.TrySetPixel(x, y, p);
      assert ok;
      Image.PaintStep(before, image.width, colour, x, y);
      x := x + 1;
    }
    Image.RowDone(image.pixels, image.width, colour, y);
  }

  /** The outer loop of render() over a positive width. */
  method RenderRows(r: Renderer, nu: real -> real, grid: Grid, image: Image.Bmp)
    requires image.Valid() && image.width > 0 && image.height >= 0
    modifies image
    ensures image.Valid() && image.width == old(image.width) && image.height == old(image.height)
    ensures image.pixels == Image.Drawn(image.width, image.height, Colouring(r, grid, nu))
  {
    var y := 0;
    while y < image.height
      invariant image.Valid() && image.width == old(image.width) && image.height == old(image.height)
      invariant 0 <= y <= image.height
      invariant Image.PaintedPrefix(image.pixels, image.width, Colouring(r, grid, nu), y * image.width)
    {
      RenderRow(r, nu, grid, image, y);
      y := y + 1;
    }
    Image.PaintedAll(image.pixels, image.width, image.height, Colouring(r, grid, nu));
  }

  /** render(): Bmp::empty(width, height), the steps from the viewport,
      and every pixel set to colorize(smooth(z, iter)). */
  method Render(r: Renderer, nu: real -> real) returns (res: Result<Image.Bmp>)
    requires r.width != 1 && r.height != 1
    ensures res.Err? <==> r.width * r.height < 0
    ensures res.Err? ==> res.error == LengthError
    ensures res.Ok? ==> fresh(res.value) && res.value.Valid()
    ensures res.Ok? ==> res.value.width == r.width && res.value.height == r.height
    ensures res.Ok? && r.width > 0 && r.height >= 0 ==>
              res.value.pixels == Image.Drawn(r.width, r.height,
                                              Colouring(r, GridOf(r.viewport, r.width, r.height), nu))
    ensures res.Ok? && r.width <= 0 ==> res.value.pixels == Repeat(Image.White(), r.width * r.height)
  {
    var width, height := r.width, r.height;
    var empty := Image.Bmp.EmptyWhite(width, height);
    if empty.Err? {
      return Err(empty.error);
    }
    var image := empty.value;
    var realStep := (r.viewport.max.re - r.viewport.min.re) / (width - 1) as real;
    var imagStep := (r.viewport.max.im - r.viewport.min.im) / (height - 1) as real;
    var grid := Grid(r.viewport.min.re, r.viewport.max.im, realStep, imagStep);
    assert grid == GridOf(r.viewport, width, height);
    if width > 0 {
      Image.PositiveFactor(width, height);
      RenderRows(r, nu, grid, image);
    }
    return Ok(image);
  }
}
