/** FractalRenderer (src/fractal/fractal_renderer.cpp): an escape-time
    renderer over a fixed image size, viewport, callbacks and configuration.
    render() maps every pixel to the plane, runs the escape loop from
    init(pixel) with c = param(pixel), smooths the count and colours it. */
module FractalRenderer {
  import opened Wrappers
  import opened Seqs
  import opened BmpFormat
  import C = Complex
  import opened EscapeTime
  import Palette
  import Image

  /** The members the constructor stores as given. */
  datatype Renderer = Renderer(width: int, height: int, viewport: Viewport,
                               iterate: (C.Complex, C.Complex) -> C.Complex,
                               init: C.Complex -> C.Complex,
                               param: C.Complex -> C.Complex,
                               config: Config)

  /** The count of the escape loop at pixel (x, y): the break test is
      zr² + zi² > escape_radius². */
  function CountAt(r: Renderer, g: Grid, x: int, y: int): (n: nat)
    ensures n <= Budget(r.config.maxIter)
  {
    var p := PixelToComplexFast(x, y, g);
    EscapeCount(WithinSq(r.config.escapeRadius * r.config.escapeRadius), r.iterate,
                r.init(p), r.param(p), r.config.maxIter)
  }

  /** The colour render writes at (x, y): color_from_mu of the smoothed
      count, ν taken from the orbit point the loop stopped at. */
  function ColorAt(r: Renderer, g: Grid, nu: real -> real, x: int, y: int): Pixel {
    var p := PixelToComplexFast(x, y, g);
    var n := CountAt(r, g, x, y);
    var z := Orbit(r.iterate, r.init(p), r.param(p), n);
    Palette.ColorFromMu(Smoothed(n, z, r.config.maxIter, nu), r.config.maxIter)
  }

  /** The whole colouring of the image, pixel by pixel. */
  function Colouring(r: Renderer, g: Grid, nu: real -> real): (int, int) -> Pixel {
    (x, y) => ColorAt(r, g, nu, x, y)
  }

  /** A point whose orbit stays within the escape radius for the whole
      budget is painted black. */
  lemma InteriorBlack(r: Renderer, g: Grid, nu: real -> real, x: int, y: int)
    ensures var p := PixelToComplexFast(x, y, g);
            var inside := WithinSq(r.config.escapeRadius * r.config.escapeRadius);
            (forall j :: 0 <= j < r.config.maxIter ==> inside(Orbit(r.iterate, r.init(p), r.param(p), j)))
            ==> ColorAt(r, g, nu, x, y) == Image.Black()
  {
    var p := PixelToComplexFast(x, y, g);
    var inside := WithinSq(r.config.escapeRadius * r.config.escapeRadius);
    var maxIter := r.config.maxIter;
    if forall j :: 0 <= j < maxIter ==> inside(Orbit(r.iterate, r.init(p), r.param(p), j)) {
      EscapeCountUnique(inside, r.iterate, r.init(p), r.param(p), maxIter, Budget(maxIter));
      var n := CountAt(r, g, x, y);
      assert n == Budget(maxIter);
      var mu := Smoothed(n, Orbit(r.iterate, r.init(p), r.param(p), n), maxIter, nu);
      assert mu >= maxIter as real;
    }
  }

  /** An escaping point whose smoothed count lies in [0, max_iter) gets
      the three blends, each cast exactly and below 255. */
  lemma EscapedColour(r: Renderer, g: Grid, nu: real -> real, x: int, y: int)
    ensures var p := PixelToComplexFast(x, y, g);
            var n := CountAt(r, g, x, y);
            var mu := Smoothed(n, Orbit(r.iterate, r.init(p), r.param(p), n), r.config.maxIter, nu);
            0.0 <= mu < r.config.maxIter as real ==>
              var t := mu / r.config.maxIter as real;
              && ColorAt(r, g, nu, x, y) == Pixel(Palette.BlueLevel(t).Floor, Palette.GreenLevel(t).Floor,
                                                  Palette.RedLevel(t).Floor)
              && ColorAt(r, g, nu, x, y).b < 255 && ColorAt(r, g, nu, x, y).g < 255
              && ColorAt(r, g, nu, x, y).r < 255
  {
    var p := PixelToComplexFast(x, y, g);
    var n := CountAt(r, g, x, y);
    var mu := Smoothed(n, Orbit(r.iterate, r.init(p), r.param(p), n), r.config.maxIter, nu);
    if 0.0 <= mu < r.config.maxIter as real {
      Palette.UnitFraction(mu, r.config.maxIter as real);
      Palette.ChannelRange(mu / r.config.maxIter as real);
    }
  }

  /** The body of the inner loop of render(): map the pixel, run the
      escape loop, smooth the count and colour it. */
  method RenderPixel(r: Renderer, nu: real -> real, grid: Grid, x: int, y: int) returns (p: Pixel)
    ensures p == ColorAt(r, grid, nu, x, y)
  {
    var maxIter := r.config.maxIter;
    var escapeRadiusSq := r.config.escapeRadius * r.config.escapeRadius;
    var pixel := PixelToComplexFast(x, y, grid);
    var z := r.init(pixel);
    var c := r.param(pixel);
    var iter, zn := EscapeLoop(WithinSq(escapeRadiusSq), r.iterate, z, c, maxIter);
    var mu := iter as real;
    if iter < maxIter {
      mu := (iter + 1) as real - nu(C.NormSq(zn));
    }
    assert iter == CountAt(r, grid, x, y);
    assert mu == Smoothed(iter, zn, maxIter, nu);
    p := Palette.ColorFromMu(mu, maxIter);
  }

  /** One pass of the inner loop: row y painted with try_set_pixel, which
      succeeds on every column. */
  method RenderRow(r: Renderer, nu: real -> real, grid: Grid, image: Image.Bmp, y: int)
    requires image.Valid() && image.width > 0 && 0 <= y < image.height
    requires Image.PaintedPrefix(image.pixels, image.width, Colouring(r, grid, nu), y * image.width)
    modifies image
    ensures image.Valid() && image.width == old(image.width) && image.height == old(image.height)
    ensures Image.PaintedPrefix(image.pixels, image.width, Colouring(r, grid, nu), (y + 1) * image.width)
  {
    ghost var colour := Colouring(r, grid, nu);
    var x := 0;
    while x < image.width
      invariant image.Valid() && image.width == old(image.width) && image.height == old(image.height)
      invariant 0 <= x <= image.width
      invariant Image.PaintedPrefix(image.pixels, image.width, colour, y * image.width + x)
    {
      var p := RenderPixel(r, nu, grid, x, y);
      ghost var before := image.pixels;
      Image.IndexInRange(x, y, image.width, image.height);
      var ok := image.TrySetPixel(x, y, p);
      assert ok;
      Image.PaintStep(before, image.width, colour, x, y);
      x := x + 1;
    }
    Image.RowDone(image.pixels, image.width, colour, y);
  }

  /** The outer loop of render() over a positive width: every row
      painted in turn, so the whole image is drawn. */
  method RenderRows(r: Renderer, nu: real -> real, grid: Grid, image: Image.Bmp)
    requires image.Valid() && image.width > 0 && image.height >= 0
    modifies image
    ensures image.Valid() && image.width == old(image.width) && image.height == old(image.height)
    ensures image.pixels == Image.Drawn(image.width, image.height, Colouring(r, grid, nu))
  {
    var y := 0;
    while y < image.height
      invariant image.Valid() && image.width == old(image.width) && image.height == old(image.height)
      invariant 0 <= y <= image.height
      invariant Image.PaintedPrefix(image.pixels, image.width, Colouring(r, grid, nu), y * image.width)
    {
      RenderRow(r, nu, grid, image, y);
      y := y + 1;
    }
    Image.PaintedAll(image.pixels, image.width, image.height, Colouring(r, grid, nu));
  }

  /** render(): Bmp::empty(width, height), then every pixel in row-major
      order set with try_set_pixel, which always succeeds because the
      loop bounds are the image's own size. The result is the drawn
      image of Colouring; with a non-positive width no pixel is visited
      and the image stays white. */
  method Render(r: Renderer, nu: real -> real) returns (res: Result<Image.Bmp>)
    requires r.width != 1 && r.height != 1
    ensures res.Err? <==> r.width * r.height < 0
    ensures res.Err? ==> res.error == LengthError
    ensures res.Ok? ==> fresh(res.value) && res.value.Valid()
    ensures res.Ok? ==> res.value.width == r.width && res.value.height == r.height
    ensures res.Ok? && r.width > 0 && r.height >= 0 ==>
              res.value.pixels == Image.Drawn(r.width, r.height,
                                              Colouring(r, GridOf(r.viewport, r.width, r.height), nu))
    ensures res.Ok? && r.width <= 0 ==> res.value.pixels == Repeat(Image.White(), r.width * r.height)
  {
    var width, height := r.width, r.height;
    var empty := Image.Bmp.EmptyWhite(width, height);
    if empty.Err? {
      return Err(empty.error);
    }
    var image := empty.value;
    var realMin, realMax := r.viewport.min.re, r.viewport.max.re;
    var imagMin, imagMax := r.viewport.min.im, r.viewport.max.im;
    var realStep := (realMax - realMin) / (width - 1) as real;
    var imagStep := (imagMax - imagMin) / (height - 1) as real;
    var grid := Grid(realMin, imagMax, realStep, imagStep);
    assert grid == GridOf(r.viewport, width, height);
    if width > 0 {
      Image.PositiveFactor(width, height);
      RenderRows(r, nu, grid, image);
    }
    return Ok(image);
  }
}
