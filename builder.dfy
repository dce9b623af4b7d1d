/** FractalRendererBuilder (src/fractal/fractal_renderer_builder.cpp): a
    mutable record of every FractalRenderer field, with one chaining
    setter per field and build() to take a renderer from it. The setters
    store their argument as given; they check nothing. */
module Builder {
  import C = Complex
  import opened EscapeTime
  import FractalRenderer

  class FractalRendererBuilder {
    var width: int
    var height: int
    var viewport: Viewport
    var config: Config
    var iterate: (C.Complex, C.Complex) -> C.Complex
    var init: C.Complex -> C.Complex
    var param: C.Complex -> C.Complex

    /** The constructor stores its seven arguments. */
    constructor (w: int, h: int, v: Viewport, cfg: Config,
                 it: (C.Complex, C.Complex) -> C.Complex, ini: C.Complex -> C.Complex, par: C.Complex -> C.Complex)
      ensures width == w && height == h && viewport == v && config == cfg
      ensures iterate == it && init == ini && param == par
    {
      width, height, viewport, config := w, h, v, cfg;
      iterate, init, param := it, ini, par;
    }

    /** get_builder(): a 256×256 Mandelbrot set over (−2 − 1.5i)..(1 + 1.5i)
        with 300 iterations and escape radius 2: z ↦ z² + c, z₀ the pixel
        and c = 0. */
    static method GetBuilder() returns (b: FractalRendererBuilder)
      ensures fresh(b)
      ensures b.width == 256 && b.height == 256
      ensures b.viewport == Viewport(C.Complex(-2.0, -1.5), C.Complex(1.0, 1.5))
      ensures b.config == DefaultConfig()
      ensures forall z, c :: b.iterate(z, c) == C.Add(C.Mul(z, z), c)
      ensures forall p :: b.init(p) == p
      ensures forall p :: b.param(p) == C.Zero()
    {
      b := new FractalRendererBuilder(256, 256, Viewport(C.Complex(-2.0, -1.5), C.Complex(1.0, 1.5)),
                                      Config(300, 2.0),
                                      (z, c) => C.Add(C.Mul(z, z), c),
                                      p => p,
                                      p => C.Zero());
    }

    /** build() const: a renderer holding the builder's current fields,
        each in the member of the same name; the builder is only read, so
        it can go on being configured and built again. */
    function Build(): (r: FractalRenderer.Renderer)
      reads this
      ensures r.width == width && r.height == height && r.viewport == viewport && r.config == config
      ensures r.iterate == iterate && r.init == init && r.param == param
    {
      FractalRenderer.Renderer(width, height, viewport, iterate, init, param, config)
    }

    method SetImageWidth(w: int) returns (self: FractalRendererBuilder)
      modifies this
      ensures self == this && width == w
      ensures height == old(height) && viewport == old(viewport) && config == old(config)
      ensures iterate == old(iterate) && init == old(init) && param == old(param)
    {
      width := w;
      return this;
    }

    method SetImageHeight(h: int) returns (self: FractalRendererBuilder)
      modifies this
      ensures self == this && height == h
      ensures width == old(width) && viewport == old(viewport) && config == old(config)
      ensures iterate == old(iterate) && init == old(init) && param == old(param)
    {
      height := h;
      return this;
    }

    method SetViewport(v: Viewport) returns (self: FractalRendererBuilder)
      modifies this
      ensures self == this && viewport == v
      ensures width == old(width) && height == old(height) && config == old(config)
      ensures iterate == old(iterate) && init == old(init) && param == old(param)
    {
      viewport := v;
      return this;
    }

    /** set_viewport_max: the upper-right corner only. */
    method SetViewportMax(max: C.Complex) returns (self: FractalRendererBuilder)
      modifies this
      ensures self == this && viewport == old(viewport).(max := max)
      ensures width == old(width) && height == old(height) && config == old(config)
      ensures iterate == old(iterate) && init == old(init) && param == old(param)
    {
      viewport := viewport.(max := max);
      return this;
    }

    /** set_viewport_min: the lower-left corner only. */
    method SetViewportMin(min: C.Complex) returns (self: FractalRendererBuilder)
      modifies this
      ensures self == this && viewport == old(viewport).(min := min)
      ensures width == old(width) && height == old(height) && config == old(config)
      ensures iterate == old(iterate) && init == old(init) && param == old(param)
    {
      viewport := viewport.(min := min);
      return this;
    }

    method SetMaxIter(maxIter: int) returns (self: FractalRendererBuilder)
      modifies this
      ensures self == this && config == old(config).(maxIter := maxIter)
      ensures width == old(width) && height == old(height) && viewport == old(viewport)
      ensures iterate == old(iterate) && init == old(init) && param == old(param)
    {
      config := config.(maxIter := maxIter);
      return this;
    }

    method SetEscapeRadius(escapeRadius: real) returns (self: FractalRendererBuilder)
      modifies this
      ensures self == this && config == old(config).(escapeRadius := escapeRadius)
      ensures width == old(width) && height == old(height) && viewport == old(viewport)
      ensures iterate == old(iterate) && init == old(init) && param == old(param)
    {
      config := config.(escapeRadius := escapeRadius);
      return this;
    }

    method SetIterationFunc(it: (C.Complex, C.Complex) -> C.Complex) returns (self: FractalRendererBuilder)
      modifies this
      ensures self == this && iterate == it
      ensures width == old(width) && height == old(height) && viewport == old(viewport) && config == old(config)
      ensures init == old(init) && param == old(param)
    {
      iterate := it;
      return this;
    }

    method SetInitialFunc(ini: C.Complex -> C.Complex) returns (self: FractalRendererBuilder)
      modifies this
      ensures self == this && init == ini
      ensures width == old(width) && height == old(height) && viewport == old(viewport) && config == old(config)
      ensures iterate == old(iterate) && param == old(param)
    {
      init := ini;
      return this;
    }

    method SetParamFunc(par: C.Complex -> C.Complex) returns (self: FractalRendererBuilder)
      modifies this
      ensures self == this && param == par
      ensures width == old(width) && height == old(height) && viewport == old(viewport) && config == old(config)
      ensures iterate == old(iterate) && init == old(init)
    {
      param := par;
      return this;
    }
  }

  /** A chained configuration, as the usage examples write one: the
      default builder with a new size and iteration budget builds a
      renderer that keeps every other default, and a second build after a
      further setter reflects only that change. */
  method ChainExample() returns (first: FractalRenderer.Renderer, second: FractalRenderer.Renderer)
    ensures first.width == 800 && first.height == 600 && first.config == Config(500, 2.0)
    ensures first.viewport == Viewport(C.Complex(-2.0, -1.5), C.Complex(1.0, 1.5))
    ensures second == first.(config := Config(500, 4.0))
  {
    var b := FractalRendererBuilder.GetBuilder();
    var b1 := b.SetImageWidth(800);
    var b2 := b1.SetImageHeight(600);
    var b3 := b2.SetMaxIter(500);
    first := b3.Build();
    var b4 := b3.SetEscapeRadius(4.0);
    second := b4.Build();
  }
}
