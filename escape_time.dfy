/** The escape-time kernel the renderers share (include/fractal/
    fractal_structures.hpp and the inner while loop of every render): from
    z = init(pixel), apply z := iterate(z, c) with c = param(pixel) fixed,
    until the iteration budget is spent or z leaves the bounded region. */
module EscapeTime {
  import C = Complex

  /** FractalConfig: the iteration budget and the escape radius. */
  datatype Config = Config(maxIter: int, escapeRadius: real)

  /** The struct's default member initialisers. */
  function DefaultConfig(): (cfg: Config)
    ensures cfg.maxIter == 300 && cfg.escapeRadius == 2.0
  {
    Config(300, 2.0)
  }

  /** Viewport: the lower-left and upper-right corners of the plane region. */
  datatype Viewport = Viewport(min: C.Complex, max: C.Complex)

  /** The constants a render computes before its loops: the viewport's
      left edge and top edge and the plane distance between neighbouring
      pixel columns and rows. */
  datatype Grid = Grid(realMin: real, imagMax: real, realStep: real, imagStep: real)

  /** real_step = (max.real − min.real) / (width − 1) and likewise for the
      imaginary axis; the steps span the viewport in width − 1 and
      height − 1 steps. */
  function GridOf(v: Viewport, width: int, height: int): (g: Grid)
    requires width != 1 && height != 1
    ensures g.realMin == v.min.re && g.imagMax == v.max.im
    ensures g.realStep * (width - 1) as real == v.max.re - v.min.re
    ensures g.imagStep * (height - 1) as real == v.max.im - v.min.im
  {
    Grid(v.min.re, v.max.im, (v.max.re - v.min.re) / (width - 1) as real,
         (v.max.im - v.min.im) / (height - 1) as real)
  }

  /** pixel_to_complex_fast: column x and row y, counted from the top-left
      corner, to the point real_min + x·real_step + (imag_max − y·imag_step)i. */
  function PixelToComplexFast(x: int, y: int, g: Grid): C.Complex {
    C.Complex(g.realMin + x as real * g.realStep, g.imagMax - y as real * g.imagStep)
  }

  /** The top-left pixel is the viewport's (min.real, max.imag) corner and
      the bottom-right pixel its (max.real, min.imag) corner. */
  lemma GridCorners(v: Viewport, width: int, height: int)
    requires width >= 2 && height >= 2
    ensures PixelToComplexFast(0, 0, GridOf(v, width, height)) == C.Complex(v.min.re, v.max.im)
    ensures PixelToComplexFast(width - 1, height - 1, GridOf(v, width, height)) == C.Complex(v.max.re, v.min.im)
  {
    var g := GridOf(v, width, height);
    assert (width - 1) as real * g.realStep == v.max.re - v.min.re;
    assert (height - 1) as real * g.imagStep == v.max.im - v.min.im;
  }

  /** The smoothed count of every render: the integer count itself for a
      point that used the whole budget, and otherwise count + 1 − ν, where
      nu(|z|²) stands for the transcendental ν = log₂(log(|z|²)/2 / log 2)
      of the source, here an uninterpreted parameter. */
  function Smoothed(iter: int, z: C.Complex, maxIter: int, nu: real -> real): (mu: real)
    ensures iter >= maxIter ==> mu == iter as real
  {
    if iter < maxIter then (iter + 1) as real - nu(C.NormSq(z)) else iter as real
  }

  /** iterate applied k times to z, with the parameter c fixed. */
  function Orbit(iterate: (C.Complex, C.Complex) -> C.Complex, z: C.Complex, c: C.Complex, k: nat): C.Complex
  {
    if k == 0 then z else iterate(Orbit(iterate, z, c, k - 1), c)
  }

  /** `zr * zr + zi * zi > escape_radius_sq` is the break test: a point
      stays inside while its squared modulus is at most rSq. */
  function WithinSq(rSq: real): (inside: C.Complex -> bool)
    ensures forall z :: inside(z) <==> C.NormSq(z) <= rSq
  {
    z => C.NormSq(z) <= rSq
  }

  /** `z.get_modulus() <= escape_radius`, the loop condition of
      render_complex_fractal in src/fractal/complex_fractal.cpp. */
  function WithinRadius(radius: real): (inside: C.Complex -> bool)
    ensures forall z :: inside(z) <==> C.ModulusAtMost(z, radius)
  {
    z => C.ModulusAtMost(z, radius)
  }

  /** The budget the loop `while (iter < max_iter)` can spend. */
  function Budget(maxIter: int): (n: nat)
    ensures maxIter > 0 ==> n == maxIter
    ensures maxIter <= 0 ==> n == 0
  {
    if maxIter > 0 then maxIter else 0
  }

  /** The first index from k on at which the orbit is outside, or the
      budget if the orbit stays inside until then. */
  function FirstExit(inside: C.Complex -> bool, iterate: (C.Complex, C.Complex) -> C.Complex,
                     z: C.Complex, c: C.Complex, budget: nat, k: nat): (n: nat)
    requires k <= budget
    decreases budget - k
    ensures k <= n <= budget
    ensures forall j :: k <= j < n ==> inside(Orbit(iterate, z, c, j))
    ensures n < budget ==> !inside(Orbit(iterate, z, c, n))
  {
    if k == budget || !inside(Orbit(iterate, z, c, k)) then k
    else FirstExit(inside, iterate, z, c, budget, k + 1)
  }

  /** The iteration count the escape loop ends with. */
  function EscapeCount(inside: C.Complex -> bool, iterate: (C.Complex, C.Complex) -> C.Complex,
                       z: C.Complex, c: C.Complex, maxIter: int): (n: nat)
    ensures n <= Budget(maxIter)
  {
    FirstExit(inside, iterate, z, c, Budget(maxIter), 0)
  }

  /** The count is the only one that fits the loop's description: every
      earlier iterate inside, and, short of the budget, the final one
      outside. */
  lemma EscapeCountUnique(inside: C.Complex -> bool, iterate: (C.Complex, C.Complex) -> C.Complex,
                          z: C.Complex, c: C.Complex, maxIter: int, m: nat)
    requires m <= Budget(maxIter)
    requires forall j :: 0 <= j < m ==> inside(Orbit(iterate, z, c, j))
    requires m < Budget(maxIter) ==> !inside(Orbit(iterate, z, c, m))
    ensures m == EscapeCount(inside, iterate, z, c, maxIter)
  {
  }

  /** The escape loop of the renderers:
        iter = 0; while (iter < max_iter) { if (!inside(z)) break; z = iterate(z, c); ++iter; }
      which is also `while (iter < max_iter && inside(z))` with the same
      body. It ends with the escape count, z the orbit at that count. */
  method EscapeLoop(inside: C.Complex -> bool, iterate: (C.Complex, C.Complex) -> C.Complex,
                    z0: C.Complex, c: C.Complex, maxIter: int)
    returns (iter: int, z: C.Complex)
    ensures 0 <= iter && (maxIter > 0 ==> iter <= maxIter) && (maxIter <= 0 ==> iter == 0)
    ensures iter == EscapeCount(inside, iterate, z0, c, maxIter)
    ensures z == Orbit(iterate, z0, c, iter)
  {
    ghost var budget := Budget(maxIter);
    z := z0;
    iter := 0;
    while iter < maxIter
      invariant 0 <= iter <= budget
      invariant z == Orbit(iterate, z0, c, iter)
      invariant FirstExit(inside, iterate, z0, c, budget, iter) == EscapeCount(inside, iterate, z0, c, maxIter)
    {
      if !inside(z) {
        break;
      }
      z := iterate(z, c);
      iter := iter + 1;
    }
  }

  /** What the count says about the orbit: every iterate before it inside
      the region, and the last one outside unless the budget ran out. */
  lemma EscapeCountMeaning(inside: C.Complex -> bool, iterate: (C.Complex, C.Complex) -> C.Complex,
                           z: C.Complex, c: C.Complex, maxIter: int)
    ensures var n := EscapeCount(inside, iterate, z, c, maxIter);
            && (forall j :: 0 <= j < n ==> inside(Orbit(iterate, z, c, j)))
            && (n < maxIter ==> !inside(Orbit(iterate, z, c, n)))
  {
  }
}
