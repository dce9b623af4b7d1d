/** The colouring shared by the renderers: the colour_from_mu lambda of
    src/fractal/fractal_renderer.cpp and src/fractal/fractal.cpp and
    AbstractFractalRenderer::colorize. Points that never escape are black;
    the others get three polynomial blends of t = mu / max_iter. */
module Palette {
  import opened BmpFormat
  import Image

  /** static_cast<int>(double): truncation toward zero, so the result is
      the integer next to x on the side of 0. */
  function Trunc(x: real): (i: int)
    ensures x >= 0.0 ==> i as real <= x < i as real + 1.0
    ensures x < 0.0 ==> i as real - 1.0 < x <= i as real
  {
    if x >= 0.0 then x.Floor else -((-x).Floor)
  }

  /** static_cast<uint8_t>(double): truncation toward zero. For a value
      outside [0, 256) C++ leaves the result undefined; the model wraps it
      modulo 256. */
  function ToByte(x: real): (b: byte)
    ensures 0.0 <= x < 256.0 ==> b == x.Floor
  {
    Trunc(x) % 256
  }

  /** The red blend 9 (1 − t) t³ · 255. */
  function RedLevel(t: real): real {
    9.0 * (1.0 - t) * t * t * t * 255.0
  }

  /** The green blend 15 (1 − t)² t² · 255. */
  function GreenLevel(t: real): real {
    15.0 * (1.0 - t) * (1.0 - t) * t * t * 255.0
  }

  /** The blue blend 8.5 (1 − t)³ t · 255. */
  function BlueLevel(t: real): real {
    8.5 * (1.0 - t) * (1.0 - t) * (1.0 - t) * t * 255.0
  }

  /** colour_from_mu(mu, max_iter) and colorize(mu): black when
      mu >= max_iter, else {b, g, r} from the blends of mu / max_iter. For
      0 <= mu < max_iter every cast is exact (ChannelRange). */
  function ColorFromMu(mu: real, maxIter: int): (p: Pixel)
    requires mu < maxIter as real ==> maxIter != 0
    ensures mu >= maxIter as real ==> p == Image.Black()
    ensures 0.0 <= mu < maxIter as real ==>
              var t := mu / maxIter as real;
              && p.b == BlueLevel(t).Floor && p.g == GreenLevel(t).Floor && p.r == RedLevel(t).Floor
  {
    if mu >= maxIter as real then Image.Black()
    else
      var t := mu / maxIter as real;
      if 0.0 <= mu then
        UnitFraction(mu, maxIter as real);
        ChannelRange(t);
        Pixel(ToByte(BlueLevel(t)), ToByte(GreenLevel(t)), ToByte(RedLevel(t)))
      else
        Pixel(ToByte(BlueLevel(t)), ToByte(GreenLevel(t)), ToByte(RedLevel(t)))
  }

  /** The lambda of src/fractal/fractal.cpp, which builds its Pixel as
      {r, g, b}: the red blend lands in the blue field and the blue blend
      in the red field. */
  function ColorFromMuRgb(mu: real, maxIter: int): (p: Pixel)
    requires mu < maxIter as real ==> maxIter != 0
    ensures p == SwapRedBlue(ColorFromMu(mu, maxIter))
  {
    if mu >= maxIter as real then Image.Black()
    else
      var t := mu / maxIter as real;
      Pixel(ToByte(RedLevel(t)), ToByte(GreenLevel(t)), ToByte(BlueLevel(t)))
  }

  /** The same colour with the blue and red bytes exchanged. */
  function SwapRedBlue(p: Pixel): Pixel {
    Pixel(p.r, p.g, p.b)
  }

  /** 0 <= a < b gives 0 <= a / b < 1. */
  lemma UnitFraction(a: real, b: real)
    requires 0.0 <= a < b
    ensures 0.0 <= a / b < 1.0
  {
    var q := a / b;
    assert q * b == a;
    if q < 0.0 {
      MulNonneg(-q, b);
    }
    if q >= 1.0 {
      MulNonneg(q - 1.0, b);
    }
  }

  /** For t in [0, 1] each blend lies in [0, 255), so the uint8_t casts of
      colour_from_mu neither wrap nor leave the colour range. */
  lemma ChannelRange(t: real)
    requires 0.0 <= t <= 1.0
    ensures 0.0 <= RedLevel(t) < 255.0
    ensures 0.0 <= GreenLevel(t) < 255.0
    ensures 0.0 <= BlueLevel(t) < 255.0
  {
    RedRange(t);
    GreenRange(t);
    RedRange(1.0 - t);
    assert BlueLevel(t) == RedLevel(1.0 - t) * (8.5 / 9.0);
  }

  /** The red blend is 2295 · (1 − t) t³, and (1 − t) t³ <= 27/256. */
  lemma RedRange(t: real)
    requires 0.0 <= t <= 1.0
    ensures 0.0 <= RedLevel(t) <= 2295.0 * 27.0 / 256.0
  {
    var q := (1.0 - t) * t * t * t;
    QuarticBound(t);
    MulNonneg(1.0 - t, t);
    MulNonneg((1.0 - t) * t, t * t);
    assert q == (1.0 - t) * t * (t * t);
    assert RedLevel(t) == 2295.0 * q;
  }

  /** The green blend is 3825 · ((1 − t) t)², and 0 <= (1 − t) t <= 1/4. */
  lemma GreenRange(t: real)
    requires 0.0 <= t <= 1.0
    ensures 0.0 <= GreenLevel(t) <= 3825.0 / 16.0
  {
    var p := (1.0 - t) * t;
    ProductBound(t);
    MulMonoReal(p, 0.25, p);
    MulMonoReal(p, 0.25, 0.25);
    MulNonneg(p, p);
    assert GreenLevel(t) == 3825.0 * (p * p);
  }

  /** (1 − t) t³ <= 27/256 for every real t: the difference is
      (t − 3/4)² ((t + 1/4)² + 1/8). */
  lemma QuarticBound(t: real)
    ensures (1.0 - t) * t * t * t <= 27.0 / 256.0
  {
    var a, b := t - 0.75, (t + 0.25) * (t + 0.25) + 0.125;
    assert 27.0 / 256.0 - (1.0 - t) * t * t * t == (a * a) * b;
    Square(a);
    Square(t + 0.25);
    MulNonneg(a * a, b);
  }

  /** (1 − t) t <= 1/4 for every real t, and it is non-negative on [0, 1]. */
  lemma ProductBound(t: real)
    ensures (1.0 - t) * t <= 0.25
    ensures 0.0 <= t <= 1.0 ==> 0.0 <= (1.0 - t) * t
  {
    assert 0.25 - (1.0 - t) * t == (t - 0.5) * (t - 0.5);
    Square(t - 0.5);
    if 0.0 <= t <= 1.0 {
      MulNonneg(1.0 - t, t);
    }
  }

  lemma Square(a: real)
    ensures a * a >= 0.0
  {
    if a >= 0.0 {
      MulNonneg(a, a);
    } else {
      MulNonneg(-a, -a);
    }
  }

  lemma MulNonneg(a: real, b: real)
    requires a >= 0.0 && b >= 0.0
    ensures a * b >= 0.0
  {
  }

  lemma MulPos(a: real, b: real)
    requires a > 0.0 && b > 0.0
    ensures a * b > 0.0
  {
  }

  lemma MulMonoReal(a: real, b: real, c: real)
    requires a <= b && c >= 0.0
    ensures a * c <= b * c
  {
    MulNonneg(b - a, c);
  }
}
