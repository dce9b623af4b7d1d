/** Keyframe interpolation (src/fractal/fractal_animation.cpp): a frame
    between two keyframes, linear in the camera centre, the iteration
    budget, the escape radius and the Julia parameter, and exponential in
    the camera scale. */
module Animation {
  import C = Complex
  import opened EscapeTime
  import Palette
  import Camera

  /** FractalKeyframe: a camera, a configuration and the Julia c. */
  datatype Keyframe = Keyframe(camera: Camera.FractalCamera, config: Config, juliaC: C.Complex)

  /** lerp(a, b, t) = a (1 − t) + b t: a at t = 0, b at t = 1, and a
      constant between equal ends. */
  function Lerp(a: real, b: real, t: real): (r: real)
    ensures t == 0.0 ==> r == a
    ensures t == 1.0 ==> r == b
    ensures a == b ==> r == a
  {
    a * (1.0 - t) + b * t
  }

  /** The complex lerp, part by part. */
  function LerpComplex(a: C.Complex, b: C.Complex, t: real): (r: C.Complex)
    ensures r.re == Lerp(a.re, b.re, t) && r.im == Lerp(a.im, b.im, t)
    ensures t == 0.0 ==> r == a
    ensures t == 1.0 ==> r == b
  {
    C.Complex(Lerp(a.re, b.re, t), Lerp(a.im, b.im, t))
  }

  /** interpolate(a, b, t). std::pow is the parameter pow; the ratio
      b.scale / a.scale is a floating-point division, so a zero a.scale
      is left out. max_iter is the lerp of the two budgets truncated
      toward zero. */
  function Interpolate(a: Keyframe, b: Keyframe, t: real, pow: (real, real) -> real): (out: Keyframe)
    requires a.camera.scale != 0.0
    ensures out.camera.center == LerpComplex(a.camera.center, b.camera.center, t)
    ensures out.config.escapeRadius == Lerp(a.config.escapeRadius, b.config.escapeRadius, t)
    ensures out.juliaC == LerpComplex(a.juliaC, b.juliaC, t)
    ensures out.camera.scale == a.camera.scale * pow(b.camera.scale / a.camera.scale, t)
    ensures out.config.maxIter == Palette.Trunc(Lerp(a.config.maxIter as real, b.config.maxIter as real, t))
  {
    var center := LerpComplex(a.camera.center, b.camera.center, t);
    var scale := a.camera.scale * pow(b.camera.scale / a.camera.scale, t);
    var maxIter := Palette.Trunc(Lerp(a.config.maxIter as real, b.config.maxIter as real, t));
    var escapeRadius := Lerp(a.config.escapeRadius, b.config.escapeRadius, t);
    Keyframe(Camera.FractalCamera(center, scale), Config(maxIter, escapeRadius),
             LerpComplex(a.juliaC, b.juliaC, t))
  }

  /** At t = 0 the frame is the first keyframe, for a pow with x⁰ = 1. */
  lemma InterpolateStart(a: Keyframe, b: Keyframe, pow: (real, real) -> real)
    requires a.camera.scale != 0.0
    requires pow(b.camera.scale / a.camera.scale, 0.0) == 1.0
    ensures Interpolate(a, b, 0.0, pow) == a
  {
    assert Palette.Trunc(a.config.maxIter as real) == a.config.maxIter;
  }

  /** At t = 1 the frame is the second keyframe, for a pow with x¹ = x. */
  lemma InterpolateEnd(a: Keyframe, b: Keyframe, pow: (real, real) -> real)
    requires a.camera.scale != 0.0
    requires pow(b.camera.scale / a.camera.scale, 1.0) == b.camera.scale / a.camera.scale
    ensures Interpolate(a, b, 1.0, pow) == b
  {
    var ratio := b.camera.scale / a.camera.scale;
    assert a.camera.scale * ratio == b.camera.scale;
    assert Palette.Trunc(b.config.maxIter as real) == b.config.maxIter;
  }

  /** Between keyframes with the same budget, the budget does not move. */
  lemma BudgetConstant(a: Keyframe, b: Keyframe, t: real, pow: (real, real) -> real)
    requires a.camera.scale != 0.0 && a.config.maxIter == b.config.maxIter
    ensures Interpolate(a, b, t, pow).config.maxIter == a.config.maxIter
  {
    assert Lerp(a.config.maxIter as real, b.config.maxIter as real, t) == a.config.maxIter as real;
  }

  /** For t in [0, 1] the interpolated budget lies between the two
      keyframes' budgets: the truncated lerp never leaves them. */
  lemma BudgetBetween(a: Keyframe, b: Keyframe, t: real, pow: (real, real) -> real)
    requires a.camera.scale != 0.0 && 0.0 <= t <= 1.0
    ensures var n := Interpolate(a, b, t, pow).config.maxIter;
            var lo := if a.config.maxIter <= b.config.maxIter then a.config.maxIter else b.config.maxIter;
            var hi := if a.config.maxIter <= b.config.maxIter then b.config.maxIter else a.config.maxIter;
            lo <= n <= hi
  {
    var x, y := a.config.maxIter as real, b.config.maxIter as real;
    LerpBetween(x, y, t);
    TruncBetween(Lerp(x, y, t), if x <= y then a.config.maxIter else b.config.maxIter,
                 if x <= y then b.config.maxIter else a.config.maxIter);
  }

  /** A lerp with t in [0, 1] lies between its ends. */
  lemma LerpBetween(x: real, y: real, t: real)
    requires 0.0 <= t <= 1.0
    ensures x <= y ==> x <= Lerp(x, y, t) <= y
    ensures y < x ==> y <= Lerp(x, y, t) <= x
  {
    assert Lerp(x, y, t) == x + (y - x) * t;
    if x <= y {
      Palette.MulNonneg(y - x, t);
      Palette.MulMonoReal(t, 1.0, y - x);
      assert (y - x) * t == t * (y - x);
    } else {
      Palette.MulNonneg(x - y, t);
      Palette.MulMonoReal(t, 1.0, x - y);
      assert (x - y) * t == t * (x - y);
    }
  }

  /** Truncation of a value between two integers stays between them. */
  lemma TruncBetween(v: real, lo: int, hi: int)
    requires lo as real <= v <= hi as real
    ensures lo <= Palette.Trunc(v) <= hi
  {
  }
}
