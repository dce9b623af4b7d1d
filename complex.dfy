/** Algebraic complex numbers over exact reals (the non-transcendental part
    of iheay::math::Complex). The C++ class stores two doubles; here they are
    Dafny reals, so every identity below is exact. */
module Complex {
  import opened Wrappers

  /** Complex::Algebraic(real, imag) is the constructor itself. */
  datatype Complex = Complex(re: real, im: real)

  /** Complex::Zero(), the value of the default constructor. */
  function Zero(): Complex {
    Complex(0.0, 0.0)
  }

  /** The squared modulus re² + im², the quantity the render loops compare
      against escape_radius². */
  function NormSq(z: Complex): (n: real)
    ensures n >= 0.0
  {
    z.re * z.re + z.im * z.im
  }

  /** `z.get_modulus() <= r`, stated without a square root: the modulus is
      the non-negative root of NormSq, so it is at most r exactly when r is
      non-negative and NormSq(z) <= r². */
  predicate ModulusAtMost(z: Complex, r: real) {
    r >= 0.0 && NormSq(z) <= r * r
  }

  /** Unary minus. */
  function Neg(z: Complex): Complex {
    Complex(-z.re, -z.im)
  }

  /** Unary minus yields the additive inverse. */
  lemma AddNeg(z: Complex)
    ensures Add(z, Neg(z)) == Zero()
  {
  }

  /** operator~, the conjugate. */
  function Conj(z: Complex): Complex
  {
    Complex(z.re, -z.im)
  }

  function Add(a: Complex, b: Complex): Complex {
    Complex(a.re + b.re, a.im + b.im)
  }

  /** operator-(other) is written as `*this + (-other)`; its result is the
      componentwise difference and undoes an addition of b. */
  function Sub(a: Complex, b: Complex): (r: Complex)
    ensures r.re == a.re - b.re && r.im == a.im - b.im
    ensures Add(r, b) == a
  {
    Add(a, Neg(b))
  }

  function Mul(a: Complex, b: Complex): Complex {
    Complex(a.re * b.re - a.im * b.im, a.re * b.im + a.im * b.re)
  }

  /** operator/(other): throws when the denominator re² + im² of `b` is
      zero, and otherwise returns the quotient, which multiplied by `b`
      gives back `a`. */
  function Div(a: Complex, b: Complex): (r: Result<Complex>)
    ensures r.Err? <==> NormSq(b) == 0.0
    ensures r.Err? ==> r.error == DivideByZero
    ensures r.Ok? ==> Mul(r.value, b) == a
  {
    if NormSq(b) == 0.0 then Err(DivideByZero)
    else
      QuotientTimesDivisor(a, b);
      Ok(Quotient(a, b))
  }

  /** The quotient formula of operator/ for a non-zero divisor. */
  function Quotient(a: Complex, b: Complex): Complex
    requires NormSq(b) != 0.0
  {
    var d := NormSq(b);
    Complex((a.re * b.re + a.im * b.im) / d, (a.im * b.re - a.re * b.im) / d)
  }

  /** operator/(double): divides both parts by the scalar; multiplying them
      back by s returns z. */
  function ScalarDiv(z: Complex, s: real): (r: Complex)
    requires s != 0.0
    ensures r.re * s == z.re && r.im * s == z.im
  {
    Complex(z.re / s, z.im / s)
  }

  lemma QuotientTimesDivisor(a: Complex, b: Complex)
    requires NormSq(b) != 0.0
    ensures Mul(Quotient(a, b), b) == a
  {
    var d, q := NormSq(b), Quotient(a, b);
    var x, y := a.re * b.re + a.im * b.im, a.im * b.re - a.re * b.im;
    assert q.re * d == x && q.im * d == y;
    assert (q.re * b.re - q.im * b.im) * d == x * b.re - y * b.im;
    assert x * b.re - y * b.im == a.re * d;
    assert (q.re * b.im + q.im * b.re) * d == x * b.im + y * b.re;
    assert x * b.im + y * b.re == a.im * d;
  }

  lemma ConjInvolution(z: Complex)
    ensures Conj(Conj(z)) == z
  {
  }

  /** z · conj(z) is the real number NormSq(z). */
  lemma MulConj(z: Complex)
    ensures Mul(z, Conj(z)) == Complex(NormSq(z), 0.0)
  {
  }

  lemma MulCommutative(a: Complex, b: Complex)
    ensures Mul(a, b) == Mul(b, a)
  {
  }

  lemma MulAssociative(a: Complex, b: Complex, c: Complex)
    ensures Mul(Mul(a, b), c) == Mul(a, Mul(b, c))
  {
    AssocRe(a.re, a.im, b.re, b.im, c.re, c.im);
    AssocIm(a.re, a.im, b.re, b.im, c.re, c.im);
  }

  /** The real part of (a·b)·c and of a·(b·c), for a = p + qi, b = r + si,
      c = t + ui. */
  lemma AssocRe(p: real, q: real, r: real, s: real, t: real, u: real)
    ensures (p * r - q * s) * t - (p * s + q * r) * u == p * (r * t - s * u) - q * (r * u + s * t)
  {
  }

  /** The imaginary part of (a·b)·c and of a·(b·c). */
  lemma AssocIm(p: real, q: real, r: real, s: real, t: real, u: real)
    ensures (p * r - q * s) * u + (p * s + q * r) * t == p * (r * u + s * t) + q * (r * t - s * u)
  {
  }

  lemma MulDistributesOverAdd(a: Complex, b: Complex, c: Complex)
    ensures Mul(a, Add(b, c)) == Add(Mul(a, b), Mul(a, c))
  {
  }

  /** Conjugation is multiplicative. */
  lemma ConjOfMul(a: Complex, b: Complex)
    ensures Conj(Mul(a, b)) == Mul(Conj(a), Conj(b))
  {
  }

  /** The squared modulus is multiplicative. */
  lemma NormSqOfMul(a: Complex, b: Complex)
    ensures NormSq(Mul(a, b)) == NormSq(a) * NormSq(b)
  {
  }

  /** tests/math/test_complex.cpp: (1+2i)+(3+4i), (1+2i)-(3+4i), (1+2i)(3+4i)
      and (3+4i)/(1+2i). */
  lemma ArithmeticExamples()
    ensures Add(Complex(1.0, 2.0), Complex(3.0, 4.0)) == Complex(4.0, 6.0)
    ensures Sub(Complex(1.0, 2.0), Complex(3.0, 4.0)) == Complex(-2.0, -2.0)
    ensures Mul(Complex(1.0, 2.0), Complex(3.0, 4.0)) == Complex(-5.0, 10.0)
    ensures Div(Complex(3.0, 4.0), Complex(1.0, 2.0)) == Ok(Complex(2.2, -0.4))
  {
  }

  /** tests/math/test_complex.cpp: -(3-4i) and ~(3-4i). */
  lemma UnaryExamples()
    ensures Neg(Complex(3.0, -4.0)) == Complex(-3.0, 4.0)
    ensures Conj(Complex(3.0, -4.0)) == Complex(3.0, 4.0)
  {
  }
}
