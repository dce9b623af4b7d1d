/** Quaternions as pairs of complex numbers (iheay::math::Quaternion):
    q = z0 + z1·j with j·c = conj(c)·j, over exact reals. */
module Quaternion {
  import C = Complex

  datatype Quat = Quat(z0: C.Complex, z1: C.Complex)

  /** Quaternion(a, b, c, d) = (a + b i) + (c + d i) j. */
  function FromParts(a: real, b: real, c: real, d: real): (q: Quat)
    ensures q.z0 == C.Complex(a, b) && q.z1 == C.Complex(c, d)
  {
    Quat(C.Complex(a, b), C.Complex(c, d))
  }

  /** Quaternion(1, 0, 0, 0), the starting value of pow. */
  function One(): Quat {
    FromParts(1.0, 0.0, 0.0, 0.0)
  }

  function Neg(q: Quat): Quat {
    Quat(C.Neg(q.z0), C.Neg(q.z1))
  }

  /** Unary minus yields the additive inverse. */
  lemma AddNeg(q: Quat)
    ensures Add(q, Neg(q)) == FromParts(0.0, 0.0, 0.0, 0.0)
  {
  }

  /** operator~: (conj z0, -z1). */
  function Conj(q: Quat): Quat {
    Quat(C.Conj(q.z0), C.Neg(q.z1))
  }

  function Add(p: Quat, q: Quat): Quat {
    Quat(C.Add(p.z0, q.z0), C.Add(p.z1, q.z1))
  }

  /** operator-(other) is `*this + (-other)`: componentwise difference,
      undone by adding back q. */
  function Sub(p: Quat, q: Quat): (r: Quat)
    ensures r == Quat(C.Sub(p.z0, q.z0), C.Sub(p.z1, q.z1))
    ensures Add(r, q) == p
  {
    Add(p, Neg(q))
  }

  /** operator*: (z0 w0 - z1 conj(w1), z0 w1 + z1 conj(w0)). */
  function Mul(p: Quat, q: Quat): Quat {
    Quat(C.Sub(C.Mul(p.z0, q.z0), C.Mul(p.z1, C.Conj(q.z1))),
         C.Add(C.Mul(p.z0, q.z1), C.Mul(p.z1, C.Conj(q.z0))))
  }

  /** modulus()², that is |z0|² + |z1|² (the square of the hypot of the
      two complex moduli). */
  function NormSq(q: Quat): (n: real)
    ensures n >= 0.0
  {
    C.NormSq(q.z0) + C.NormSq(q.z1)
  }

  /** inverse(): (conj z0, -z1) divided by modulus². The source divides by
      a zero modulus without a check (producing IEEE infinities); here the
      divisor must be non-zero. The result is a right inverse. */
  function Inverse(q: Quat): (r: Quat)
    requires NormSq(q) != 0.0
    ensures Mul(q, r) == One()
  {
    var s := NormSq(q);
    var r := Quat(C.ScalarDiv(C.Conj(q.z0), s), C.ScalarDiv(C.Neg(q.z1), s));
    InverseScaled(q, s, r);
    InverseCoords(q.z0.re, q.z0.im, q.z1.re, q.z1.im, r.z0.re, r.z0.im, r.z1.re, r.z1.im, s);
    MulCoords(q, r);
    r
  }

  /** The coordinates of (conj z0, -z1) / s, multiplied back by s. */
  lemma InverseScaled(q: Quat, s: real, r: Quat)
    requires s == NormSq(q) && s != 0.0
    requires r == Quat(C.ScalarDiv(C.Conj(q.z0), s), C.ScalarDiv(C.Neg(q.z1), s))
    ensures s == q.z0.re * q.z0.re + q.z0.im * q.z0.im + q.z1.re * q.z1.re + q.z1.im * q.z1.im
    ensures r.z0.re * s == q.z0.re && r.z0.im * s == -q.z0.im
    ensures r.z1.re * s == -q.z1.re && r.z1.im * s == -q.z1.im
  {
    assert s == C.NormSq(q.z0) + C.NormSq(q.z1);
    var u, v := C.Conj(q.z0), C.Neg(q.z1);
    assert r.z0 == C.ScalarDiv(u, s) && r.z1 == C.ScalarDiv(v, s);
    assert u.re == q.z0.re && u.im == -q.z0.im && v.re == -q.z1.re && v.im == -q.z1.im;
  }

  /** Multiplying through by s = a² + b² + c² + d²: the product of
      (a, b, c, d) with (a, -b, -c, -d) / s is (1, 0, 0, 0). */
  lemma InverseCoords(a: real, b: real, c: real, d: real, e: real, f: real, g: real, h: real, s: real)
    requires s == a * a + b * b + c * c + d * d && s != 0.0
    requires e * s == a && f * s == -b && g * s == -c && h * s == -d
    ensures Prod0(a, b, c, d, e, f, g, h) == 1.0
    ensures Prod1(a, b, c, d, e, f, g, h) == 0.0
    ensures Prod2(a, b, c, d, e, f, g, h) == 0.0
    ensures Prod3(a, b, c, d, e, f, g, h) == 0.0
  {
    assert Prod0(a, b, c, d, e, f, g, h) * s == a * a + b * b + c * c + d * d;
    assert Prod1(a, b, c, d, e, f, g, h) * s == 0.0;
    assert Prod2(a, b, c, d, e, f, g, h) * s == 0.0;
    assert Prod3(a, b, c, d, e, f, g, h) * s == 0.0;
  }

  /** The n-fold product q·q·…·q (q⁰ = 1). */
  function Power(q: Quat, n: nat): Quat {
    if n == 0 then One() else Mul(q, Power(q, n - 1))
  }

  /** The invariant of the loop in pow: while bits of n remain, result
      times base^n is the target; once n has run out, result is it. */
  predicate PowInvariant(result: Quat, base: Quat, n: int, target: Quat) {
    if n > 0 then Mul(result, Power(base, n)) == target else result == target
  }

  /** pow(n): binary exponentiation. Non-positive n never enters the loop
      and returns 1. */
  method Pow(q: Quat, n: int) returns (result: Quat)
    ensures result == Power(q, if n > 0 then n else 0)
  {
    result := One();
    var base := q;
    var k := n;
    ghost var target := Power(q, if n > 0 then n else 0);
    MulOneLeft(target);
    while k > 0
      invariant PowInvariant(result, base, k, target)
      decreases k
    {
      PowStep(result, base, k, target);
      if k % 2 == 1 {
        result := Mul(result, base);
      }
      base := Mul(base, base);
      k := k / 2;
    }
  }

  /** One round of the loop in pow keeps the invariant: an odd bit moves
      one factor of base into result, then base is squared and n halved. */
  lemma PowStep(result: Quat, base: Quat, n: int, target: Quat)
    requires n > 0 && PowInvariant(result, base, n, target)
    ensures PowInvariant(if n % 2 == 1 then Mul(result, base) else result, Mul(base, base), n / 2, target)
  {
    PowerOfSquare(base, n / 2);
    var r := if n % 2 == 1 then Mul(result, base) else result;
    if n % 2 == 1 {
      assert Power(base, n) == Mul(base, Power(base, 2 * (n / 2)));
      MulAssociative(result, base, Power(base, 2 * (n / 2)));
    } else {
      assert n == 2 * (n / 2);
    }
    assert Mul(r, Power(Mul(base, base), n / 2)) == target;
    if n / 2 == 0 {
      assert Power(Mul(base, base), 0) == One();
      MulOneRight(r);
    }
  }

  /** The real components of a product of (a + b i) + (c + d i) j and
      (e + f i) + (g + h i) j. */
  function Prod0(a: real, b: real, c: real, d: real, e: real, f: real, g: real, h: real): real { a * e - b * f - c * g - d * h }
  function Prod1(a: real, b: real, c: real, d: real, e: real, f: real, g: real, h: real): real { a * f + b * e + c * h - d * g }
  function Prod2(a: real, b: real, c: real, d: real, e: real, f: real, g: real, h: real): real { a * g - b * h + c * e + d * f }
  function Prod3(a: real, b: real, c: real, d: real, e: real, f: real, g: real, h: real): real { a * h + b * g - c * f + d * e }

  /** Mul, built from complex operations, agrees with the expanded
      real-coordinate product. */
  lemma MulCoords(p: Quat, q: Quat)
    ensures Mul(p, q) == FromParts(Prod0(p.z0.re, p.z0.im, p.z1.re, p.z1.im, q.z0.re, q.z0.im, q.z1.re, q.z1.im),
                                   Prod1(p.z0.re, p.z0.im, p.z1.re, p.z1.im, q.z0.re, q.z0.im, q.z1.re, q.z1.im),
                                   Prod2(p.z0.re, p.z0.im, p.z1.re, p.z1.im, q.z0.re, q.z0.im, q.z1.re, q.z1.im),
                                   Prod3(p.z0.re, p.z0.im, p.z1.re, p.z1.im, q.z0.re, q.z0.im, q.z1.re, q.z1.im))
  {
    MulFirst(p, q);
    MulSecond(p, q);
  }

  /** The complex part z0 of a product. */
  lemma MulFirst(p: Quat, q: Quat)
    ensures Mul(p, q).z0 == C.Complex(Prod0(p.z0.re, p.z0.im, p.z1.re, p.z1.im, q.z0.re, q.z0.im, q.z1.re, q.z1.im),
                                      Prod1(p.z0.re, p.z0.im, p.z1.re, p.z1.im, q.z0.re, q.z0.im, q.z1.re, q.z1.im))
  {
    var c1 := C.Conj(q.z1);
    assert c1.re == q.z1.re && c1.im == -q.z1.im;
    var a, b := C.Mul(p.z0, q.z0), C.Mul(p.z1, c1);
    assert a.re == p.z0.re * q.z0.re - p.z0.im * q.z0.im;
    assert a.im == p.z0.re * q.z0.im + p.z0.im * q.z0.re;
    assert b.re == p.z1.re * q.z1.re - p.z1.im * (-q.z1.im);
    assert b.im == p.z1.re * (-q.z1.im) + p.z1.im * q.z1.re;
    assert Mul(p, q).z0 == C.Sub(a, b);
  }

  /** The complex part z1 of a product. */
  lemma MulSecond(p: Quat, q: Quat)
    ensures Mul(p, q).z1 == C.Complex(Prod2(p.z0.re, p.z0.im, p.z1.re, p.z1.im, q.z0.re, q.z0.im, q.z1.re, q.z1.im),
                                      Prod3(p.z0.re, p.z0.im, p.z1.re, p.z1.im, q.z0.re, q.z0.im, q.z1.re, q.z1.im))
  {
    var c0 := C.Conj(q.z0);
    assert c0.re == q.z0.re && c0.im == -q.z0.im;
    var d, e := C.Mul(p.z0, q.z1), C.Mul(p.z1, c0);
    assert d.re == p.z0.re * q.z1.re - p.z0.im * q.z1.im;
    assert d.im == p.z0.re * q.z1.im + p.z0.im * q.z1.re;
    assert e.re == p.z1.re * q.z0.re - p.z1.im * (-q.z0.im);
    assert e.im == p.z1.re * (-q.z0.im) + p.z1.im * q.z0.re;
    assert Mul(p, q).z1 == C.Add(d, e);
  }

  lemma MulOneLeft(q: Quat)
    ensures Mul(One(), q) == q
  {
    MulCoords(One(), q);
  }

  lemma MulOneRight(q: Quat)
    ensures Mul(q, One()) == q
  {
    MulCoords(q, One());
  }

  /** Associativity of the coordinate product, a polynomial identity. */
  lemma ProdAssociative(a: real, b: real, c: real, d: real, e: real, f: real, g: real, h: real,
                        i: real, j: real, k: real, l: real)
    ensures Prod0(Prod0(a, b, c, d, e, f, g, h), Prod1(a, b, c, d, e, f, g, h), Prod2(a, b, c, d, e, f, g, h), Prod3(a, b, c, d, e, f, g, h), i, j, k, l)
         == Prod0(a, b, c, d, Prod0(e, f, g, h, i, j, k, l), Prod1(e, f, g, h, i, j, k, l), Prod2(e, f, g, h, i, j, k, l), Prod3(e, f, g, h, i, j, k, l))
    ensures Prod1(Prod0(a, b, c, d, e, f, g, h), Prod1(a, b, c, d, e, f, g, h), Prod2(a, b, c, d, e, f, g, h), Prod3(a, b, c, d, e, f, g, h), i, j, k, l)
         == Prod1(a, b, c, d, Prod0(e, f, g, h, i, j, k, l), Prod1(e, f, g, h, i, j, k, l), Prod2(e, f, g, h, i, j, k, l), Prod3(e, f, g, h, i, j, k, l))
    ensures Prod2(Prod0(a, b, c, d, e, f, g, h), Prod1(a, b, c, d, e, f, g, h), Prod2(a, b, c, d, e, f, g, h), Prod3(a, b, c, d, e, f, g, h), i, j, k, l)
         == Prod2(a, b, c, d, Prod0(e, f, g, h, i, j, k, l), Prod1(e, f, g, h, i, j, k, l), Prod2(e, f, g, h, i, j, k, l), Prod3(e, f, g, h, i, j, k, l))
    ensures Prod3(Prod0(a, b, c, d, e, f, g, h), Prod1(a, b, c, d, e, f, g, h), Prod2(a, b, c, d, e, f, g, h), Prod3(a, b, c, d, e, f, g, h), i, j, k, l)
         == Prod3(a, b, c, d, Prod0(e, f, g, h, i, j, k, l), Prod1(e, f, g, h, i, j, k, l), Prod2(e, f, g, h, i, j, k, l), Prod3(e, f, g, h, i, j, k, l))
  {
    ProdAssociative0(a, b, c, d, e, f, g, h, i, j, k, l);
    ProdAssociative1(a, b, c, d, e, f, g, h, i, j, k, l);
    ProdAssociative2(a, b, c, d, e, f, g, h, i, j, k, l);
    ProdAssociative3(a, b, c, d, e, f, g, h, i, j, k, l);
  }

  lemma ProdAssociative0(a: real, b: real, c: real, d: real, e: real, f: real, g: real, h: real,
                         i: real, j: real, k: real, l: real)
    ensures Prod0(Prod0(a, b, c, d, e, f, g, h), Prod1(a, b, c, d, e, f, g, h), Prod2(a, b, c, d, e, f, g, h), Prod3(a, b, c, d, e, f, g, h), i, j, k, l)
         == Prod0(a, b, c, d, Prod0(e, f, g, h, i, j, k, l), Prod1(e, f, g, h, i, j, k, l), Prod2(e, f, g, h, i, j, k, l), Prod3(e, f, g, h, i, j, k, l))
  {
  }

  lemma ProdAssociative1(a: real, b: real, c: real, d: real, e: real, f: real, g: real, h: real,
                         i: real, j: real, k: real, l: real)
    ensures Prod1(Prod0(a, b, c, d, e, f, g, h), Prod1(a, b, c, d, e, f, g, h), Prod2(a, b, c, d, e, f, g, h), Prod3(a, b, c, d, e, f, g, h), i, j, k, l)
         == Prod1(a, b, c, d, Prod0(e, f, g, h, i, j, k, l), Prod1(e, f, g, h, i, j, k, l), Prod2(e, f, g, h, i, j, k, l), Prod3(e, f, g, h, i, j, k, l))
  {
  }

  lemma ProdAssociative2(a: real, b: real, c: real, d: real, e: real, f: real, g: real, h: real,
                         i: real, j: real, k: real, l: real)
    ensures Prod2(Prod0(a, b, c, d, e, f, g, h), Prod1(a, b, c, d, e, f, g, h), Prod2(a, b, c, d, e, f, g, h), Prod3(a, b, c, d, e, f, g, h), i, j, k, l)
         == Prod2(a, b, c, d, Prod0(e, f, g, h, i, j, k, l), Prod1(e, f, g, h, i, j, k, l), Prod2(e, f, g, h, i, j, k, l), Prod3(e, f, g, h, i, j, k, l))
  {
  }

  lemma ProdAssociative3(a: real, b: real, c: real, d: real, e: real, f: real, g: real, h: real,
                         i: real, j: real, k: real, l: real)
    ensures Prod3(Prod0(a, b, c, d, e, f, g, h), Prod1(a, b, c, d, e, f, g, h), Prod2(a, b, c, d, e, f, g, h), Prod3(a, b, c, d, e, f, g, h), i, j, k, l)
         == Prod3(a, b, c, d, Prod0(e, f, g, h, i, j, k, l), Prod1(e, f, g, h, i, j, k, l), Prod2(e, f, g, h, i, j, k, l), Prod3(e, f, g, h, i, j, k, l))
  {
  }

  lemma MulAssociative(p: Quat, q: Quat, r: Quat)
    ensures Mul(Mul(p, q), r) == Mul(p, Mul(q, r))
  {
    MulCoords(p, q);
    MulCoords(q, r);
    MulCoords(Mul(p, q), r);
    MulCoords(p, Mul(q, r));
    ProdAssociative(p.z0.re, p.z0.im, p.z1.re, p.z1.im, q.z0.re, q.z0.im, q.z1.re, q.z1.im,
                    r.z0.re, r.z0.im, r.z1.re, r.z1.im);
  }

  /** q^(2k) = (q·q)^k, the step the exponentiation loop relies on. */
  lemma {:induction false} PowerOfSquare(q: Quat, k: nat)
    ensures Power(q, 2 * k) == Power(Mul(q, q), k)
  {
    if k > 0 {
      PowerOfSquare(q, k - 1);
      calc {
        Power(q, 2 * k);
        Mul(q, Mul(q, Power(q, 2 * k - 2)));
        { MulAssociative(q, q, Power(q, 2 * k - 2)); }
        Mul(Mul(q, q), Power(q, 2 * (k - 1)));
        Mul(Mul(q, q), Power(Mul(q, q), k - 1));
      }
    }
  }

  /** tests/math/test_quaternion.cpp, ArithmeticOperations and
      ComplexCombination: sums. */
  lemma AddExamples()
    ensures Add(FromParts(1.0, 2.0, 3.0, -1.0), FromParts(-2.0, 4.0, 0.0, 5.0)) == FromParts(-1.0, 6.0, 3.0, 4.0)
    ensures Add(FromParts(2.0, -1.0, 1.0, 3.0), FromParts(-1.0, 4.0, 2.0, -2.0)) == FromParts(1.0, 3.0, 3.0, 1.0)
  {
  }

  /** tests/math/test_quaternion.cpp, ArithmeticOperations and
      ComplexCombination: differences. */
  lemma SubExamples()
    ensures Sub(FromParts(1.0, 2.0, 3.0, -1.0), FromParts(-2.0, 4.0, 0.0, 5.0)) == FromParts(3.0, -2.0, 3.0, -6.0)
    ensures Sub(FromParts(2.0, -1.0, 1.0, 3.0), FromParts(-1.0, 4.0, 2.0, -2.0)) == FromParts(3.0, -5.0, -1.0, 5.0)
  {
    SubParts(1.0, 2.0, 3.0, -1.0, -2.0, 4.0, 0.0, 5.0);
    SubParts(2.0, -1.0, 1.0, 3.0, -1.0, 4.0, 2.0, -2.0);
  }

  /** Differences are taken coordinate by coordinate. */
  lemma SubParts(a: real, b: real, c: real, d: real, e: real, f: real, g: real, h: real)
    ensures Sub(FromParts(a, b, c, d), FromParts(e, f, g, h)) == FromParts(a - e, b - f, c - g, d - h)
  {
    var r := Sub(FromParts(a, b, c, d), FromParts(e, f, g, h));
    assert r.z0 == C.Sub(C.Complex(a, b), C.Complex(e, f));
    assert r.z1 == C.Sub(C.Complex(c, d), C.Complex(g, h));
  }

  /** tests/math/test_quaternion.cpp, ArithmeticOperations and
      ComplexCombination: products. */
  lemma MulExamples()
    ensures Mul(FromParts(1.0, 2.0, 3.0, -1.0), FromParts(-2.0, 4.0, 0.0, 5.0)) == FromParts(-5.0, 15.0, -20.0, -5.0)
    ensures Mul(FromParts(2.0, -1.0, 1.0, 3.0), FromParts(-1.0, 4.0, 2.0, -2.0)) == FromParts(6.0, 1.0, 13.0, -13.0)
  {
    MulCoords(FromParts(1.0, 2.0, 3.0, -1.0), FromParts(-2.0, 4.0, 0.0, 5.0));
    MulCoords(FromParts(2.0, -1.0, 1.0, 3.0), FromParts(-1.0, 4.0, 2.0, -2.0));
  }

  /** tests/math/test_quaternion.cpp, UnaryOperations. */
  lemma UnaryExamples()
    ensures Neg(FromParts(1.0, -2.0, 3.0, 4.0)) == FromParts(-1.0, 2.0, -3.0, -4.0)
    ensures Conj(FromParts(1.0, -2.0, 3.0, 4.0)) == FromParts(1.0, 2.0, -3.0, -4.0)
  {
  }

  /** tests/math/test_quaternion.cpp, Inverse: q = (1 + 2i) + (3 + 4i) j
      has modulus² 30 and q · inverse(q) = 1. */
  lemma InverseExample()
    ensures NormSq(FromParts(1.0, 2.0, 3.0, 4.0)) == 30.0
    ensures Mul(FromParts(1.0, 2.0, 3.0, 4.0), Inverse(FromParts(1.0, 2.0, 3.0, 4.0))) == One()
  {
  }

  lemma PowerOne(q: Quat)
    ensures Power(q, 1) == q
  {
    assert Power(q, 0) == One();
    MulOneRight(q);
  }

  /** tests/math/test_quaternion.cpp, Power: pow(2) is q·q. */
  lemma PowerTwo(q: Quat)
    ensures Power(q, 2) == Mul(q, q)
  {
    PowerOne(q);
  }
}
