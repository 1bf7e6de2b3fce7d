/** Cartesian complex numbers (`Complex_C_t`), with `double` modelled as `real`.
    Every operator builds a fresh value from its operands' two parts, so the
    whole type is a datatype and every operator a function.  Over exact reals
    these operators form a field; the lemmas below prove the laws the rest of
    the library relies on. */
module ComplexC {

  datatype Complex = Complex(re: real, im: real)

  /** The value a bare `double` converts to (`Complex_C_t product = 1`). */
  function FromReal(d: real): Complex { Complex(d, 0.0) }

  const Zero: Complex := Complex(0.0, 0.0)
  const One: Complex := Complex(1.0, 0.0)

  /** `re^2 + im^2`: the quantity `div` that complex division divides by. */
  function NormSq(z: Complex): real { z.re * z.re + z.im * z.im }

  // ---------------------------------------------------------------- addition

  /** Zero is the unit of the sum on either side. */
  function Add(l: Complex, r: Complex): (s: Complex)
    ensures r == Zero ==> s == l
    ensures l == Zero ==> s == r
  {
    Complex(l.re + r.re, l.im + r.im)
  }

  /** `Complex_C_t + double` adds `{d, 0}`. */
  function AddReal(l: Complex, d: real): (s: Complex)
    ensures s == Add(l, FromReal(d))
  {
    Complex(l.re + d, l.im)
  }

  /** `double + Complex_C_t` delegates to the other arrangement. */
  function RealAdd(d: real, r: Complex): (s: Complex)
    ensures s == Add(FromReal(d), r)
  {
    AddReal(r, d)
  }

  // ------------------------------------------------------------- subtraction

  /** The difference is zero exactly when the operands are equal. */
  function Sub(l: Complex, r: Complex): (s: Complex)
    ensures s == Zero <==> l == r
  {
    Complex(l.re - r.re, l.im - r.im)
  }

  /** `Complex_C_t - double` subtracts `{d, 0}`. */
  function SubReal(l: Complex, d: real): (s: Complex)
    ensures s == Sub(l, FromReal(d))
  {
    Complex(l.re - d, l.im)
  }

  /** `double - Complex_C_t` is `{d, 0}` minus the value. */
  function RealSub(d: real, r: Complex): (s: Complex)
    ensures s == Sub(FromReal(d), r)
  {
    Complex(d - r.re, -r.im)
  }

  /** Unary minus gives the additive inverse and leaves only zero fixed. */
  function Neg(z: Complex): (n: Complex)
    ensures Add(z, n) == Zero
    ensures n == z <==> z == Zero
  {
    Complex(-z.re, -z.im)
  }

  // ---------------------------------------------------------- multiplication

  /** One is the unit of the product on either side, and zero absorbs it. */
  function Mul(l: Complex, r: Complex): (m: Complex)
    ensures l == One ==> m == r
    ensures r == One ==> m == l
    ensures l == Zero || r == Zero ==> m == Zero
  {
    Complex(l.re * r.re - l.im * r.im, l.re * r.im + l.im * r.re)
  }

  /** `Complex_C_t * double` multiplies by `{d, 0}`. */
  function MulReal(l: Complex, d: real): (m: Complex)
    ensures m == Mul(l, FromReal(d))
  {
    Complex(l.re * d, l.im * d)
  }

  /** `double * Complex_C_t` delegates to the other arrangement. */
  function RealMul(d: real, r: Complex): (m: Complex)
    ensures m == Mul(FromReal(d), r)
  {
    MulReal(r, d)
  }

  // ---------------------------------------------------------------- division

  /** Complex division by multiplying with the conjugate; the divisor must be
      nonzero (a zero divisor is undefined behaviour for the library).  The
      quotient times the divisor is the dividend. */
  function Div(l: Complex, r: Complex): (q: Complex)
    requires NormSq(r) != 0.0
    ensures Mul(q, r) == l
  {
    var n := NormSq(r);
    var x, y := (l.re * r.re + l.im * r.im) / n, (l.im * r.re - l.re * r.im) / n;
    QuotientParts(l.re, l.im, r.re, r.im, x, y);
    Complex(x, y)
  }

  /** `Complex_C_t / double` divides both parts; scaling back gives the dividend. */
  function DivReal(l: Complex, d: real): (q: Complex)
    requires d != 0.0
    ensures MulReal(q, d) == l
  {
    Complex(l.re / d, l.im / d)
  }

  /** `double / Complex_C_t` is `{d, 0}` divided by the value. */
  function RealDiv(d: real, r: Complex): (q: Complex)
    requires NormSq(r) != 0.0
    ensures q == Div(FromReal(d), r)
  {
    var n := NormSq(r);
    Complex((d * r.re) / n, (-d * r.im) / n)
  }

  /** The arithmetic behind `Div`: multiplying the conjugate-form quotient of
      `a + bi` by `c + di` back gives `a + bi`. */
  lemma QuotientParts(a: real, b: real, c: real, d: real, x: real, y: real)
    requires c * c + d * d != 0.0
    requires x == (a * c + b * d) / (c * c + d * d) && y == (b * c - a * d) / (c * c + d * d)
    ensures x * c - y * d == a && x * d + y * c == b
  {
    var n := c * c + d * d;
    calc {
      x * c - y * d;
      ((a * c + b * d) / n) * c - ((b * c - a * d) / n) * d;
      ((a * c + b * d) * c - (b * c - a * d) * d) / n;
      (a * n) / n;
      a;
    }
    calc {
      x * d + y * c;
      ((a * c + b * d) / n) * d + ((b * c - a * d) / n) * c;
      ((a * c + b * d) * d + (b * c - a * d) * c) / n;
      (b * n) / n;
      b;
    }
  }

  // ---------------------------------------------------- compound assignments
  // Each `op=` overwrites its left operand with the binary result; the
  // function returns the new left operand.

  function AddAssign(l: Complex, r: Complex): (l': Complex)
    ensures l'.re == l.re + r.re && l'.im == l.im + r.im
  {
    Add(l, r)
  }

  function AddAssignReal(l: Complex, d: real): (l': Complex)
    ensures l'.re == l.re + d && l'.im == l.im
  {
    AddReal(l, d)
  }

  function SubAssign(l: Complex, r: Complex): (l': Complex)
    ensures Add(l', r) == l
  {
    Sub(l, r)
  }

  function SubAssignReal(l: Complex, d: real): (l': Complex)
    ensures AddReal(l', d) == l
  {
    SubReal(l, d)
  }

  function MulAssign(l: Complex, r: Complex): (l': Complex)
    ensures l'.re == l.re * r.re - l.im * r.im
    ensures l'.im == l.re * r.im + l.im * r.re
  {
    Mul(l, r)
  }

  function MulAssignReal(l: Complex, d: real): (l': Complex)
    ensures l' == Mul(l, FromReal(d))
  {
    MulReal(l, d)
  }

  function DivAssign(l: Complex, r: Complex): (l': Complex)
    requires NormSq(r) != 0.0
    ensures Mul(l', r) == l
  {
    Div(l, r)
  }

  function DivAssignReal(l: Complex, d: real): (l': Complex)
    requires d != 0.0
    ensures MulReal(l', d) == l
  {
    DivReal(l, d)
  }

  // ---------------------------------------------------------------- equality

  /** Exact, componentwise equality: the same as equality of the values. */
  function Eq(l: Complex, r: Complex): (b: bool)
    ensures b <==> l == r
  {
    l.re == r.re && l.im == r.im
  }

  /** `Complex_C_t == double` holds only for a purely real value. */
  function EqReal(l: Complex, d: real): (b: bool)
    ensures b <==> l == FromReal(d)
  {
    l.re == d && l.im == 0.0
  }

  function RealEq(d: real, r: Complex): (b: bool)
    ensures b <==> r == FromReal(d)
  {
    EqReal(r, d)
  }

  function Neq(l: Complex, r: Complex): (b: bool)
    ensures b <==> l != r
  {
    !Eq(l, r)
  }

  function NeqReal(l: Complex, d: real): (b: bool)
    ensures b <==> l != FromReal(d)
  {
    !EqReal(l, d)
  }

  function RealNeq(d: real, r: Complex): (b: bool)
    ensures b <==> r != FromReal(d)
  {
    !RealEq(d, r)
  }

  // --------------------------------------------------------------- conjugate

  function Conjugate(z: Complex): (c: Complex)
    ensures NormSq(c) == NormSq(z)
    ensures Mul(z, c) == FromReal(NormSq(z))
  {
    Complex(z.re, -z.im)
  }

  // ==================================================================== laws

  /** The scalar overloads of `+` agree with each other and with `+` on the
      converted scalar. */
  lemma AddRealOverloads(z: Complex, d: real)
    ensures RealAdd(d, z) == AddReal(z, d) == Add(z, FromReal(d)) == Add(FromReal(d), z)
  {
  }

  lemma AddCommutes(a: Complex, b: Complex)
    ensures Add(a, b) == Add(b, a)
  {
  }

  lemma AddAssociates(a: Complex, b: Complex, c: Complex)
    ensures Add(Add(a, b), c) == Add(a, Add(b, c))
  {
  }

  lemma AddZero(z: Complex)
    ensures Add(z, Zero) == z && Add(Zero, z) == z
  {
  }

  /** The scalar overloads of `-` behave as `-` on the converted scalar;
      in particular `d - z` is `{d - re, -im}`. */
  lemma SubRealOverloads(z: Complex, d: real)
    ensures SubReal(z, d) == Sub(z, FromReal(d))
    ensures RealSub(d, z) == Sub(FromReal(d), z) == Complex(d - z.re, -z.im)
  {
  }

  lemma SubIsAddNeg(a: Complex, b: Complex)
    ensures Sub(a, b) == Add(a, Neg(b))
  {
  }

  /** Unary minus is an involution and an additive inverse. */
  lemma NegInverse(z: Complex)
    ensures Neg(Neg(z)) == z
    ensures Add(z, Neg(z)) == Zero
    ensures Sub(z, z) == Zero
  {
  }

  lemma MulRealOverloads(z: Complex, d: real)
    ensures RealMul(d, z) == MulReal(z, d) == Mul(z, FromReal(d)) == Mul(FromReal(d), z)
  {
  }

  lemma MulCommutes(a: Complex, b: Complex)
    ensures Mul(a, b) == Mul(b, a)
  {
  }

  lemma MulAssociates(a: Complex, b: Complex, c: Complex)
    ensures Mul(Mul(a, b), c) == Mul(a, Mul(b, c))
  {
  }

  lemma MulOne(z: Complex)
    ensures Mul(z, One) == z && Mul(One, z) == z
  {
  }

  lemma MulZero(z: Complex)
    ensures Mul(z, Zero) == Zero && Mul(Zero, z) == Zero
  {
  }

  lemma MulDistributes(a: Complex, b: Complex, c: Complex)
    ensures Mul(a, Add(b, c)) == Add(Mul(a, b), Mul(a, c))
    ensures Mul(Add(b, c), a) == Add(Mul(b, a), Mul(c, a))
  {
  }

  lemma MulSub(a: Complex, b: Complex, c: Complex)
    ensures Mul(a, Sub(b, c)) == Sub(Mul(a, b), Mul(a, c))
  {
    assert a.re * (b.re - c.re) == a.re * b.re - a.re * c.re;
    assert a.im * (b.im - c.im) == a.im * b.im - a.im * c.im;
    assert a.re * (b.im - c.im) == a.re * b.im - a.re * c.im;
    assert a.im * (b.re - c.re) == a.im * b.re - a.im * c.re;
  }

  /** The squared modulus is multiplicative. */
  lemma NormSqMultiplies(a: Complex, b: Complex)
    ensures NormSq(Mul(a, b)) == NormSq(a) * NormSq(b)
  {
  }

  /** Division undoes multiplication and vice versa. */
  lemma DivMulCancel(l: Complex, r: Complex)
    requires NormSq(r) != 0.0
    ensures Mul(Div(l, r), r) == l
  {
  }

  lemma MulDivCancel(l: Complex, r: Complex)
    requires NormSq(r) != 0.0
    ensures Div(Mul(l, r), r) == l
  {
    var n := NormSq(r);
    var p := Mul(l, r);
    ProductParts(l.re, l.im, r.re, r.im);
    assert p.re * r.re + p.im * r.im == l.re * n;
    assert p.im * r.re - p.re * r.im == l.im * n;
    CancelFactor(l.re, n);
    CancelFactor(l.im, n);
    assert Div(p, r) == Complex((l.re * n) / n, (l.im * n) / n);
  }

  lemma CancelFactor(x: real, n: real)
    requires n != 0.0
    ensures (x * n) / n == x
  {
  }

  /** The arithmetic behind `MulDivCancel`: the conjugate-form numerators of
      `(a + bi)(c + di) / (c + di)` are `a` and `b` times `c^2 + d^2`. */
  lemma ProductParts(a: real, b: real, c: real, d: real)
    ensures (a * c - b * d) * c + (a * d + b * c) * d == a * (c * c + d * d)
    ensures (a * d + b * c) * c - (a * c - b * d) * d == b * (c * c + d * d)
  {
  }

  /** `d / z` is `{d, 0} / z`, and `z / d` is undone by scaling with `d`. */
  lemma DivRealOverloads(z: Complex, d: real)
    ensures NormSq(z) != 0.0 ==> RealDiv(d, z) == Div(FromReal(d), z)
    ensures d != 0.0 ==> MulReal(DivReal(z, d), d) == z
  {
  }

  /** The squared modulus vanishes exactly at zero, so a divisor allowed by
      `Div` is any value other than zero. */
  lemma NonZeroDivisor(z: Complex)
    ensures NormSq(z) != 0.0 <==> z != Zero
  {
    if z != Zero {
      calc {
        NormSq(z);
        z.re * z.re + z.im * z.im;
      > { SquaresPositive(z.re, z.im); }
        0.0;
      }
    }
  }

  /** A sum of two squares, not both zero, is positive. */
  lemma SquaresPositive(p: real, q: real)
    requires p != 0.0 || q != 0.0
    ensures p * p + q * q > 0.0
  {
    if p < 0.0 {
      assert p * p == (-p) * (-p);
    }
    if q < 0.0 {
      assert q * q == (-q) * (-q);
    }
  }

  /** The conjugate negates only the imaginary part, is an involution, and
      `z * conj(z)` is the real number `re^2 + im^2`. */
  lemma ConjugateProperties(z: Complex)
    ensures Conjugate(z).re == z.re && Conjugate(z).im == -z.im
    ensures Conjugate(Conjugate(z)) == z
    ensures Mul(z, Conjugate(z)) == FromReal(z.re * z.re + z.im * z.im)
  {
  }

  lemma ConjugateOfProduct(a: Complex, b: Complex)
    ensures Conjugate(Mul(a, b)) == Mul(Conjugate(a), Conjugate(b))
  {
  }
}
