/** Polar complex numbers (`Complex_P_t`): a magnitude and an argument.
    Only the operators that act on the pair directly are modelled; addition,
    subtraction and the conversions to Cartesian form go through `cos`/`sin`
    and are not part of this model.  Equality is representational: two values
    are equal when their stored magnitude and argument are, so the same point
    written with arguments `0` and `2*pi` compares unequal. */
module ComplexP {

  datatype Polar = Polar(mag: real, arg: real)

  /** Unary minus flips the sign of the stored magnitude: it is scaling by -1. */
  function Neg(z: Polar): (n: Polar)
    ensures n == MulReal(z, -1.0)
  {
    Polar(-z.mag, z.arg)
  }

  /** Multiplication multiplies magnitudes and adds arguments: `(1, 0)` is its
      unit, and the product has magnitude 0 exactly when a factor does. */
  function Mul(l: Polar, r: Polar): (m: Polar)
    ensures r == Polar(1.0, 0.0) ==> m == l
    ensures l == Polar(1.0, 0.0) ==> m == r
    ensures m.mag == 0.0 <==> l.mag == 0.0 || r.mag == 0.0
  {
    Polar(l.mag * r.mag, l.arg + r.arg)
  }

  /** `Complex_P_t * double` multiplies by the polar value `(d, 0)`. */
  function MulReal(l: Polar, d: real): (m: Polar)
    ensures m == Mul(l, Polar(d, 0.0))
  {
    Polar(l.mag * d, l.arg)
  }

  /** `double * Complex_P_t` delegates to the other arrangement. */
  function RealMul(d: real, r: Polar): (m: Polar)
    ensures m == Mul(Polar(d, 0.0), r)
  {
    MulReal(r, d)
  }

  /** Division divides magnitudes and subtracts arguments; the quotient times
      the divisor is the dividend. */
  function Div(l: Polar, r: Polar): (q: Polar)
    requires r.mag != 0.0
    ensures Mul(q, r) == l
  {
    Polar(l.mag / r.mag, l.arg - r.arg)
  }

  /** `Complex_P_t / double` divides the magnitude; scaling back gives the
      dividend. */
  function DivReal(l: Polar, d: real): (q: Polar)
    requires d != 0.0
    ensures MulReal(q, d) == l
  {
    Polar(l.mag / d, l.arg)
  }

  // Compound assignments return the new left operand.

  function MulAssign(l: Polar, r: Polar): (l': Polar)
    ensures l'.mag == l.mag * r.mag && l'.arg == l.arg + r.arg
  {
    Mul(l, r)
  }

  function MulAssignReal(l: Polar, d: real): (l': Polar)
    ensures l'.mag == l.mag * d && l'.arg == l.arg
  {
    MulReal(l, d)
  }

  function DivAssign(l: Polar, r: Polar): (l': Polar)
    requires r.mag != 0.0
    ensures Mul(l', r) == l
  {
    Div(l, r)
  }

  function DivAssignReal(l: Polar, d: real): (l': Polar)
    requires d != 0.0
    ensures MulReal(l', d) == l
  {
    DivReal(l, d)
  }

  /** Representational equality: magnitude and argument both match. */
  function Eq(l: Polar, r: Polar): (b: bool)
    ensures b <==> l == r
  {
    l.mag == r.mag && l.arg == r.arg
  }

  /** `Complex_P_t == double` holds only for argument exactly 0 and a
      magnitude equal to the scalar. */
  function EqReal(l: Polar, d: real): (b: bool)
    ensures b <==> l == Polar(d, 0.0)
  {
    l.mag == d && l.arg == 0.0
  }

  function RealEq(d: real, r: Polar): (b: bool)
    ensures b <==> r == Polar(d, 0.0)
  {
    EqReal(r, d)
  }

  function Neq(l: Polar, r: Polar): (b: bool)
    ensures b <==> l != r
  {
    !Eq(l, r)
  }

  function NeqReal(l: Polar, d: real): (b: bool)
    ensures b <==> l != Polar(d, 0.0)
  {
    !EqReal(l, d)
  }

  function RealNeq(d: real, r: Polar): (b: bool)
    ensures b <==> r != Polar(d, 0.0)
  {
    !EqReal(r, d)
  }

  // ==================================================================== laws

  /** Negation keeps the argument and is an involution. */
  lemma NegInvolution(z: Polar)
    ensures Neg(z).arg == z.arg && Neg(z).mag == -z.mag
    ensures Neg(Neg(z)) == z
  {
  }

  lemma MulCommutes(a: Polar, b: Polar)
    ensures Mul(a, b) == Mul(b, a)
  {
  }

  lemma MulAssociates(a: Polar, b: Polar, c: Polar)
    ensures Mul(Mul(a, b), c) == Mul(a, Mul(b, c))
  {
  }

  /** Dividing by a nonzero-magnitude value undoes multiplying by it, and the
      reverse. */
  lemma MulDivCancel(a: Polar, b: Polar)
    requires b.mag != 0.0
    ensures Div(Mul(a, b), b) == a
    ensures Mul(Div(a, b), b) == a
  {
  }

  /** Scaling by a real changes only the magnitude, and both scalar
      arrangements agree. */
  lemma ScalarOverloads(z: Polar, d: real)
    ensures RealMul(d, z) == MulReal(z, d) == Mul(z, Polar(d, 0.0))
    ensures d != 0.0 ==> DivReal(z, d) == Div(z, Polar(d, 0.0))
  {
  }

  /** Negation is multiplication by the scalar -1. */
  lemma NegIsScaling(z: Polar)
    ensures Neg(z) == MulReal(z, -1.0)
  {
  }
}
