/** Polynomials with complex coefficients stored as coefficient vectors
    (`Poly_Coeff_t`): index i holds the coefficient of x^i.  The operators
    fill a freshly sized output vector in a loop; each is proved against a
    specification function, and the specification functions are related to
    evaluation at a point. */
module Poly {
  import opened ComplexC
  import opened Wrappers

  type Coeffs = seq<Complex>

  /** Coefficient i, with every position outside the vector read as zero. */
  function Coeff(c: Coeffs, i: int): Complex { if 0 <= i < |c| then c[i] else Zero }

  function Max(a: nat, b: nat): nat { if a < b then b else a }

  // ========================================================== specifications

  /** Coefficientwise sum, the shorter operand padded with zeros. */
  function Sum(L: Coeffs, R: Coeffs): Coeffs {
    seq(Max(|L|, |R|), i => Add(Coeff(L, i), Coeff(R, i)))
  }

  /** Coefficientwise difference, the shorter operand padded with zeros. */
  function Diff(L: Coeffs, R: Coeffs): Coeffs {
    seq(Max(|L|, |R|), i => Sub(Coeff(L, i), Coeff(R, i)))
  }

  /** `L[0]*R[k] + L[1]*R[k-1] + ... + L[n-1]*R[k-n+1]`, added in that order. */
  function ConvUpTo(L: Coeffs, R: Coeffs, k: int, n: nat): Complex
    requires n <= |L|
  {
    if n == 0 then Zero else Add(ConvUpTo(L, R, k, n - 1), Mul(L[n - 1], Coeff(R, k - (n - 1))))
  }

  /** The convolution of two coefficient vectors, of length |L| + |R| - 1. */
  function Product(L: Coeffs, R: Coeffs): Coeffs
    requires |L| + |R| >= 1
  {
    seq(|L| + |R| - 1, k => ConvUpTo(L, R, k, |L|))
  }

  /** x^n by repeated multiplication. */
  function Pow(x: Complex, n: nat): Complex {
    if n == 0 then One else Mul(x, Pow(x, n - 1))
  }

  /** `c[0]*x^0 + ... + c[n-1]*x^(n-1)`, added in index order. */
  function PartialEval(c: Coeffs, x: Complex, n: nat): Complex
    requires n <= |c|
  {
    if n == 0 then Zero else Add(PartialEval(c, x, n - 1), Mul(c[n - 1], Pow(x, n - 1)))
  }

  /** The value of the polynomial at x. */
  function Eval(c: Coeffs, x: Complex): Complex { PartialEval(c, x, |c|) }

  /** Horner's form of the value, used as the reference for the algebra. */
  function Horner(c: Coeffs, x: Complex): Complex {
    if |c| == 0 then Zero else Add(c[0], Mul(x, Horner(c[1..], x)))
  }

  // =============================================================== operators

  /** `operator+`: the common prefix is added, the tail of the longer operand
      copied. */
  method PolyAdd(L: Coeffs, R: Coeffs) returns (out: Coeffs)
    ensures out == Sum(L, R)
  {
    var highest := Max(|L|, |R|);
    var shorter := if |L| < |R| then |L| else |R|;
    var lHigher := |L| > |R|;
    var a := new Complex[highest](_ => Zero);
    for i := 0 to highest
      invariant forall k :: 0 <= k < i ==> a[k] == Add(Coeff(L, k), Coeff(R, k))
    {
      if i < shorter {
        a[i] := Add(L[i], R[i]);
      } else if lHigher {
        a[i] := L[i];
        AddZero(L[i]);
      } else {
        a[i] := R[i];
        AddZero(R[i]);
      }
    }
    out := a[..];
  }

  /** `operator-`: the common prefix is subtracted, the tail of a longer left
      operand copied and the tail of a longer right operand negated. */
  method PolySub(L: Coeffs, R: Coeffs) returns (out: Coeffs)
    ensures out == Diff(L, R)
  {
    var highest := Max(|L|, |R|);
    var shorter := if |L| < |R| then |L| else |R|;
    var lHigher := |L| > |R|;
    var a := new Complex[highest](_ => Zero);
    for i := 0 to highest
      invariant forall k :: 0 <= k < i ==> a[k] == Sub(Coeff(L, k), Coeff(R, k))
    {
      if i < shorter {
        a[i] := Sub(L[i], R[i]);
      } else if lHigher {
        a[i] := L[i];
      } else {
        a[i] := Neg(R[i]);
      }
    }
    out := a[..];
  }

  /** `operator*`: a zero-filled vector of length |L| + |R| - 1 accumulates
      `out[i+j] += L[i]*R[j]`.  With both operands empty that length wraps
      round to the largest `size_t`, which `std::vector` refuses with
      `length_error`. */
  method PolyMul(L: Coeffs, R: Coeffs) returns (r: Result<Coeffs>)
    ensures r.Failure? <==> |L| + |R| == 0
    ensures r.Failure? ==> r.error == LengthError
    ensures r.Success? ==> r.value == Product(L, R)
  {
    if |L| + |R| == 0 {
      return Failure(LengthError);
    }
    var out := seq(|L| + |R| - 1, _ => Zero);
    for i := 0 to |L|
      invariant |out| == |L| + |R| - 1
      invariant forall k :: 0 <= k < |out| ==> out[k] == ConvUpTo(L, R, k, i)
    {
      for j := 0 to |R|
        invariant |out| == |L| + |R| - 1
        invariant forall k :: i <= k < i + j ==> out[k] == ConvUpTo(L, R, k, i + 1)
        invariant forall k :: 0 <= k < |out| && !(i <= k < i + j) ==> out[k] == ConvUpTo(L, R, k, i)
      {
        ConvStep(L, R, i, j);
        out := out[i + j := AddAssign(out[i + j], Mul(L[i], R[j]))];
      }
      forall k | 0 <= k < |out| && !(i <= k < i + |R|)
        ensures out[k] == ConvUpTo(L, R, k, i + 1)
      {
        MulZero(L[i]);
        AddZero(ConvUpTo(L, R, k, i));
      }
    }
    return Success(out);
  }

  /** One `out[i+j] += L[i]*R[j]` step adds the i-th term of the sum. */
  lemma ConvStep(L: Coeffs, R: Coeffs, i: nat, j: nat)
    requires i < |L| && j < |R|
    ensures ConvUpTo(L, R, i + j, i + 1) == AddAssign(ConvUpTo(L, R, i + j, i), Mul(L[i], R[j]))
  {
    assert (i + j) - i == j;
  }

  /** `getValCompressedPoly`: the sum of `c[i]*x^i` over the nonzero
      coefficients.  The source raises x to the i-th power in polar form,
      whose argument is NaN at x = 0; the model returns None exactly when
      such a power would be used. */
  method GetValCompressedPoly(x: Complex, c: Coeffs) returns (r: Option<Complex>)
    ensures r.None? <==> x == Zero && !AllZero(c)
    ensures r.Some? ==> r.value == Eval(c, x)
  {
    var sum := Zero;
    ghost var zeroSoFar := true;
    for i := 0 to |c|
      invariant sum == PartialEval(c, x, i)
      invariant zeroSoFar <==> AllZero(c[..i])
      invariant x == Zero ==> zeroSoFar
    {
      if NeqReal(c[i], 0.0) {
        if x == Zero {
          return None;
        }
        zeroSoFar := false;
        sum := AddAssign(sum, Mul(c[i], Pow(x, i)));
      } else {
        SkipsZero(c, x, i);
        assert c[..i + 1] == c[..i] + [c[i]];
      }
    }
    assert c[..|c|] == c;
    return Some(sum);
  }

  predicate AllZero(c: Coeffs) { forall k :: 0 <= k < |c| ==> c[k] == Zero }

  /** A zero coefficient adds nothing to the sum. */
  lemma SkipsZero(c: Coeffs, x: Complex, i: nat)
    requires i < |c| && c[i] == Zero
    ensures PartialEval(c, x, i + 1) == PartialEval(c, x, i)
  {
    MulZero(Pow(x, i));
    AddZero(PartialEval(c, x, i));
  }

  // =========================================================== algebra laws

  lemma SumCommutes(L: Coeffs, R: Coeffs)
    ensures Sum(L, R) == Sum(R, L)
  {
  }

  /** Subtracting a polynomial from itself leaves only zero coefficients. */
  lemma DiffSelf(L: Coeffs)
    ensures |Diff(L, L)| == |L|
    ensures forall i :: 0 <= i < |L| ==> Diff(L, L)[i] == Zero
  {
  }

  /** The empty vector and the single coefficient 1 are the units of Sum and
      Product, on either side. */
  lemma Units(c: Coeffs)
    ensures Sum(c, []) == c && Sum([], c) == c
    ensures Product(c, [One]) == c && Product([One], c) == c
  {
    forall k | 0 <= k < |c|
      ensures ConvUpTo(c, [One], k, |c|) == c[k]
    {
      ConvSingle(c, k, |c|);
    }
    forall k | 0 <= k < |c|
      ensures ConvUpTo([One], c, k, 1) == c[k]
    {
      AddZero(Mul(One, c[k]));
      MulOne(c[k]);
    }
  }

  lemma {:induction false} ConvSingle(c: Coeffs, k: nat, n: nat)
    requires k < n <= |c|
    ensures ConvUpTo(c, [One], k, n) == c[k]
  {
    MulOne(c[n - 1]);
    if n - 1 == k {
      ConvZeroTerms(c, [One], k, 0, k);
      AddZero(c[k]);
    } else {
      ConvSingle(c, k, n - 1);
      MulZero(c[n - 1]);
      AddZero(c[k]);
    }
  }

  /** Terms whose right index falls outside R contribute nothing: those
      with index i > k, and those with k - i >= |R|. */
  lemma {:induction false} ConvZeroTerms(L: Coeffs, R: Coeffs, k: int, m: nat, n: nat)
    requires m <= n <= |L|
    requires k < m || n <= k - |R| + 1
    ensures ConvUpTo(L, R, k, n) == ConvUpTo(L, R, k, m)
  {
    if n > m {
      ConvZeroTerms(L, R, k, m, n - 1);
      MulZero(L[n - 1]);
      AddZero(ConvUpTo(L, R, k, n - 1));
    }
  }

  /** Convolving against an all-zero (or empty) right operand gives zero. */
  lemma {:induction false} ConvZeroRight(L: Coeffs, R: Coeffs, k: int, n: nat)
    requires n <= |L|
    requires forall i :: 0 <= i < |R| ==> R[i] == Zero
    ensures ConvUpTo(L, R, k, n) == Zero
  {
    if n > 0 {
      ConvZeroRight(L, R, k, n - 1);
      MulZero(L[n - 1]);
      AddZero(Zero);
    }
  }

  /** Peeling the first left coefficient off a convolution sum. */
  lemma {:induction false} ConvHead(L: Coeffs, R: Coeffs, k: int, n: nat)
    requires 1 <= n <= |L|
    ensures ConvUpTo(L, R, k, n) == Add(Mul(L[0], Coeff(R, k)), ConvUpTo(L[1..], R, k - 1, n - 1))
  {
    if n == 1 {
      AddZero(Mul(L[0], Coeff(R, k)));
    } else {
      ConvHead(L, R, k, n - 1);
      AddAssociates(Mul(L[0], Coeff(R, k)), ConvUpTo(L[1..], R, k - 1, n - 2),
                    Mul(L[n - 1], Coeff(R, k - (n - 1))));
    }
  }

  // ========================================================== Horner's form

  /** Multiplying every coefficient by a. */
  function Scale(a: Complex, c: Coeffs): Coeffs { seq(|c|, i requires 0 <= i < |c| => Mul(a, c[i])) }

  function Tail(c: Coeffs): Coeffs { if |c| == 0 then [] else c[1..] }

  /** Horner's recurrence also holds for the empty vector through `Coeff`. */
  lemma HornerUnfold(c: Coeffs, x: Complex)
    ensures Horner(c, x) == Add(Coeff(c, 0), Mul(x, Horner(Tail(c), x)))
  {
    if |c| == 0 {
      MulZero(x);
      AddZero(Zero);
    }
  }

  lemma {:induction false} HornerZeros(c: Coeffs, x: Complex)
    requires forall i :: 0 <= i < |c| ==> c[i] == Zero
    ensures Horner(c, x) == Zero
  {
    if |c| > 0 {
      HornerZeros(c[1..], x);
      MulZero(x);
      AddZero(Zero);
    }
  }

  /** Appending a coefficient adds its term at the next power. */
  lemma {:induction false} HornerSnoc(d: Coeffs, a: Complex, x: Complex)
    ensures Horner(d + [a], x) == Add(Horner(d, x), Mul(a, Pow(x, |d|)))
  {
    if |d| == 0 {
      assert (d + [a])[1..] == [];
      MulZero(x);
      AddZero(a);
      MulOne(a);
      AddZero(a);
    } else {
      var h, t := d[0], d[1..];
      assert (d + [a])[1..] == t + [a];
      HornerSnoc(t, a, x);
      var ht, p := Horner(t, x), Pow(x, |t|);
      calc {
        Horner(d + [a], x);
        Add(h, Mul(x, Add(ht, Mul(a, p))));
        { MulDistributes(x, ht, Mul(a, p)); }
        Add(h, Add(Mul(x, ht), Mul(x, Mul(a, p))));
        { AddAssociates(h, Mul(x, ht), Mul(x, Mul(a, p))); }
        Add(Add(h, Mul(x, ht)), Mul(x, Mul(a, p)));
        { MulLeftCommutes(x, a, p); }
        Add(Horner(d, x), Mul(a, Pow(x, |d|)));
      }
    }
  }

  lemma MulLeftCommutes(a: Complex, b: Complex, c: Complex)
    ensures Mul(a, Mul(b, c)) == Mul(b, Mul(a, c))
  {
    MulAssociates(a, b, c);
    MulCommutes(a, b);
    MulAssociates(b, a, c);
  }

  /** The index-order sum computed by `getValCompressedPoly` is Horner's
      value. */
  lemma {:induction false} EvalIsHorner(c: Coeffs, x: Complex)
    ensures Eval(c, x) == Horner(c, x)
  {
    PartialIsHorner(c, x, |c|);
    assert c[..|c|] == c;
  }

  lemma {:induction false} PartialIsHorner(c: Coeffs, x: Complex, n: nat)
    requires n <= |c|
    ensures PartialEval(c, x, n) == Horner(c[..n], x)
  {
    if n > 0 {
      PartialIsHorner(c, x, n - 1);
      assert c[..n] == c[..n - 1] + [c[n - 1]];
      HornerSnoc(c[..n - 1], c[n - 1], x);
    }
  }

  lemma {:induction false} HornerSum(L: Coeffs, R: Coeffs, x: Complex)
    ensures Horner(Sum(L, R), x) == Add(Horner(L, x), Horner(R, x))
    decreases |L| + |R|
  {
    var S := Sum(L, R);
    if |S| == 0 {
      AddZero(Zero);
    } else {
      assert S[1..] == Sum(Tail(L), Tail(R));
      HornerSum(Tail(L), Tail(R), x);
      HornerUnfold(L, x);
      HornerUnfold(R, x);
      var hl, hr := Horner(Tail(L), x), Horner(Tail(R), x);
      MulDistributes(x, hl, hr);
    }
  }

  lemma {:induction false} HornerDiff(L: Coeffs, R: Coeffs, x: Complex)
    ensures Horner(Diff(L, R), x) == Sub(Horner(L, x), Horner(R, x))
    decreases |L| + |R|
  {
    var D := Diff(L, R);
    if |D| == 0 {
    } else {
      assert D[1..] == Diff(Tail(L), Tail(R));
      HornerDiff(Tail(L), Tail(R), x);
      HornerUnfold(L, x);
      HornerUnfold(R, x);
      var hl, hr := Horner(Tail(L), x), Horner(Tail(R), x);
      MulSub(x, hl, hr);
    }
  }

  lemma {:induction false} HornerScale(a: Complex, c: Coeffs, x: Complex)
    ensures Horner(Scale(a, c), x) == Mul(a, Horner(c, x))
  {
    if |c| == 0 {
      MulZero(a);
    } else {
      assert Scale(a, c)[1..] == Scale(a, c[1..]);
      HornerScale(a, c[1..], x);
      var h := Horner(c[1..], x);
      MulLeftCommutes(x, a, h);
      MulDistributes(a, c[0], Mul(x, h));
    }
  }

  /** The product's tail splits into the first left coefficient times the
      right operand's tail, plus the product of the left operand's tail. */
  lemma ProductTail(L: Coeffs, R: Coeffs)
    requires |L| >= 1 && |R| >= 1
    ensures Product(L, R)[0] == Mul(L[0], R[0])
    ensures Product(L, R)[1..] == Sum(Scale(L[0], R[1..]), Product(L[1..], R))
  {
    var P := Product(L, R);
    ConvHead(L, R, 0, |L|);
    ConvZeroTerms(L[1..], R, -1, 0, |L| - 1);
    AddZero(Mul(L[0], R[0]));
    var S := Sum(Scale(L[0], R[1..]), Product(L[1..], R));
    forall k | 0 <= k < |S|
      ensures P[k + 1] == S[k]
    {
      ConvHead(L, R, k + 1, |L|);
      MulZero(L[0]);
    }
    assert P[1..] == S;
  }

  lemma {:induction false} HornerProduct(L: Coeffs, R: Coeffs, x: Complex)
    requires |L| + |R| >= 1
    ensures Horner(Product(L, R), x) == Mul(Horner(L, x), Horner(R, x))
    decreases |L|
  {
    var P := Product(L, R);
    if |L| == 0 {
      HornerZeros(P, x);
      MulZero(Horner(R, x));
    } else if |R| == 0 {
      forall k | 0 <= k < |P| ensures P[k] == Zero {
        ConvZeroRight(L, R, k, |L|);
      }
      HornerZeros(P, x);
      MulZero(Horner(L, x));
    } else {
      var a, L', R' := L[0], L[1..], R[1..];
      ProductTail(L, R);
      HornerSum(Scale(a, R'), Product(L', R), x);
      HornerScale(a, R', x);
      HornerProduct(L', R, x);
      var hl', hr', hr := Horner(L', x), Horner(R', x), Horner(R, x);
      calc {
        Horner(P, x);
        Add(Mul(a, R[0]), Mul(x, Add(Mul(a, hr'), Mul(hl', hr))));
        { MulDistributes(x, Mul(a, hr'), Mul(hl', hr)); }
        Add(Mul(a, R[0]), Add(Mul(x, Mul(a, hr')), Mul(x, Mul(hl', hr))));
        { MulLeftCommutes(x, a, hr');
          MulAssociates(x, hl', hr);
          AddAssociates(Mul(a, R[0]), Mul(a, Mul(x, hr')), Mul(Mul(x, hl'), hr)); }
        Add(Add(Mul(a, R[0]), Mul(a, Mul(x, hr'))), Mul(Mul(x, hl'), hr));
        { MulDistributes(a, R[0], Mul(x, hr')); }
        Add(Mul(a, hr), Mul(Mul(x, hl'), hr));
        { MulDistributes(hr, a, Mul(x, hl')); }
        Mul(Horner(L, x), hr);
      }
    }
  }

  // ============================================================ evaluation

  /** Evaluation turns the coefficient operators into the complex ones. */
  lemma EvalHomomorphism(L: Coeffs, R: Coeffs, x: Complex)
    ensures Eval(Sum(L, R), x) == Add(Eval(L, x), Eval(R, x))
    ensures Eval(Diff(L, R), x) == Sub(Eval(L, x), Eval(R, x))
    ensures |L| + |R| >= 1 ==> Eval(Product(L, R), x) == Mul(Eval(L, x), Eval(R, x))
  {
    EvalIsHorner(L, x);
    EvalIsHorner(R, x);
    EvalIsHorner(Sum(L, R), x);
    HornerSum(L, R, x);
    EvalIsHorner(Diff(L, R), x);
    HornerDiff(L, R, x);
    if |L| + |R| >= 1 {
      EvalIsHorner(Product(L, R), x);
      HornerProduct(L, R, x);
    }
  }
}
