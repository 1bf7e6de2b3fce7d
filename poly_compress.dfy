/** Expanding a list of linear factors `(scale*x + root)` into coefficients
    (`CompressFactors`), modelled as written, next to the expansion by
    repeated polynomial multiplication that it is meant to compute. */
module PolyCompress {
  import opened ComplexC
  import opened Poly

  /** A linear factor `scale*x + root`, stored as the pair (scale, root). */
  datatype Factor = Factor(scale: real, root: Complex)

  // =============================================== CompressFactors as written

  /** `product *= root` over the factors, starting from 1. */
  function RootProduct(fs: seq<Factor>): Complex {
    if |fs| == 0 then One else MulAssign(RootProduct(fs[..|fs| - 1]), fs[|fs| - 1].root)
  }

  /** `product *= scale` over the factors, starting from 1. */
  function ScaleProduct(fs: seq<Factor>): Complex {
    if |fs| == 0 then One else MulAssignReal(ScaleProduct(fs[..|fs| - 1]), fs[|fs| - 1].scale)
  }

  /** The index t places after c in cyclic order over n factors. */
  function Cyclic(n: nat, c: nat, t: nat): nat
    requires c < n && t <= n
  {
    if c + t < n then c + t else c + t - n
  }

  /** The pivot c's product for power p after t steps of the cyclic walk:
      the pivot's scale, then the scales of the next p - 1 factors, then the
      roots of the remaining ones. */
  function Window(fs: seq<Factor>, p: nat, c: nat, t: nat): Complex
    requires c < |fs| && t < |fs|
  {
    if t == 0 then FromReal(fs[c].scale)
    else
      var f := fs[Cyclic(|fs|, c, t)];
      if t < p then MulAssignReal(Window(fs, p, c, t - 1), f.scale)
      else MulAssign(Window(fs, p, c, t - 1), f.root)
  }

  /** `sum_product` after the first n pivots. */
  function WindowSum(fs: seq<Factor>, p: nat, n: nat): Complex
    requires n <= |fs|
  {
    if n == 0 then Zero else AddAssign(WindowSum(fs, p, n - 1), Window(fs, p, n - 1, |fs| - 1))
  }

  /** Coefficient p of the result as the source computes it. */
  function CompressedCoeff(fs: seq<Factor>, p: nat): Complex
    requires p <= |fs|
  {
    if p == 0 then RootProduct(fs)
    else if p == |fs| then ScaleProduct(fs)
    else WindowSum(fs, p, |fs|)
  }

  function Compressed(fs: seq<Factor>): Coeffs {
    seq(|fs| + 1, p requires 0 <= p < |fs| + 1 => CompressedCoeff(fs, p))
  }

  /** `CompressFactors`: N factors give N + 1 coefficients; power 0 is the
      product of the roots, power N the product of the scales, and each
      power in between the sum over pivots of the cyclic-window products. */
  method CompressFactors(fs: seq<Factor>) returns (out: Coeffs)
    ensures out == Compressed(fs)
  {
    var n := |fs|;
    var a := new Complex[n + 1](_ => Zero);
    for p := 0 to n + 1
      invariant forall q :: 0 <= q < p ==> a[q] == CompressedCoeff(fs, q)
    {
      if p == 0 {
        var product := One;
        for k := 0 to n
          invariant product == RootProduct(fs[..k])
        {
          assert fs[..k + 1][..k] == fs[..k];
          product := MulAssign(product, fs[k].root);
        }
        assert fs[..n] == fs;
        a[p] := product;
        continue;
      }
      if p == n {
        var product := One;
        for k := 0 to n
          invariant product == ScaleProduct(fs[..k])
        {
          assert fs[..k + 1][..k] == fs[..k];
          product := MulAssignReal(product, fs[k].scale);
        }
        assert fs[..n] == fs;
        a[p] := product;
        continue;
      }
      var sum := Zero;
      for c := 0 to n
        invariant sum == WindowSum(fs, p, c)
      {
        var product := FromReal(fs[c].scale);
        var xLeft := p - 1;
        var idx := if c + 1 == n then 0 else c + 1;
        ghost var t := 1;
        while idx != c
          invariant 1 <= t <= n
          invariant idx == Cyclic(n, c, t)
          invariant xLeft == if t < p then p - t else 0
          invariant product == Window(fs, p, c, t - 1)
          decreases n - t
        {
          if xLeft > 0 {
            product := MulAssignReal(product, fs[idx].scale);
            xLeft := xLeft - 1;
          } else {
            product := MulAssign(product, fs[idx].root);
          }
          idx := idx + 1;
          if idx == n {
            idx := 0;
          }
          t := t + 1;
        }
        sum := AddAssign(sum, product);
      }
      a[p] := sum;
    }
    out := a[..];
  }

  // ===================================================== the intended result

  /** The value of the factor `scale*x + root` at x. */
  function FactorValue(f: Factor, x: Complex): Complex {
    Add(Mul(FromReal(f.scale), x), f.root)
  }

  /** The product of the factors' values at x. */
  function FactorsValue(fs: seq<Factor>, x: Complex): Complex {
    if |fs| == 0 then One else Mul(FactorsValue(fs[..|fs| - 1], x), FactorValue(fs[|fs| - 1], x))
  }

  /** The coefficients of the factor `scale*x + root`. */
  function Linear(f: Factor): Coeffs { [f.root, FromReal(f.scale)] }

  /** The factors multiplied out one at a time with the polynomial product. */
  function Expand(fs: seq<Factor>): (c: Coeffs)
    ensures |c| == |fs| + 1
  {
    if |fs| == 0 then [One] else Product(Expand(fs[..|fs| - 1]), Linear(fs[|fs| - 1]))
  }

  /** The intended `CompressFactors`: start from the constant 1 and multiply
      by each factor in turn. */
  method ExpandFactors(fs: seq<Factor>) returns (out: Coeffs)
    ensures out == Expand(fs)
  {
    out := [One];
    for k := 0 to |fs|
      invariant out == Expand(fs[..k])
    {
      assert fs[..k + 1][..k] == fs[..k];
      var r := PolyMul(out, Linear(fs[k]));
      out := r.value;
    }
    assert fs[..|fs|] == fs;
  }

  lemma LinearEvaluates(f: Factor, x: Complex)
    ensures Eval(Linear(f), x) == FactorValue(f, x)
  {
    var c, S := Linear(f), FromReal(f.scale);
    calc {
      Eval(c, x);
      PartialEval(c, x, 2);
      Add(PartialEval(c, x, 1), Mul(c[1], Pow(x, 1)));
      Add(Add(PartialEval(c, x, 0), Mul(c[0], Pow(x, 0))), Mul(c[1], Pow(x, 1)));
      Add(Add(Zero, Mul(f.root, Pow(x, 0))), Mul(S, Pow(x, 1)));
      { MulOne(f.root); AddZero(f.root); MulOne(x); }
      Add(f.root, Mul(S, x));
      { AddCommutes(f.root, Mul(S, x)); }
      FactorValue(f, x);
    }
  }

  /** The constant polynomial 1 evaluates to 1. */
  lemma EvalConstOne(x: Complex)
    ensures Eval([One], x) == One
  {
    var c: Coeffs := [One];
    assert Eval(c, x) == Add(Zero, Mul(One, One)) by {
      assert PartialEval(c, x, 0) == Zero;
      assert Pow(x, 0) == One;
    }
    MulOne(One);
    AddZero(One);
  }

  /** The expansion evaluates to the product of the factors everywhere. */
  lemma {:induction false} ExpandEvaluates(fs: seq<Factor>, x: Complex)
    ensures Eval(Expand(fs), x) == FactorsValue(fs, x)
  {
    if |fs| == 0 {
      EvalConstOne(x);
    } else {
      var init, last := fs[..|fs| - 1], fs[|fs| - 1];
      var e := Expand(init);
      ExpandEvaluates(init, x);
      EvalHomomorphism(e, Linear(last), x);
      LinearEvaluates(last, x);
      calc {
        Eval(Expand(fs), x);
        Eval(Product(e, Linear(last)), x);
        Mul(Eval(e, x), Eval(Linear(last), x));
        Mul(FactorsValue(init, x), FactorValue(last, x));
        FactorsValue(fs, x);
      }
    }
  }

  // ============================================= how the two relate

  /** The product of the scales is a real number: the product of the
      scales as reals. */
  lemma {:induction false} ScaleProductIsReal(fs: seq<Factor>)
    ensures ScaleProduct(fs) == FromReal(RealProduct(fs))
  {
    if |fs| > 0 {
      ScaleProductIsReal(fs[..|fs| - 1]);
    }
  }

  function RealProduct(fs: seq<Factor>): real {
    if |fs| == 0 then 1.0 else RealProduct(fs[..|fs| - 1]) * fs[|fs| - 1].scale
  }

  // ================================================ coefficients of Expand

  /** Multiplying by `scale*x + root` gives coefficient k as
      `scale*c[k-1] + root*c[k]`. */
  lemma ProductByLinear(c: Coeffs, f: Factor, k: nat)
    requires |c| >= 1 && k <= |c|
    ensures Product(c, Linear(f))[k] == Add(Mul(Coeff(c, k - 1), FromReal(f.scale)), Mul(Coeff(c, k), f.root))
  {
    if k == 0 {
      ProductByLinearFirst(c, f);
    } else if k < |c| {
      ProductByLinearMiddle(c, f, k);
    } else {
      ProductByLinearLast(c, f);
    }
  }

  lemma ProductByLinearFirst(c: Coeffs, f: Factor)
    requires |c| >= 1
    ensures Product(c, Linear(f))[0] == Add(Mul(Zero, FromReal(f.scale)), Mul(c[0], f.root))
  {
    var R := Linear(f);
    ConvZeroTerms(c, R, 0, 1, |c|);
    assert Product(c, R)[0] == ConvUpTo(c, R, 0, 1) == Add(Zero, Mul(c[0], f.root));
    MulZero(FromReal(f.scale));
    AddZero(Mul(c[0], f.root));
  }

  lemma ProductByLinearMiddle(c: Coeffs, f: Factor, k: nat)
    requires 0 < k < |c|
    ensures Product(c, Linear(f))[k] == Add(Mul(c[k - 1], FromReal(f.scale)), Mul(c[k], f.root))
  {
    var R := Linear(f);
    ConvZeroTerms(c, R, k, k + 1, |c|);
    ConvZeroTerms(c, R, k, 0, k - 1);
    assert ConvUpTo(c, R, k, k - 1) == Zero;
    assert ConvUpTo(c, R, k, k) == Add(Zero, Mul(c[k - 1], FromReal(f.scale)));
    AddZero(Mul(c[k - 1], FromReal(f.scale)));
    assert Product(c, R)[k] == ConvUpTo(c, R, k, k + 1);
  }

  lemma ProductByLinearLast(c: Coeffs, f: Factor)
    requires |c| >= 1
    ensures Product(c, Linear(f))[|c|] == Add(Mul(c[|c| - 1], FromReal(f.scale)), Mul(Zero, f.root))
  {
    var R := Linear(f);
    var k := |c|;
    ConvZeroTerms(c, R, k, 0, k - 1);
    assert ConvUpTo(c, R, k, k - 1) == Zero;
    assert Product(c, R)[k] == ConvUpTo(c, R, k, k) == Add(Zero, Mul(c[k - 1], FromReal(f.scale)));
    AddZero(Mul(c[k - 1], FromReal(f.scale)));
    MulZero(f.root);
  }

  /** One more factor: coefficient k of the expansion from the expansion of
      the factors before it. */
  lemma ExpandStep(fs: seq<Factor>, k: nat)
    requires 1 <= |fs| && k <= |fs|
    ensures var e, f := Expand(fs[..|fs| - 1]), fs[|fs| - 1];
      Expand(fs)[k] == Add(Mul(Coeff(e, k - 1), FromReal(f.scale)), Mul(Coeff(e, k), f.root))
  {
    ProductByLinear(Expand(fs[..|fs| - 1]), fs[|fs| - 1], k);
  }

  // ================================================== up to three factors

  /** With one factor there is no middle power: the result is `[root, scale]`. */
  lemma AgreeOne(fs: seq<Factor>)
    requires |fs| == 1
    ensures Compressed(fs) == Expand(fs) == [fs[0].root, FromReal(fs[0].scale)]
  {
    var r, S := fs[0].root, FromReal(fs[0].scale);
    assert fs[..0] == [];
    var e := Expand(fs[..0]);
    assert e == [One];
    MulOne(r);
    MulOne(S);
    MulZero(S);
    MulZero(r);
    AddZero(r);
    AddZero(S);
    assert RootProduct(fs) == r;
    assert ScaleProduct(fs) == S;
    ExpandStep(fs, 0);
    assert Expand(fs)[0] == Add(Mul(Zero, S), Mul(One, r)) == r;
    ExpandStep(fs, 1);
    assert Expand(fs)[1] == Add(Mul(One, S), Mul(Zero, r)) == S;
  }

  /** Two factors: the middle power is `s0*r1 + s1*r0`. */
  lemma CompressedTwo(fs: seq<Factor>)
    requires |fs| == 2
    ensures var r0, r1, S0, S1 := fs[0].root, fs[1].root, FromReal(fs[0].scale), FromReal(fs[1].scale);
      Compressed(fs) == [Mul(r0, r1), Add(Mul(S0, r1), Mul(S1, r0)), Mul(S0, S1)]
  {
    var r0, r1, S0, S1 := fs[0].root, fs[1].root, FromReal(fs[0].scale), FromReal(fs[1].scale);
    assert fs[..1] == [fs[0]] && fs[..1][..0] == [];
    MulOne(r0);
    MulOne(S0);
    assert RootProduct(fs[..1]) == MulAssign(One, r0) == r0;
    assert RootProduct(fs) == MulAssign(r0, r1) == Mul(r0, r1);
    assert ScaleProduct(fs[..1]) == MulAssignReal(One, fs[0].scale) == S0;
    assert ScaleProduct(fs) == MulAssignReal(S0, fs[1].scale) == Mul(S0, S1);
    assert Window(fs, 1, 0, 1) == Mul(S0, r1);
    assert Window(fs, 1, 1, 1) == Mul(S1, r0);
    AddZero(Mul(S0, r1));
    assert WindowSum(fs, 1, 1) == AddAssign(Zero, Mul(S0, r1)) == Mul(S0, r1);
    assert WindowSum(fs, 1, 2) == AddAssign(Mul(S0, r1), Mul(S1, r0));
  }

  lemma ExpandTwo(fs: seq<Factor>)
    requires |fs| == 2
    ensures var r0, r1, S0, S1 := fs[0].root, fs[1].root, FromReal(fs[0].scale), FromReal(fs[1].scale);
      Expand(fs) == [Mul(r0, r1), Add(Mul(r0, S1), Mul(S0, r1)), Mul(S0, S1)]
  {
    var r0, r1, S0, S1 := fs[0].root, fs[1].root, FromReal(fs[0].scale), FromReal(fs[1].scale);
    AgreeOne(fs[..1]);
    var e := Expand(fs[..1]);
    assert e == [r0, S0];
    ExpandStep(fs, 0);
    MulZero(S1);
    AddZero(Mul(r0, r1));
    ExpandStep(fs, 1);
    ExpandStep(fs, 2);
    MulZero(r1);
    AddZero(Mul(S0, S1));
  }

  lemma AgreeTwo(fs: seq<Factor>)
    requires |fs| == 2
    ensures Compressed(fs) == Expand(fs)
  {
    CompressedTwo(fs);
    ExpandTwo(fs);
    var r0, r1, S0, S1 := fs[0].root, fs[1].root, FromReal(fs[0].scale), FromReal(fs[1].scale);
    MulCommutes(S1, r0);
    AddCommutes(Mul(S0, r1), Mul(r0, S1));
  }

  /** The example in the header: `(x - 3)(x + 2)` compresses to `x^2 - x - 6`. */
  lemma DocExample(fs: seq<Factor>)
    requires fs == [Factor(1.0, FromReal(-3.0)), Factor(1.0, FromReal(2.0))]
    ensures Compressed(fs) == Expand(fs) == [FromReal(-6.0), FromReal(-1.0), One]
  {
    assert Compressed(fs) == [FromReal(-6.0), FromReal(-1.0), One] by {
      CompressedTwo(fs);
    }
    AgreeTwo(fs);
  }

  // ================================================== three factors

  /** Three factors as the source computes them: each middle power sums one
      cyclic window per pivot. */
  lemma CompressedThree(fs: seq<Factor>)
    requires |fs| == 3
    ensures Compressed(fs) == [RootProduct(fs), PivotSum(fs, 1), PivotSum(fs, 2), ScaleProduct(fs)]
  {
    WindowSumThree(fs, 1);
    WindowSumThree(fs, 2);
  }

  /** The three pivots' windows for power p, added in pivot order. */
  function PivotSum(fs: seq<Factor>, p: nat): Complex
    requires |fs| == 3
  {
    Add(Add(Window(fs, p, 0, 2), Window(fs, p, 1, 2)), Window(fs, p, 2, 2))
  }

  /** `sum_product` over the three pivots. */
  lemma WindowSumThree(fs: seq<Factor>, p: nat)
    requires |fs| == 3
    ensures WindowSum(fs, p, 3) == PivotSum(fs, p)
  {
    AddZero(Window(fs, p, 0, 2));
    assert WindowSum(fs, p, 1) == Window(fs, p, 0, 2);
  }

  /** The window of pivot c for power p among three factors: the pivot's
      scale, then the next factor's scale (p = 2) or root (p = 1), then the
      root of the last one. */
  lemma WindowThree(fs: seq<Factor>, p: nat, c: nat)
    requires |fs| == 3 && 1 <= p <= 2 && c < 3
    ensures var f1, f2 := fs[(c + 1) % 3], fs[(c + 2) % 3];
      Window(fs, p, c, 2) ==
        Mul(Mul(FromReal(fs[c].scale), if p == 2 then FromReal(f1.scale) else f1.root), f2.root)
  {
    var f1, f2 := fs[(c + 1) % 3], fs[(c + 2) % 3];
    var S := FromReal(fs[c].scale);
    assert Cyclic(3, c, 1) == (c + 1) % 3 && Cyclic(3, c, 2) == (c + 2) % 3;
    assert Window(fs, p, c, 0) == S;
    if p == 2 {
      assert Window(fs, p, c, 1) == MulAssignReal(S, f1.scale) == Mul(S, FromReal(f1.scale));
    } else {
      assert Window(fs, p, c, 1) == MulAssign(S, f1.root) == Mul(S, f1.root);
    }
  }

  /** The outer coefficients of three factors: the products of the roots
      and of the scales. */
  lemma EndsThree(fs: seq<Factor>)
    requires |fs| == 3
    ensures RootProduct(fs) == Mul(Mul(fs[0].root, fs[1].root), fs[2].root)
    ensures ScaleProduct(fs) == Mul(Mul(FromReal(fs[0].scale), FromReal(fs[1].scale)), FromReal(fs[2].scale))
  {
    var r0, r1 := fs[0].root, fs[1].root;
    var S0, S1 := FromReal(fs[0].scale), FromReal(fs[1].scale);
    var two := fs[..2];
    assert two[..1] == [fs[0]] && two[..1][..0] == [] && two[1] == fs[1];
    MulOne(r0);
    MulOne(S0);
    assert RootProduct(two[..1]) == r0;
    assert RootProduct(two) == Mul(r0, r1);
    assert ScaleProduct(two[..1]) == S0;
    assert ScaleProduct(two) == Mul(S0, S1);
  }

  /** Three factors multiplied out one at a time. */
  lemma ExpandThree(fs: seq<Factor>)
    requires |fs| == 3
    ensures var r0, r1, r2 := fs[0].root, fs[1].root, fs[2].root;
      var S0, S1, S2 := FromReal(fs[0].scale), FromReal(fs[1].scale), FromReal(fs[2].scale);
      Expand(fs) == [Mul(Mul(r0, r1), r2),
                     Add(Mul(Mul(r0, r1), S2), Mul(Add(Mul(r0, S1), Mul(S0, r1)), r2)),
                     Add(Mul(Add(Mul(r0, S1), Mul(S0, r1)), S2), Mul(Mul(S0, S1), r2)),
                     Mul(Mul(S0, S1), S2)]
  {
    var r0, r1, r2 := fs[0].root, fs[1].root, fs[2].root;
    var S0, S1, S2 := FromReal(fs[0].scale), FromReal(fs[1].scale), FromReal(fs[2].scale);
    assert fs[..2][0] == fs[0] && fs[..2][1] == fs[1];
    ExpandTwo(fs[..2]);
    var e := Expand(fs[..2]);
    assert Coeff(e, 0) == Mul(r0, r1) && Coeff(e, 2) == Mul(S0, S1) && Coeff(e, 3) == Zero;
    ExpandStep(fs, 0);
    ExpandStep(fs, 1);
    ExpandStep(fs, 2);
    ExpandStep(fs, 3);
    MulZero(S2);
    MulZero(r2);
    AddZero(Mul(Mul(r0, r1), r2));
    AddZero(Mul(Mul(S0, S1), S2));
  }

  /** For three factors the cyclic windows happen to list every term of
      each middle coefficient, so the source's result is the expansion. */
  lemma AgreeThree(fs: seq<Factor>)
    requires |fs| == 3
    ensures Compressed(fs) == Expand(fs)
  {
    CompressedThree(fs);
    EndsThree(fs);
    WindowThree(fs, 1, 0);
    WindowThree(fs, 1, 1);
    WindowThree(fs, 1, 2);
    WindowThree(fs, 2, 0);
    WindowThree(fs, 2, 1);
    WindowThree(fs, 2, 2);
    ExpandThree(fs);
    MiddleOne(fs[0].scale, fs[1].scale, fs[2].scale, fs[0].root, fs[1].root, fs[2].root);
    MiddleTwo(fs[0].scale, fs[1].scale, fs[2].scale, fs[0].root, fs[1].root, fs[2].root);
  }

  /** A real factor can be pulled out of a product. */
  lemma ScalarOut(s: real, z: Complex, w: Complex)
    ensures Mul(Mul(FromReal(s), z), w) == MulReal(Mul(z, w), s)
    ensures Mul(Mul(z, FromReal(s)), w) == MulReal(Mul(z, w), s)
    ensures Mul(z, FromReal(s)) == MulReal(z, s)
  {
  }

  /** The power-1 coefficient of three factors: both orders of summation. */
  lemma MiddleOne(s0: real, s1: real, s2: real, r0: Complex, r1: Complex, r2: Complex)
    ensures var S0, S1, S2 := FromReal(s0), FromReal(s1), FromReal(s2);
      Add(Add(Mul(Mul(S0, r1), r2), Mul(Mul(S1, r2), r0)), Mul(Mul(S2, r0), r1))
      == Add(Mul(Mul(r0, r1), S2), Mul(Add(Mul(r0, S1), Mul(S0, r1)), r2))
  {
    var S0, S1, S2 := FromReal(s0), FromReal(s1), FromReal(s2);
    ScalarOut(s0, r1, r2);
    ScalarOut(s1, r2, r0);
    ScalarOut(s2, r0, r1);
    ScalarOut(s1, r0, r2);
    ScalarOut(s2, Mul(r0, r1), One);
    MulCommutes(r2, r0);
    MulDistributes(r2, Mul(r0, S1), Mul(S0, r1));
    MulCommutes(Add(Mul(r0, S1), Mul(S0, r1)), r2);
    MulCommutes(r2, Mul(r0, S1));
    MulCommutes(r2, Mul(S0, r1));
    var a, b := Mul(r1, r2), Mul(r0, r2);
    assert Mul(Add(Mul(r0, S1), Mul(S0, r1)), r2) == Add(MulReal(b, s1), MulReal(a, s0));
  }

  /** The power-2 coefficient of three factors: both orders of summation. */
  lemma MiddleTwo(s0: real, s1: real, s2: real, r0: Complex, r1: Complex, r2: Complex)
    ensures var S0, S1, S2 := FromReal(s0), FromReal(s1), FromReal(s2);
      Add(Add(Mul(Mul(S0, S1), r2), Mul(Mul(S1, S2), r0)), Mul(Mul(S2, S0), r1))
      == Add(Mul(Add(Mul(r0, S1), Mul(S0, r1)), S2), Mul(Mul(S0, S1), r2))
  {
  }

  /** For at most three factors `CompressFactors` computes the expansion;
      in particular no factors give the constant 1. */
  lemma AgreeUpToThree(fs: seq<Factor>)
    requires |fs| <= 3
    ensures Compressed(fs) == Expand(fs)
    ensures |fs| == 0 ==> Compressed(fs) == [One]
  {
    if |fs| == 0 {
      assert Compressed(fs)[0] == One;
    } else if |fs| == 1 {
      AgreeOne(fs);
    } else if |fs| == 2 {
      AgreeTwo(fs);
    } else {
      AgreeThree(fs);
    }
  }

  /** For any number of factors the constant coefficient is the product of
      the roots and the leading one the product of the scales, both in the
      source's result and in the expansion. */
  lemma {:induction false} EndsAgree(fs: seq<Factor>)
    ensures Expand(fs)[0] == RootProduct(fs) == Compressed(fs)[0]
    ensures Expand(fs)[|fs|] == ScaleProduct(fs)
    ensures |fs| >= 1 ==> Compressed(fs)[|fs|] == ScaleProduct(fs)
  {
    if |fs| >= 1 {
      var init, f := fs[..|fs| - 1], fs[|fs| - 1];
      var S := FromReal(f.scale);
      EndsAgree(init);
      var e := Expand(init);
      ExpandStep(fs, 0);
      MulZero(S);
      AddZero(Mul(e[0], f.root));
      ExpandStep(fs, |fs|);
      MulZero(f.root);
      AddZero(Mul(e[|fs| - 1], S));
    }
  }

  // ===================================== four factors: a missing middle term

  /** Every factor is `s*x + root`. */
  predicate Repeated(fs: seq<Factor>, s: real, root: Complex) {
    forall i | 0 <= i < |fs| :: fs[i] == Factor(s, root)
  }

  /** `s^2 * root^2`, as the source's window for power 2 multiplies it out. */
  function SquaresProduct(s: real, root: Complex): Complex {
    Mul(Mul(Mul(FromReal(s), FromReal(s)), root), root)
  }

  lemma RepeatedWindow(fs: seq<Factor>, s: real, root: Complex, c: nat)
    requires |fs| == 4 && c < 4 && Repeated(fs, s, root)
    ensures Window(fs, 2, c, 3) == SquaresProduct(s, root)
  {
    var S := FromReal(s);
    assert Window(fs, 2, c, 0) == S;
    assert Window(fs, 2, c, 1) == Mul(S, S);
    assert Window(fs, 2, c, 2) == Mul(Mul(S, S), root);
  }

  lemma RepeatedCompressed(fs: seq<Factor>, s: real, root: Complex)
    requires |fs| == 4 && Repeated(fs, s, root)
    ensures Compressed(fs)[2] == MulReal(SquaresProduct(s, root), 4.0)
  {
    var w := SquaresProduct(s, root);
    RepeatedWindow(fs, s, root, 0);
    RepeatedWindow(fs, s, root, 1);
    RepeatedWindow(fs, s, root, 2);
    RepeatedWindow(fs, s, root, 3);
    assert WindowSum(fs, 2, 1) == w;
    assert WindowSum(fs, 2, 2) == MulReal(w, 2.0);
    assert WindowSum(fs, 2, 3) == MulReal(w, 3.0);
    assert WindowSum(fs, 2, 4) == MulReal(w, 4.0);
  }

  lemma SwapLast(a: Complex, b: Complex, c: Complex)
    ensures Mul(Mul(a, b), c) == Mul(Mul(a, c), b)
  {
  }

  lemma ScaleLeft(z: Complex, w: Complex, k: real)
    ensures Mul(MulReal(z, k), w) == MulReal(Mul(z, w), k)
  {
  }

  lemma Thrice(z: Complex)
    ensures Add(z, MulReal(z, 2.0)) == MulReal(z, 3.0) == Add(MulReal(z, 2.0), z)
  {
  }

  lemma FourSwap(a: Complex, b: Complex)
    ensures Mul(Mul(Mul(a, b), b), a) == Mul(Mul(Mul(a, a), b), b)
  {
    SwapLast(Mul(a, b), b, a);
    SwapLast(a, b, a);
  }

  /** `(s*x + r)^2` has coefficients `r^2`, `2*s*r` and `s^2`. */
  lemma RepeatedExpandedTwo(fs: seq<Factor>, s: real, root: Complex)
    requires |fs| == 2 && Repeated(fs, s, root)
    ensures var R, S := root, FromReal(s);
      Expand(fs)[0] == Mul(R, R) && Expand(fs)[1] == MulReal(Mul(S, R), 2.0) && Expand(fs)[2] == Mul(S, S)
  {
    ExpandTwo(fs);
    MulCommutes(root, FromReal(s));
  }

  /** `(s*x + r)^3` has `3*s*r^2` and `3*s^2*r` in its middle. */
  lemma RepeatedExpandedThree(fs: seq<Factor>, s: real, root: Complex)
    requires |fs| == 3 && Repeated(fs, s, root)
    ensures var R, S := root, FromReal(s);
      Expand(fs)[1] == MulReal(Mul(Mul(S, R), R), 3.0) &&
      Expand(fs)[2] == MulReal(Mul(Mul(S, S), R), 3.0)
  {
    var R, S := root, FromReal(s);
    var P := Mul(S, R);
    var T, U := Mul(P, R), Mul(Mul(S, S), R);
    assert fs[..2][0] == fs[0] && fs[..2][1] == fs[1];
    RepeatedExpandedTwo(fs[..2], s, root);
    var e2 := Expand(fs[..2]);
    assert fs[2] == Factor(s, R);
    assert Coeff(e2, 0) == e2[0] && Coeff(e2, 1) == e2[1] && Coeff(e2, 2) == e2[2];
    calc {
      Expand(fs)[1];
      { ExpandStep(fs, 1); }
      Add(Mul(Mul(R, R), S), Mul(MulReal(P, 2.0), R));
      { SwapLast(R, R, S); MulCommutes(R, S); ScaleLeft(P, R, 2.0); }
      Add(T, MulReal(T, 2.0));
      { Thrice(T); }
      MulReal(T, 3.0);
    }
    calc {
      Expand(fs)[2];
      { ExpandStep(fs, 2); }
      Add(Mul(MulReal(P, 2.0), S), Mul(Mul(S, S), R));
      { ScaleLeft(P, S, 2.0); SwapLast(S, R, S); }
      Add(MulReal(U, 2.0), U);
      { Thrice(U); }
      MulReal(U, 3.0);
    }
  }

  /** `(s*x + r)^4` has `6*s^2*r^2` as its x^2 coefficient. */
  lemma RepeatedExpanded(fs: seq<Factor>, s: real, root: Complex)
    requires |fs| == 4 && Repeated(fs, s, root)
    ensures Expand(fs)[2] == MulReal(SquaresProduct(s, root), 6.0)
  {
    var fs3 := fs[..3];
    assert fs3[0] == fs[0] && fs3[1] == fs[1] && fs3[2] == fs[2];
    RepeatedExpandedThree(fs3, s, root);
    var e3 := Expand(fs3);
    assert fs[3] == Factor(s, root);
    assert Coeff(e3, 1) == e3[1] && Coeff(e3, 2) == e3[2];
    ExpandStep(fs, 2);
    SixSquares(s, root);
  }

  /** `3*s*r^2 * s + 3*s^2*r * r` is `6*s^2*r^2`. */
  lemma SixSquares(s: real, root: Complex)
    ensures var R, S := root, FromReal(s);
      Add(Mul(MulReal(Mul(Mul(S, R), R), 3.0), S), Mul(MulReal(Mul(Mul(S, S), R), 3.0), R))
        == MulReal(SquaresProduct(s, root), 6.0)
  {
    var R, S := root, FromReal(s);
    var T, U := Mul(Mul(S, R), R), Mul(Mul(S, S), R);
    ScaleLeft(T, S, 3.0);
    ScaleLeft(U, R, 3.0);
    FourSwap(S, R);
    assert Mul(T, S) == SquaresProduct(s, root);
  }

  lemma RepeatedDiffer(fs: seq<Factor>, s: real, root: Complex)
    requires |fs| == 4 && Repeated(fs, s, root)
    ensures Compressed(fs)[2] == Expand(fs)[2] <==> SquaresProduct(s, root) == Zero
  {
    RepeatedCompressed(fs, s, root);
    RepeatedExpanded(fs, s, root);
    var w := SquaresProduct(s, root);
    assert w == Complex(w.re, w.im);
  }

  lemma UnitSquares()
    ensures SquaresProduct(1.0, One) == One
  {
  }

  /** Four copies of `x + 1`: the source's x^2 coefficient is 4, the
      product's is 6. */
  lemma FourFactorsCounterexample(fs: seq<Factor>)
    requires |fs| == 4 && Repeated(fs, 1.0, One)
    ensures Compressed(fs) != Expand(fs)
  {
    UnitSquares();
    RepeatedDiffer(fs, 1.0, One);
  }
}
