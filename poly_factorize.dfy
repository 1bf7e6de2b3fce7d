/** The discrete skeleton of `FactorizePoly`, the Durand–Kerner root finder.
    The seeding (a circle of radius `pow(|first| / |last|, 1/maxRank)` built
    with `polarToCart`), the iteration cap, the tolerance and the modulus
    `absolute()` are floating-point and transcendental: the seeds, the cap
    and the tolerance are parameters here and the modulus is an abstract
    function.  Where the source would go on computing with an infinity or a
    NaN (a root estimate at 0, which `powReal` cannot raise, or two equal
    estimates, which make the divisor 0), the model stops with `None`. */
module PolyFactorize {
  import opened Wrappers
  import opened ComplexC
  import opened Poly
  import opened PolyCompress

  // ================================================================ the pass

  /** `sub_product`: starting from 1, multiply by `cur[i] - cur[j]` for every
      j other than i, in index order, over the first n estimates. */
  function SubProduct(cur: seq<Complex>, i: nat, n: nat): Complex
    requires i < |cur| && n <= |cur|
  {
    if n == 0 then One
    else if n - 1 == i then SubProduct(cur, i, n - 1)
    else MulAssign(SubProduct(cur, i, n - 1), Sub(cur[i], cur[n - 1]))
  }

  /** `getValCompressedPoly`, with the value at 0 undefined when a nonzero
      coefficient needs `powReal(0, k)`. */
  function ValueAt(c: Coeffs, x: Complex): Option<Complex> {
    if x == Zero && !AllZero(c) then None else Some(Eval(c, x))
  }

  /** The new estimate for root i: `cur_i - p(cur_i) / sub_product`, or
      `None` where the source computes with a NaN. */
  function Step(c: Coeffs, cur: seq<Complex>, i: nat): Option<Complex>
    requires i < |cur|
  {
    var d := SubProduct(cur, i, |cur|);
    match ValueAt(c, cur[i])
    case None => None
    case Some(v) => if NormSq(d) == 0.0 then None else Some(Sub(cur[i], Div(v, d)))
  }

  /** The first n entries of one update pass; every entry reads only `cur`. */
  function PassUpTo(c: Coeffs, cur: seq<Complex>, n: nat): Option<seq<Complex>>
    requires n <= |cur|
  {
    if n == 0 then Some([])
    else
      match PassUpTo(c, cur, n - 1)
      case None => None
      case Some(p) =>
        match Step(c, cur, n - 1)
        case None => None
        case Some(v) => Some(p + [v])
  }

  function Pass(c: Coeffs, cur: seq<Complex>): Option<seq<Complex>> {
    PassUpTo(c, cur, |cur|)
  }

  // ========================================================= the convergence

  function Abs(d: real): real { if d < 0.0 then -d else d }

  /** The first n estimates' moduli moved by less than the tolerance. */
  predicate Close(cur: seq<Complex>, next: seq<Complex>, n: nat, tol: real, modulus: Complex -> real)
    requires n <= |cur| == |next|
  {
    forall i :: 0 <= i < n ==> Abs(modulus(cur[i]) - modulus(next[i])) < tol
  }

  /** `all_converged` after the test loop, entered with the flag false. */
  predicate AllConverged(cur: seq<Complex>, next: seq<Complex>, tol: real, modulus: Complex -> real)
    requires |cur| == |next|
  {
    |cur| > 0 && Close(cur, next, |cur|, tol, modulus)
  }

  // ============================================================ the iteration

  /** The estimates after at most `fuel` more passes, stopping after the pass
      that converges. */
  function Iterate(c: Coeffs, cur: seq<Complex>, fuel: nat, tol: real, modulus: Complex -> real): Option<seq<Complex>>
    decreases fuel
  {
    if fuel == 0 then Some(cur)
    else
      match Pass(c, cur)
      case None => None
      case Some(next) =>
        PassLength(c, cur, |cur|);
        if AllConverged(cur, next, tol, modulus) then Some(next)
        else Iterate(c, next, fuel - 1, tol, modulus)
  }

  /** The output pairs `{1, -root}`. */
  function OutputFactors(roots: seq<Complex>): seq<Factor> {
    seq(|roots|, i requires 0 <= i < |roots| => Factor(1.0, Neg(roots[i])))
  }

  /** `FactorizePoly` on the given seeds.  For an empty input `maxRank`
      wraps round to the largest `size_t`, so the check for a small rank
      passes and `at(maxRank)` throws `out_of_range`; ranks 0 and 1 throw
      `invalid_argument`.  A zero leading coefficient makes the seed radius
      infinite (or NaN when every coefficient is zero), so no estimate is a
      number. */
  function Factorization(c: Coeffs, seeds: seq<Complex>, maxIter: nat, tol: real, modulus: Complex -> real)
    : Result<Option<seq<Factor>>>
  {
    if |c| == 0 then Failure(OutOfRange)
    else if |c| < 3 then Failure(InvalidArgument)
    else if c[|c| - 1] == Zero then Success(None)
    else
      match Iterate(c, seeds, maxIter, tol, modulus)
      case None => Success(None)
      case Some(roots) => Success(Some(OutputFactors(roots)))
  }

  // =============================================================== methods

  /** The loop that finds `first_nonzero_coeff`, which only sizes the seed
      circle; with no nonzero coefficient it stays unassigned. */
  method FirstNonzero(c: Coeffs) returns (r: Option<Complex>)
    ensures r.None? <==> AllZero(c)
    ensures r.Some? ==> exists k :: 0 <= k < |c| && c[k] == r.value && r.value != Zero && AllZero(c[..k])
  {
    for i := 0 to |c|
      invariant AllZero(c[..i])
    {
      if Neq(c[i], Zero) {
        return Some(c[i]);
      }
      assert c[..i + 1] == c[..i] + [c[i]];
    }
    assert c[..|c|] == c;
    return None;
  }

  /** The inner loop that builds `sub_product` for root i. */
  method SubProductOf(cur: array<Complex>, i: nat) returns (p: Complex)
    requires i < cur.Length
    ensures p == SubProduct(cur[..], i, cur.Length)
  {
    p := One;
    for j := 0 to cur.Length
      invariant p == SubProduct(cur[..], i, j)
    {
      if j != i {
        p := MulAssign(p, Sub(cur[i], cur[j]));
      }
    }
  }

  /** One Jacobi-style pass: `next` is written from `cur` alone.  It reports
      `false` at the first estimate the source would compute as a NaN. */
  method UpdatePass(c: Coeffs, cur: array<Complex>, next: array<Complex>) returns (ok: bool)
    requires cur != next && cur.Length == next.Length
    modifies next
    ensures ok <==> Pass(c, cur[..]).Some?
    ensures ok ==> next[..] == Pass(c, cur[..]).value
  {
    for i := 0 to cur.Length
      invariant PassUpTo(c, cur[..], i).Some?
      invariant next[..i] == PassUpTo(c, cur[..], i).value
    {
      var curVal := cur[i];
      var subProduct := SubProductOf(cur, i);
      var value := GetValCompressedPoly(curVal, c);
      if value.None? || NormSq(subProduct) == 0.0 {
        StopsAtNone(c, cur[..], i + 1, cur.Length);
        return false;
      }
      next[i] := Sub(curVal, Div(value.value, subProduct));
      assert next[..i + 1] == next[..i] + [next[i]];
    }
    assert next[..] == next[..cur.Length];
    return true;
  }

  /** The convergence test, which stops at the first estimate that moved. */
  method ConvergenceCheck(cur: array<Complex>, next: array<Complex>, tol: real, modulus: Complex -> real)
    returns (converged: bool)
    requires cur.Length == next.Length
    ensures converged <==> AllConverged(cur[..], next[..], tol, modulus)
  {
    converged := false;
    for i := 0 to cur.Length
      invariant converged <==> 0 < i
      invariant Close(cur[..], next[..], i, tol, modulus)
    {
      if Abs(modulus(cur[i]) - modulus(next[i])) < tol {
        converged := true;
      } else {
        converged := false;
        return;
      }
    }
  }

  /** One trip round the source's `while`: a pass into `next`, the
      convergence test, and `currentValues = nextValues`. */
  method Round(c: Coeffs, cur: array<Complex>, next: array<Complex>, tol: real, modulus: Complex -> real)
    returns (ok: bool, converged: bool)
    requires cur != next && cur.Length == next.Length
    modifies cur, next
    ensures ok <==> Pass(c, old(cur[..])).Some?
    ensures ok ==> cur[..] == next[..] == Pass(c, old(cur[..])).value
    ensures ok ==> (converged <==> AllConverged(old(cur[..]), next[..], tol, modulus))
  {
    converged := false;
    ok := UpdatePass(c, cur, next);
    if !ok {
      return;
    }
    converged := ConvergenceCheck(cur, next, tol, modulus);
    forall k | 0 <= k < cur.Length {
      cur[k] := next[k];
    }
  }

  /** The source's `while` loop over the buffers `currentValues` and
      `nextValues`, both starting from the seeds; `None` when a pass would
      compute with a NaN. */
  method RunIterations(c: Coeffs, seeds: seq<Complex>, maxIter: nat, tol: real, modulus: Complex -> real)
    returns (roots: Option<seq<Complex>>)
    ensures roots == Iterate(c, seeds, maxIter, tol, modulus)
  {
    var next := new Complex[|seeds|](i requires 0 <= i < |seeds| => seeds[i]);
    var cur := new Complex[|seeds|](i requires 0 <= i < |seeds| => seeds[i]);
    assert cur[..] == seeds;
    var iter := 0;
    var converged := false;
    while iter < maxIter && !converged
      invariant 0 <= iter <= maxIter
      invariant cur != next && cur.Length == next.Length
      invariant next[..] == cur[..]
      invariant converged ==> Iterate(c, seeds, maxIter, tol, modulus) == Some(cur[..])
      invariant !converged ==> Iterate(c, seeds, maxIter, tol, modulus) == Iterate(c, cur[..], maxIter - iter, tol, modulus)
      decreases maxIter - iter
    {
      ghost var before := cur[..];
      iter := iter + 1;
      var ok;
      ok, converged := Round(c, cur, next, tol, modulus);
      if !ok {
        return None;
      }
      PassLength(c, before, |before|);
    }
    return Some(next[..]);
  }

  /** `FactorizePoly` with the seeds, the cap, the tolerance and the modulus
      as parameters. */
  method Factorize(c: Coeffs, seeds: seq<Complex>, maxIter: nat, tol: real, modulus: Complex -> real)
    returns (r: Result<Option<seq<Factor>>>)
    requires |c| >= 3 ==> |seeds| == |c| - 1
    ensures r == Factorization(c, seeds, maxIter, tol, modulus)
  {
    if |c| == 0 {
      return Failure(OutOfRange);
    }
    var maxRank := |c| - 1;
    if maxRank < 2 {
      return Failure(InvalidArgument);
    }
    // the first nonzero coefficient and the leading one size the seed circle
    var first := FirstNonzero(c);
    if Eq(c[maxRank], Zero) {
      return Success(None);
    }
    var roots := RunIterations(c, seeds, maxIter, tol, modulus);
    if roots.None? {
      return Success(None);
    }
    IterateLength(c, seeds, maxIter, tol, modulus);
    var factors := [];
    for i := 0 to maxRank
      invariant factors == OutputFactors(roots.value)[..i]
    {
      factors := factors + [Factor(1.0, Neg(roots.value[i]))];
    }
    assert factors == OutputFactors(roots.value);
    return Success(Some(factors));
  }

  // ================================================================== laws

  lemma {:induction false} PassLength(c: Coeffs, cur: seq<Complex>, n: nat)
    requires n <= |cur|
    ensures PassUpTo(c, cur, n).Some? ==> |PassUpTo(c, cur, n).value| == n
  {
    if n > 0 {
      PassLength(c, cur, n - 1);
    }
  }

  /** Once an estimate is undefined, the whole pass is. */
  lemma {:induction false} StopsAtNone(c: Coeffs, cur: seq<Complex>, k: nat, n: nat)
    requires 0 < k <= n <= |cur| && Step(c, cur, k - 1).None?
    ensures PassUpTo(c, cur, n).None?
  {
    if n > k {
      StopsAtNone(c, cur, k, n - 1);
    }
  }

  /** Entry i of a pass is the new estimate for root i, computed from the
      current estimates only; the pass is defined iff every entry is. */
  lemma {:induction false} PassEntries(c: Coeffs, cur: seq<Complex>, n: nat)
    requires n <= |cur|
    ensures PassUpTo(c, cur, n).Some? <==> forall i :: 0 <= i < n ==> Step(c, cur, i).Some?
    ensures PassUpTo(c, cur, n).Some? ==>
      |PassUpTo(c, cur, n).value| == n &&
      forall i :: 0 <= i < n ==> PassUpTo(c, cur, n).value[i] == Step(c, cur, i).value
  {
    if n > 0 {
      PassEntries(c, cur, n - 1);
      PassLength(c, cur, n - 1);
    }
  }

  /** Two equal estimates make every other root's divisor zero, so the pass
      divides by zero. */
  lemma {:induction false} CoincidentEstimates(cur: seq<Complex>, i: nat, j: nat, n: nat)
    requires i < |cur| && j < n <= |cur| && i != j && cur[i] == cur[j]
    ensures SubProduct(cur, i, n) == Zero
  {
    if n - 1 == j {
      NegInverse(cur[i]);
      MulZero(SubProduct(cur, i, n - 1));
    } else {
      CoincidentEstimates(cur, i, j, n - 1);
      MulZero(Sub(cur[i], cur[n - 1]));
    }
  }

  lemma CoincidentPassUndefined(c: Coeffs, cur: seq<Complex>, i: nat, j: nat)
    requires i < |cur| && j < |cur| && i != j && cur[i] == cur[j]
    ensures Pass(c, cur).None?
  {
    CoincidentEstimates(cur, i, j, |cur|);
    StopsAtNone(c, cur, i + 1, |cur|);
  }

  /** An exact root with a nonzero divisor does not move. */
  lemma ExactRootStep(c: Coeffs, cur: seq<Complex>, i: nat)
    requires i < |cur| && ValueAt(c, cur[i]) == Some(Zero)
    requires NormSq(SubProduct(cur, i, |cur|)) != 0.0
    ensures Step(c, cur, i) == Some(cur[i])
  {
    var d := SubProduct(cur, i, |cur|);
    assert Div(Zero, d) == Zero;
    assert Sub(cur[i], Zero) == cur[i];
  }

  /** A pass over exact roots, each with a nonzero divisor, gives them back. */
  lemma ExactRootsPass(c: Coeffs, cur: seq<Complex>)
    requires forall i :: 0 <= i < |cur| ==> ValueAt(c, cur[i]) == Some(Zero)
    requires forall i :: 0 <= i < |cur| ==> NormSq(SubProduct(cur, i, |cur|)) != 0.0
    ensures Pass(c, cur) == Some(cur)
  {
    forall i | 0 <= i < |cur|
      ensures Step(c, cur, i) == Some(cur[i])
    {
      ExactRootStep(c, cur, i);
    }
    PassEntries(c, cur, |cur|);
    assert Pass(c, cur).value == cur;
  }

  /** Exact roots are a fixed point: a root's value is 0, so its estimate
      does not move, and a pass over exact roots converges. */
  lemma ExactRootsFixed(c: Coeffs, cur: seq<Complex>, tol: real, modulus: Complex -> real)
    requires |cur| > 0 && tol > 0.0
    requires forall i :: 0 <= i < |cur| ==> ValueAt(c, cur[i]) == Some(Zero)
    requires forall i :: 0 <= i < |cur| ==> NormSq(SubProduct(cur, i, |cur|)) != 0.0
    ensures Pass(c, cur) == Some(cur)
    ensures forall fuel: nat :: fuel > 0 ==> Iterate(c, cur, fuel, tol, modulus) == Some(cur)
  {
    ExactRootsPass(c, cur);
    assert AllConverged(cur, cur, tol, modulus);
  }

  /** The iteration keeps one estimate per root. */
  lemma {:induction false} IterateLength(c: Coeffs, cur: seq<Complex>, fuel: nat, tol: real, modulus: Complex -> real)
    ensures Iterate(c, cur, fuel, tol, modulus).Some? ==> |Iterate(c, cur, fuel, tol, modulus).value| == |cur|
    decreases fuel
  {
    if fuel > 0 {
      PassLength(c, cur, |cur|);
      if Pass(c, cur).Some? {
        IterateLength(c, Pass(c, cur).value, fuel - 1, tol, modulus);
      }
    }
  }

  /** The error cases, and the shape of the result: one monic factor
      `x - root` per root, `maxRank` of them. */
  lemma FactorizationShape(c: Coeffs, seeds: seq<Complex>, maxIter: nat, tol: real, modulus: Complex -> real)
    requires |c| >= 3 ==> |seeds| == |c| - 1
    ensures |c| == 0 <==> Factorization(c, seeds, maxIter, tol, modulus) == Failure(OutOfRange)
    ensures 1 <= |c| <= 2 <==> Factorization(c, seeds, maxIter, tol, modulus) == Failure(InvalidArgument)
    ensures |c| >= 3 && c[|c| - 1] == Zero ==> Factorization(c, seeds, maxIter, tol, modulus) == Success(None)
    ensures var r := Factorization(c, seeds, maxIter, tol, modulus);
      r.Success? && r.value.Some? ==>
        |r.value.value| == |c| - 1 && forall k :: 0 <= k < |c| - 1 ==> r.value.value[k].scale == 1.0
  {
    IterateLength(c, seeds, maxIter, tol, modulus);
  }

  /** Each returned factor vanishes at the root it came from, and so does
      the product of all of them. */
  lemma OutputVanishes(roots: seq<Complex>, k: nat)
    requires k < |roots|
    ensures FactorValue(OutputFactors(roots)[k], roots[k]) == Zero
    ensures FactorsValue(OutputFactors(roots), roots[k]) == Zero
  {
    var fs := OutputFactors(roots);
    MulOne(roots[k]);
    NegInverse(roots[k]);
    ZeroFactor(fs, roots[k], k);
  }

  /** A product with a vanishing factor vanishes. */
  lemma {:induction false} ZeroFactor(fs: seq<Factor>, x: Complex, k: nat)
    requires k < |fs| && FactorValue(fs[k], x) == Zero
    ensures FactorsValue(fs, x) == Zero
  {
    var last := |fs| - 1;
    if k == last {
      MulZero(FactorsValue(fs[..last], x));
    } else {
      ZeroFactor(fs[..last], x, k);
      MulZero(FactorValue(fs[last], x));
    }
  }
}
