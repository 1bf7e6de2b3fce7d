/** Cellwise arithmetic on flat sequences of `real`: what the vector and
    matrix operators do to their storage, one slot at a time. */
module Elementwise {

  function Plus(a: seq<real>, b: seq<real>): seq<real>
    requires |a| == |b|
  {
    seq(|a|, i requires 0 <= i < |a| => a[i] + b[i])
  }

  function Minus(a: seq<real>, b: seq<real>): seq<real>
    requires |a| == |b|
  {
    seq(|a|, i requires 0 <= i < |a| => a[i] - b[i])
  }

  /** The cellwise (Hadamard) product. */
  function Times(a: seq<real>, b: seq<real>): seq<real>
    requires |a| == |b|
  {
    seq(|a|, i requires 0 <= i < |a| => a[i] * b[i])
  }

  function Scale(a: seq<real>, k: real): seq<real> {
    seq(|a|, i requires 0 <= i < |a| => a[i] * k)
  }

  function Quotient(a: seq<real>, k: real): seq<real>
    requires k != 0.0
  {
    seq(|a|, i requires 0 <= i < |a| => a[i] / k)
  }

  // ==================================================================== laws

  /** Adding back what was subtracted restores the minuend. */
  lemma PlusUndoesMinus(a: seq<real>, b: seq<real>)
    requires |a| == |b|
    ensures Plus(Minus(a, b), b) == a
  {
    assert forall i :: 0 <= i < |a| ==> Plus(Minus(a, b), b)[i] == a[i];
  }

  lemma MinusSelf(a: seq<real>)
    ensures Minus(a, a) == seq(|a|, _ => 0.0)
  {
  }

  lemma PlusCommutes(a: seq<real>, b: seq<real>)
    requires |a| == |b|
    ensures Plus(a, b) == Plus(b, a)
  {
  }

  lemma TimesCommutes(a: seq<real>, b: seq<real>)
    requires |a| == |b|
    ensures Times(a, b) == Times(b, a)
  {
    forall i | 0 <= i < |a|
      ensures Times(a, b)[i] == Times(b, a)[i]
    {
      assert a[i] * b[i] == b[i] * a[i];
    }
  }

  /** Scalar division undoes scalar multiplication by the same nonzero value. */
  lemma QuotientUndoesScale(a: seq<real>, k: real)
    requires k != 0.0
    ensures Quotient(Scale(a, k), k) == a
  {
    forall i | 0 <= i < |a|
      ensures Quotient(Scale(a, k), k)[i] == a[i]
    {
      assert (a[i] * k) / k == a[i];
    }
  }
}
