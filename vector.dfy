/** `Vector<T>` with `T` = `double` modelled as `real`: a fixed-length,
    bounds-checked heap array.  The element sequence of a vector is
    `Items()`; the operations are specified by the sequence functions at the
    top of the module, about which the lemmas at the bottom are proved. */
module Vectors {
  import opened Wrappers
  import opened Elementwise

  // ================================================== the sequence functions

  /** `sum += a[i] * b[i]` from a sum of 0, in index order. */
  function Dot(a: seq<real>, b: seq<real>): real
    requires |a| == |b|
  {
    if |a| == 0 then 0.0
    else Dot(a[..|a| - 1], b[..|a| - 1]) + a[|a| - 1] * b[|a| - 1]
  }

  /** `crossR3` as written: the third component multiplies `a[1]` by `b[1]`. */
  function CrossAsWritten(a: seq<real>, b: seq<real>): seq<real>
    requires |a| == 3 && |b| == 3
  {
    [a[1] * b[2] - a[2] * b[1], a[2] * b[0] - a[0] * b[2], a[0] * b[1] - a[1] * b[1]]
  }

  /** The cross product in R3. */
  function Cross(a: seq<real>, b: seq<real>): seq<real>
    requires |a| == 3 && |b| == 3
  {
    [a[1] * b[2] - a[2] * b[1], a[2] * b[0] - a[0] * b[2], a[0] * b[1] - a[1] * b[0]]
  }

  // ================================================================ the class

  class Vector {
    var data: array<real>

    function Items(): seq<real>
      reads this, data
    {
      data[..]
    }

    /** `size()`: the length fixed at construction. */
    function Size(): nat
      reads this
    {
      data.Length
    }

    /** The storage of a vector whose checks have passed. */
    constructor Filled(items: seq<real>)
      ensures Items() == items && fresh(data)
    {
      var a := new real[|items|];
      for i := 0 to |items|
        invariant a[..i] == items[..i]
      {
        a[i] := items[i];
      }
      data := a;
    }

    /** `Vector(len)`: throws for a length of 0.  The source leaves the new
        storage unset, so only its length is promised. */
    static method New(len: nat) returns (r: Result<Vector>)
      ensures r.Failure? <==> len == 0
      ensures r.Failure? ==> r.error == InvalidArgument
      ensures r.Success? ==> r.value.Size() == len && fresh(r.value.data)
    {
      if len < 1 {
        return Failure(InvalidArgument);
      }
      var v := new Vector.Filled(seq(len, _ => 0.0));
      return Success(v);
    }

    /** The initializer-list and `std::vector` constructors: both throw on
        an empty input and otherwise store the items in order. */
    static method FromSeq(items: seq<real>) returns (r: Result<Vector>)
      ensures r.Failure? <==> |items| == 0
      ensures r.Failure? ==> r.error == InvalidArgument
      ensures r.Success? ==> r.value.Items() == items && fresh(r.value.data)
    {
      if |items| == 0 {
        return Failure(InvalidArgument);
      }
      var v := new Vector.Filled(items);
      return Success(v);
    }

    method Get(index: nat) returns (r: Result<real>)
      ensures r.Success? <==> index < |Items()|
      ensures r.Failure? ==> r.error == InvalidArgument
      ensures r.Success? ==> r.value == Items()[index]
    {
      if !(index < data.Length) {
        return Failure(InvalidArgument);
      }
      return Success(data[index]);
    }

    /** `set(index, val)`: writes one slot and leaves every other one. */
    method Set(index: nat, val: real) returns (r: Result<()>)
      modifies data
      ensures r.Success? <==> index < |Items()|
      ensures r.Failure? ==> r.error == InvalidArgument
      ensures r.Success? ==> Items() == old(Items())[index := val]
      ensures r.Failure? ==> Items() == old(Items())
    {
      if !(index < data.Length) {
        return Failure(InvalidArgument);
      }
      data[index] := val;
      return Success(());
    }

    /** `operator+`: throws on a size mismatch, else elementwise.  The
        source's loop subscripts `get_data` itself rather than the array it
        returns; this is the sum that loop evidently means. */
    method Add(vec: Vector) returns (r: Result<Vector>)
      ensures r.Success? <==> vec.Size() == Size()
      ensures r.Failure? ==> r.error == InvalidArgument
      ensures r.Success? ==> r.value.Items() == Plus(Items(), vec.Items())
      ensures r.Success? ==> fresh(r.value.data)
    {
      if vec.Size() != data.Length {
        return Failure(InvalidArgument);
      }
      var out := new real[data.Length];
      for i := 0 to data.Length
        invariant out[..i] == Plus(Items(), vec.Items())[..i]
      {
        out[i] := data[i] + vec.data[i];
      }
      var v := new Vector.Filled(out[..]);
      return Success(v);
    }

    /** `operator-`: throws on a size mismatch, else elementwise. */
    method Subtract(vec: Vector) returns (r: Result<Vector>)
      ensures r.Success? <==> vec.Size() == Size()
      ensures r.Failure? ==> r.error == InvalidArgument
      ensures r.Success? ==> r.value.Items() == Minus(Items(), vec.Items())
      ensures r.Success? ==> fresh(r.value.data)
    {
      if vec.Size() != data.Length {
        return Failure(InvalidArgument);
      }
      var out := new real[data.Length];
      for i := 0 to data.Length
        invariant out[..i] == Minus(Items(), vec.Items())[..i]
      {
        out[i] := data[i] - vec.data[i];
      }
      var v := new Vector.Filled(out[..]);
      return Success(v);
    }

    /** The dot-product `operator*`: throws on a size mismatch. */
    method DotProduct(vec: Vector) returns (r: Result<real>)
      ensures r.Success? <==> vec.Size() == Size()
      ensures r.Failure? ==> r.error == InvalidArgument
      ensures r.Success? ==> r.value == Dot(Items(), vec.Items())
    {
      if vec.Size() != data.Length {
        return Failure(InvalidArgument);
      }
      var sum := 0.0;
      for i := 0 to data.Length
        invariant sum == Dot(data[..i], vec.data[..i])
      {
        assert data[..i + 1][..i] == data[..i] && vec.data[..i + 1][..i] == vec.data[..i];
        sum := sum + data[i] * vec.data[i];
      }
      assert data[..] == data[..data.Length] && vec.data[..] == vec.data[..data.Length];
      return Success(sum);
    }

    /** The scalar `operator*`. */
    method MulScalar(num: real) returns (v: Vector)
      ensures v.Items() == Scale(Items(), num)
      ensures fresh(v.data)
    {
      var a := data[..];
      var out := new real[|a|];
      for i := 0 to |a|
        invariant forall k :: 0 <= k < i ==> out[k] == a[k] * num
      {
        out[i] := a[i] * num;
      }
      forall k | 0 <= k < |a|
        ensures out[..][k] == Scale(a, num)[k]
      {
        assert out[k] == a[k] * num;
      }
      v := new Vector.Filled(out[..]);
    }

    /** The scalar `operator/`; dividing by 0 gives infinities or NaNs,
        which the model reports as `None`. */
    method DivScalar(num: real) returns (r: Option<Vector>)
      ensures r.None? <==> num == 0.0
      ensures r.Some? ==> num != 0.0 && r.value.Items() == Quotient(Items(), num)
      ensures r.Some? ==> fresh(r.value.data)
    {
      if num == 0.0 {
        return None;
      }
      var out := new real[data.Length];
      for i := 0 to data.Length
        invariant out[..i] == Quotient(Items(), num)[..i]
      {
        out[i] := data[i] / num;
      }
      var v := new Vector.Filled(out[..]);
      return Some(v);
    }

    /** `operator==`: the same length and the same items. */
    method Equals(vec: Vector) returns (b: bool)
      ensures b <==> Items() == vec.Items()
    {
      if data.Length != vec.Size() {
        return false;
      }
      for i := 0 to data.Length
        invariant data[..i] == vec.data[..i]
      {
        if data[i] != vec.data[i] {
          return false;
        }
      }
      assert data[..] == data[..data.Length] && vec.data[..] == vec.data[..data.Length];
      return true;
    }

    method NotEquals(vec: Vector) returns (b: bool)
      ensures b <==> Items() != vec.Items()
    {
      b := Equals(vec);
      b := !b;
    }

    /** `crossR3` as written. */
    method CrossR3(vec: Vector) returns (r: Result<Vector>)
      ensures r.Success? <==> Size() == 3 && vec.Size() == 3
      ensures r.Failure? ==> r.error == InvalidArgument
      ensures r.Success? ==> r.value.Items() == CrossAsWritten(Items(), vec.Items())
      ensures r.Success? ==> fresh(r.value.data)
    {
      if data.Length != 3 || vec.Size() != 3 {
        return Failure(InvalidArgument);
      }
      var v := new Vector.Filled(CrossAsWritten(data[..], vec.data[..]));
      return Success(v);
    }

    /** `crossR3` with the third component `a[0] b[1] - a[1] b[0]`. */
    method CrossR3Corrected(vec: Vector) returns (r: Result<Vector>)
      ensures r.Success? <==> Size() == 3 && vec.Size() == 3
      ensures r.Failure? ==> r.error == InvalidArgument
      ensures r.Success? ==> r.value.Items() == Cross(Items(), vec.Items())
      ensures r.Success? ==> fresh(r.value.data)
    {
      if data.Length != 3 || vec.Size() != 3 {
        return Failure(InvalidArgument);
      }
      var v := new Vector.Filled(Cross(data[..], vec.data[..]));
      return Success(v);
    }
  }

  // ==================================================================== laws

  /** The dot product does not depend on the order of its operands. */
  lemma {:induction false} DotSymmetric(a: seq<real>, b: seq<real>)
    requires |a| == |b|
    ensures Dot(a, b) == Dot(b, a)
  {
    if |a| > 0 {
      DotSymmetric(a[..|a| - 1], b[..|a| - 1]);
    }
  }

  /** The dot product is additive in each operand: `(a - b) . c == a . c - b . c`. */
  lemma {:induction false} DotMinus(a: seq<real>, b: seq<real>, c: seq<real>)
    requires |a| == |b| == |c|
    ensures Dot(Minus(a, b), c) == Dot(a, c) - Dot(b, c)
  {
    if |a| > 0 {
      var n := |a| - 1;
      assert Minus(a, b)[..n] == Minus(a[..n], b[..n]);
      DotMinus(a[..n], b[..n], c[..n]);
      assert (a[n] - b[n]) * c[n] == a[n] * c[n] - b[n] * c[n];
    }
  }

  /** The cross product is perpendicular to both of its operands. */
  lemma CrossOrthogonal(a: seq<real>, b: seq<real>)
    requires |a| == 3 && |b| == 3
    ensures Dot(a, Cross(a, b)) == 0.0
    ensures Dot(b, Cross(a, b)) == 0.0
  {
    var c := Cross(a, b);
    DotThree(a, c);
    DotThree(b, c);
    TripleProductsVanish(a, b, c);
  }

  lemma TripleProductsVanish(a: seq<real>, b: seq<real>, c: seq<real>)
    requires |a| == 3 && |b| == 3 && c == Cross(a, b)
    ensures a[0] * c[0] + a[1] * c[1] + a[2] * c[2] == 0.0
    ensures b[0] * c[0] + b[1] * c[1] + b[2] * c[2] == 0.0
  {
    assert a[0] * (a[1] * b[2] - a[2] * b[1]) + a[1] * (a[2] * b[0] - a[0] * b[2]) + a[2] * (a[0] * b[1] - a[1] * b[0]) == 0.0;
    assert b[0] * (a[1] * b[2] - a[2] * b[1]) + b[1] * (a[2] * b[0] - a[0] * b[2]) + b[2] * (a[0] * b[1] - a[1] * b[0]) == 0.0;
  }

  /** The dot product of two triples, written out. */
  lemma DotThree(a: seq<real>, b: seq<real>)
    requires |a| == 3 && |b| == 3
    ensures Dot(a, b) == a[0] * b[0] + a[1] * b[1] + a[2] * b[2]
  {
    assert a[..2][..1] == a[..1] && b[..2][..1] == b[..1];
    assert Dot(a[..1], b[..1]) == a[0] * b[0] by {
      assert a[..1][..0] == [] && b[..1][..0] == [];
    }
  }

  /** The cross product changes sign when its operands swap. */
  lemma CrossAntiCommutes(a: seq<real>, b: seq<real>)
    requires |a| == 3 && |b| == 3
    ensures Cross(b, a) == Scale(Cross(a, b), -1.0)
  {
  }

  /** The as-written result agrees with the cross product in its first two
      components, and its third is off by `a[1] (b[0] - b[1])`. */
  lemma CrossAsWrittenError(a: seq<real>, b: seq<real>)
    requires |a| == 3 && |b| == 3
    ensures CrossAsWritten(a, b)[..2] == Cross(a, b)[..2]
    ensures CrossAsWritten(a, b)[2] == Cross(a, b)[2] + a[1] * (b[0] - b[1])
  {
  }

  /** For a = (1, 1, 1) and b = (1, 2, 3) the as-written result is (1, -2, 0),
      which is not perpendicular to a. */
  lemma CrossAsWrittenCounterexample(a: seq<real>, b: seq<real>)
    requires a == [1.0, 1.0, 1.0] && b == [1.0, 2.0, 3.0]
    ensures CrossAsWritten(a, b) == [1.0, -2.0, 0.0]
    ensures Dot(a, CrossAsWritten(a, b)) == -1.0
  {
    DotThree(a, CrossAsWritten(a, b));
  }
}
