/** What `reshape` and `flatten` promise, stated over the specification
    functions of module Reshape (which the methods there are proved equal
    to). */
module ReshapeProperties {
  import opened ShapeArith
  import opened Reshape

  // ---------------------------------------------------------------------
  // Dispatch on the request

  /** More than four entries is refused before anything else, whatever the
      element count. */
  lemma TooManyDimsRejected(count: nat, dims: seq<int>)
    requires |dims| > MaxDims
    ensures ReshapeOutcome(count, Tuple(dims)) == TooManyDims(|dims|)
  {
  }

  /** Tuples of length 0 or 1 match no branch: no command, no error. */
  lemma ShortTupleNoResult(count: nat, dims: seq<int>)
    requires |dims| <= 1
    ensures ReshapeOutcome(count, Tuple(dims)) == NoResult
  {
  }

  /** A scalar request is accepted exactly when it is -1 or the element
      count; it then issues `reshape1D` with no shape arguments. */
  lemma ScalarAccepted(count: nat, s: int)
    ensures ReshapeOutcome(count, Scalar(s)).Issued? <==> s == Wildcard || s == count
    ensures ReshapeOutcome(count, Scalar(s)).Issued? ==>
              ReshapeOutcome(count, Scalar(s)) == Issued("reshape1D", [])
    ensures !ReshapeOutcome(count, Scalar(s)).Issued? ==>
              ReshapeOutcome(count, Scalar(s)) == SizeMismatch(count, s)
  {
  }

  /** `flatten` issues the very command that reshaping to -1, or to the
      element count, issues. */
  lemma FlattenIsScalarReshape(count: nat)
    ensures Flatten() == ReshapeOutcome(count, Scalar(Wildcard))
    ensures Flatten() == ReshapeOutcome(count, Scalar(count))
  {
  }

  // ---------------------------------------------------------------------
  // The 2D branch

  /** Whatever the request, an issued `reshape2D` carries two numbers whose
      product is the element count, and each requested entry that was not
      -1 is passed on unchanged. */
  lemma Issued2DMultipliesOut(count: nat, m0: int, n0: int)
    requires Outcome2D(count, m0, n0).Issued?
    ensures Outcome2D(count, m0, n0).cmd == "reshape2D"
    ensures |Outcome2D(count, m0, n0).args| == 2
    ensures Outcome2D(count, m0, n0).args[0] * Outcome2D(count, m0, n0).args[1] == count
    ensures m0 != Wildcard ==> Outcome2D(count, m0, n0).args[0] == m0
    ensures n0 != Wildcard ==> Outcome2D(count, m0, n0).args[1] == n0
  {
  }

  /** Without a wildcard the 2D request is accepted iff `m * n` is the
      element count, and then it is passed on as it is. */
  lemma NoWildcard2D(count: nat, m: int, n: int)
    requires m != Wildcard && n != Wildcard
    ensures Outcome2D(count, m, n) ==
              if m * n == count then Issued("reshape2D", [m, n]) else SizeMismatch(count, m * n)
  {
  }

  /** The 2D branch divides by zero exactly for `(-1, 0)`, `(0, -1)`, and
      `(-1, -1)` on an empty array (the first -1 resolves to 0 there). */
  lemma ZeroDivision2D(count: nat, m0: int, n0: int)
    ensures Outcome2D(count, m0, n0) == ZeroDivision <==>
              (m0 == Wildcard && n0 == 0) || (m0 == 0 && n0 == Wildcard) || (m0 == Wildcard && n0 == Wildcard && count == 0)
  {
  }

  /** A -1 first entry next to a positive divisor `d` of the element count
      resolves to `count / d`, and the request is accepted. */
  lemma WildcardFirst2D(count: nat, d: int)
    requires d > 0 && count % d == 0
    ensures Outcome2D(count, Wildcard, d) == Issued("reshape2D", [count / d, d])
  {
  }

  /** The same for a -1 second entry. */
  lemma WildcardSecond2D(count: nat, d: int)
    requires d > 0 && count % d == 0
    ensures Outcome2D(count, d, Wildcard) == Issued("reshape2D", [d, count / d])
  {
  }

  /** Next to a positive `d` that does not divide the element count, the
      truncated quotient makes the product fall short, and the request is
      refused by the size check. */
  lemma WildcardIndivisible2D(count: nat, d: int)
    requires d > 0 && count % d != 0
    ensures Outcome2D(count, Wildcard, d) == SizeMismatch(count, (count / d) * d)
    ensures Outcome2D(count, d, Wildcard) == SizeMismatch(count, d * (count / d))
  {
  }

  /** A single -1 next to any non-zero `d`, of either sign, is accepted
      exactly when `d` divides the element count. */
  lemma OneWildcardIssuedIff2D(count: nat, d: int)
    requires d != 0 && d != Wildcard
    ensures Outcome2D(count, Wildcard, d).Issued? <==> count % d == 0
    ensures Outcome2D(count, d, Wildcard).Issued? <==> count % d == 0
  {
    TruncDivNegated(count, d);
    TruncDivNegatedExact(count, d);
    assert d * TruncDiv(count, d) == TruncDiv(count, d) * d;
  }

  /** `(-1, -1)`: the second check sees the already resolved first entry,
      `-count`, so on a non-empty array the request is accepted as
      `(-count, -1)`. */
  lemma DoubleWildcard2D(count: nat)
    requires count > 0
    ensures Outcome2D(count, Wildcard, Wildcard) == Issued("reshape2D", [-(count as int), -1])
  {
  }

  /** The two examples of the docstring, on an array of 4 elements. */
  lemma DocstringExamples2D()
    ensures ReshapeOutcome(4, Tuple([2, 2])) == Issued("reshape2D", [2, 2])
    ensures ReshapeOutcome(4, Tuple([-1, 1])) == Issued("reshape2D", [4, 1])
  {
  }

  /** A -1 in either position on 12 elements, and a mismatch on 10. */
  lemma WildcardAndMismatchExamples2D()
    ensures ReshapeOutcome(12, Tuple([-1, 3])) == Issued("reshape2D", [4, 3])
    ensures ReshapeOutcome(12, Tuple([4, -1])) == Issued("reshape2D", [4, 3])
    ensures ReshapeOutcome(10, Tuple([3, 4])) == SizeMismatch(10, 12)
  {
  }

  // ---------------------------------------------------------------------
  // The substitution loop of the 3D/4D branches

  /** The substitution keeps the length and every entry that is not -1. */
  lemma {:induction false} SubstituteKeepsEntries(count: nat, dims: seq<int>, size: int)
    requires Substitute(count, dims, size).Some?
    ensures |Substitute(count, dims, size).value| == |dims|
    ensures forall i :: 0 <= i < |dims| && dims[i] != Wildcard ==>
              Substitute(count, dims, size).value[i] == dims[i]
    decreases |dims|
  {
    if dims != [] {
      var size' := if dims[0] == Wildcard then size * TruncDiv(-(count as int), size) else size;
      SubstituteKeepsEntries(count, dims[1..], size');
    }
  }

  /** Without a wildcard the substitution is the identity. */
  lemma {:induction false} SubstituteNoWildcard(count: nat, dims: seq<int>, size: int)
    requires Wildcard !in dims
    ensures Substitute(count, dims, size) == Some(dims)
    decreases |dims|
  {
    if dims != [] {
      SubstituteNoWildcard(count, dims[1..], size);
      assert [dims[0]] + dims[1..] == dims;
    }
  }

  /** With one wildcard, reached while the running product is `size`, that
      entry becomes `int(-count / size)` and nothing else changes. */
  lemma {:induction false} SubstituteOneWildcard(count: nat, dims: seq<int>, k: nat, size: int)
    requires k < |dims| && dims[k] == Wildcard
    requires forall i :: 0 <= i < |dims| && i != k ==> dims[i] != Wildcard
    requires size != 0
    ensures Substitute(count, dims, size) == Some(dims[k := TruncDiv(-(count as int), size)])
    decreases |dims|
  {
    var t := TruncDiv(-(count as int), size);
    if k == 0 {
      SubstituteNoWildcard(count, dims[1..], size * t);
      assert [t] + dims[1..] == dims[0 := t];
    } else {
      SubstituteOneWildcard(count, dims[1..], k - 1, size);
      assert [dims[0]] + dims[1..][k - 1 := t] == dims[k := t];
    }
  }

  /** A wildcard reached while the running product is 0 is a division by
      zero, and without a wildcard nothing is ever divided. */
  lemma {:induction false} SubstituteZeroDivision(count: nat, dims: seq<int>, size: int)
    ensures Substitute(count, dims, size).None? ==> Wildcard in dims
    ensures Wildcard in dims && size == 0 ==> Substitute(count, dims, size).None?
    decreases |dims|
  {
    if dims != [] {
      if dims[0] == Wildcard {
        if size != 0 {
          SubstituteZeroDivision(count, dims[1..], size * TruncDiv(-(count as int), size));
        }
      } else {
        SubstituteZeroDivision(count, dims[1..], size);
        assert Wildcard in dims ==> Wildcard in dims[1..];
      }
    }
  }

  // ---------------------------------------------------------------------
  // `final_shape` and the 3D/4D branches

  /** `final_shape` has the request's length and keeps its entries other
      than -1; with no -1 it is the request itself. */
  lemma FinalShapeShape(count: nat, dims: seq<int>)
    ensures FinalShape(count, dims).Some? ==>
              |FinalShape(count, dims).value| == |dims| &&
              forall i :: 0 <= i < |dims| && dims[i] != Wildcard ==> FinalShape(count, dims).value[i] == dims[i]
    ensures Wildcard !in dims ==> FinalShape(count, dims) == Some(dims)
  {
    if FinalShape(count, dims).Some? {
      SubstituteKeepsEntries(count, dims, Product(dims));
    }
    if Wildcard !in dims {
      SubstituteNoWildcard(count, dims, Product(dims));
    }
  }

  /** Division by zero happens only with a -1 present, and always when a -1
      sits beside a 0 entry. */
  lemma FinalShapeZeroDivision(count: nat, dims: seq<int>)
    ensures FinalShape(count, dims).None? ==> Wildcard in dims
    ensures Wildcard in dims && 0 in dims ==> FinalShape(count, dims).None?
  {
    ProductZero(dims);
    SubstituteZeroDivision(count, dims, Product(dims));
  }

  /** With exactly one -1, the 3D/4D substitution divides by zero exactly
      when some other entry is 0. */
  lemma OneWildcardZeroDivision(count: nat, dims: seq<int>, k: nat)
    requires k < |dims| && dims[k] == Wildcard
    requires forall i :: 0 <= i < |dims| && i != k ==> dims[i] != Wildcard
    ensures FinalShape(count, dims).None? <==> 0 in dims
  {
    ProductZero(dims);
    if 0 in dims {
      SubstituteZeroDivision(count, dims, Product(dims));
    } else {
      SubstituteOneWildcard(count, dims, k, Product(dims));
    }
  }

  /** One -1 at `k`, the other entries multiplying to a positive divisor `p`
      of the element count: the -1 becomes `count / p` and the resolved
      shape multiplies out to the element count. */
  lemma FinalShapeOneWildcard(count: nat, dims: seq<int>, k: nat)
    requires k < |dims| && dims[k] == Wildcard
    requires forall i :: 0 <= i < |dims| && i != k ==> dims[i] != Wildcard
    requires Product(dims[k := 1]) > 0 && count % Product(dims[k := 1]) == 0
    ensures FinalShape(count, dims) == Some(dims[k := count / Product(dims[k := 1])])
    ensures Product(dims[k := count / Product(dims[k := 1])]) == count
  {
    var p := Product(dims[k := 1]);
    var q := count / p;
    ProductUpdate(dims, k, 1);
    ProductUpdate(dims, k, Wildcard);
    ProductUpdate(dims, k, q);
    assert dims[k := Wildcard] == dims;
    TruncDivNonNegative(count, p);
    SubstituteOneWildcard(count, dims, k, Product(dims));
    DivBounds(count, p);
  }

  /** An issued `reshape3D`/`reshape4D` carries the ORIGINAL request, -1s
      included, and is issued only when `final_shape` multiplies out to the
      element count. */
  lemma IssuedND(count: nat, dims: seq<int>)
    requires 3 <= |dims| <= 4
    ensures ReshapeOutcome(count, Tuple(dims)).Issued? <==>
              FinalShape(count, dims).Some? && Product(FinalShape(count, dims).value) == count
    ensures ReshapeOutcome(count, Tuple(dims)).Issued? ==>
              ReshapeOutcome(count, Tuple(dims)) == Issued(CommandND(dims), dims)
  {
  }

  /** Without a -1, a 3D/4D request is accepted iff its product is the
      element count; zero or negative entries are not refused. */
  lemma NoWildcardND(count: nat, dims: seq<int>)
    requires 3 <= |dims| <= 4 && Wildcard !in dims
    ensures ReshapeOutcome(count, Tuple(dims)) ==
              if Product(dims) == count then Issued(CommandND(dims), dims)
              else SizeMismatch(count, Product(dims))
  {
    FinalShapeShape(count, dims);
  }

  /** With one -1 and the other entries multiplying to a positive divisor of
      the element count, a 3D/4D request is accepted, and the command still
      carries the -1. */
  lemma OneWildcardND(count: nat, dims: seq<int>, k: nat)
    requires 3 <= |dims| <= 4
    requires k < |dims| && dims[k] == Wildcard
    requires forall i :: 0 <= i < |dims| && i != k ==> dims[i] != Wildcard
    requires Product(dims[k := 1]) > 0 && count % Product(dims[k := 1]) == 0
    ensures ReshapeOutcome(count, Tuple(dims)) == Issued(CommandND(dims), dims)
  {
    FinalShapeOneWildcard(count, dims, k);
  }

  /** With exactly one -1, a 3D/4D request is issued exactly when the other
      entries multiply to a non-zero divisor of the element count, of either
      sign. */
  lemma OneWildcardIssuedIffND(count: nat, dims: seq<int>, k: nat)
    requires 3 <= |dims| <= 4
    requires k < |dims| && dims[k] == Wildcard
    requires forall i :: 0 <= i < |dims| && i != k ==> dims[i] != Wildcard
    ensures ReshapeOutcome(count, Tuple(dims)).Issued? <==>
              Product(dims[k := 1]) != 0 && count % Product(dims[k := 1]) == 0
  {
    var p := Product(dims[k := 1]);
    ProductUpdate(dims, k, 1);
    ProductUpdate(dims, k, Wildcard);
    assert dims[k := Wildcard] == dims;
    if p == 0 {
      SubstituteZeroDivision(count, dims, Product(dims));
    } else {
      var t := TruncDiv(-(count as int), -p);
      SubstituteOneWildcard(count, dims, k, Product(dims));
      ProductUpdate(dims, k, t);
      TruncDivNegatedExact(count, p);
    }
  }

  /** With one -1 and the other entries multiplying to a positive `p` that
      does not divide the element count, the -1 becomes the truncated
      quotient and the size check refuses the short product. */
  lemma OneWildcardIndivisibleND(count: nat, dims: seq<int>, k: nat)
    requires 3 <= |dims| <= 4
    requires k < |dims| && dims[k] == Wildcard
    requires forall i :: 0 <= i < |dims| && i != k ==> dims[i] != Wildcard
    requires Product(dims[k := 1]) > 0 && count % Product(dims[k := 1]) != 0
    ensures ReshapeOutcome(count, Tuple(dims)) ==
              SizeMismatch(count, (count / Product(dims[k := 1])) * Product(dims[k := 1]))
  {
    var p := Product(dims[k := 1]);
    var q := count / p;
    ProductUpdate(dims, k, 1);
    ProductUpdate(dims, k, Wildcard);
    ProductUpdate(dims, k, q);
    assert dims[k := Wildcard] == dims;
    TruncDivNonNegative(count, p);
    SubstituteOneWildcard(count, dims, k, Product(dims));
    MultipleMod(q, p);
  }

  /** `(-1, 2, 3)` on 25 elements: the -1 becomes `int(-25 / -6) = 4` and
      the size check refuses 24. `(-1, -2, 3)` on 6: a negative co-factor
      product that divides the count resolves to `-1 -2 3` (the substitute
      is `int(-6 / 6) = -1`) and is issued. */
  lemma OneWildcardSignExamples3D()
    ensures ReshapeOutcome(25, Tuple([-1, 2, 3])) == SizeMismatch(25, 24)
    ensures FinalShape(6, [-1, -2, 3]) == Some([-1, -2, 3])
    ensures ReshapeOutcome(6, Tuple([-1, -2, 3])) == Issued("reshape3D", [-1, -2, 3])
  {
    assert [-1, 2, 3][0 := 1] == [1, 2, 3];
    assert [1, 2, 3][..2] == [1, 2] && [1, 2][..1] == [1] && Product([1, 2, 3]) == 6;
    OneWildcardIndivisibleND(25, [-1, 2, 3], 0);
    assert [-1, -2, 3][0 := 1] == [1, -2, 3];
    assert [1, -2, 3][..2] == [1, -2] && [1, -2][..1] == [1] && Product([1, -2, 3]) == -6;
    OneWildcardIssuedIffND(6, [-1, -2, 3], 0);
    IssuedND(6, [-1, -2, 3]);
    assert [-1, -2, 3][..2] == [-1, -2] && [-1, -2][..1] == [-1] && Product([-1, -2, 3]) == 6;
    assert TruncDiv(-6, 6) == -1;
    SubstituteOneWildcard(6, [-1, -2, 3], 0, 6);
    assert [-1, -2, 3][0 := -1] == [-1, -2, 3];
  }

  /** Wildcard inference in 3D, the -1 first: the command keeps the -1. */
  lemma WildcardFirstExample3D()
    ensures FinalShape(24, [-1, 2, 3]) == Some([4, 2, 3])
    ensures ReshapeOutcome(24, Tuple([-1, 2, 3])) == Issued("reshape3D", [-1, 2, 3])
  {
    assert [-1, 2, 3][0 := 1] == [1, 2, 3];
    assert [1, 2, 3][..2] == [1, 2] && [1, 2][..1] == [1] && Product([1, 2, 3]) == 6;
    FinalShapeOneWildcard(24, [-1, 2, 3], 0);
    assert [-1, 2, 3][0 := 4] == [4, 2, 3];
  }

  /** Wildcard inference in 3D, the -1 in the middle. */
  lemma WildcardMiddleExample3D()
    ensures FinalShape(24, [2, -1, 3]) == Some([2, 4, 3])
  {
    assert [2, -1, 3][1 := 1] == [2, 1, 3];
    assert [2, 1, 3][..2] == [2, 1] && [2, 1][..1] == [2] && Product([2, 1, 3]) == 6;
    FinalShapeOneWildcard(24, [2, -1, 3], 1);
    assert [2, -1, 3][1 := 4] == [2, 4, 3];
  }

  /** Wildcard inference in 4D, the -1 last. */
  lemma WildcardLastExample4D()
    ensures ReshapeOutcome(24, Tuple([2, 3, 2, -1])) == Issued("reshape4D", [2, 3, 2, -1])
  {
    assert [2, 3, 2, -1][3 := 1] == [2, 3, 2, 1];
    assert [2, 3, 2, 1][..3] == [2, 3, 2] && [2, 3, 2][..2] == [2, 3] && [2, 3][..1] == [2];
    OneWildcardND(24, [2, 3, 2, -1], 3);
  }

  /** Zero and negative entries are passed through when the product fits. */
  lemma NonPositiveExamplesND()
    ensures ReshapeOutcome(0, Tuple([0, 5, 2])) == Issued("reshape3D", [0, 5, 2])
    ensures ReshapeOutcome(6, Tuple([-2, -3, 1])) == Issued("reshape3D", [-2, -3, 1])
  {
    assert [0, 5, 2][..2] == [0, 5] && [0, 5][..1] == [0];
    assert [-2, -3, 1][..2] == [-2, -3] && [-2, -3][..1] == [-2];
    NoWildcardND(0, [0, 5, 2]);
    NoWildcardND(6, [-2, -3, 1]);
  }

  /** Two -1s: the second sees the running product already multiplied by the
      first substitute, and the size check refuses the result. A -1 beside
      a 0 divides by zero. */
  lemma TwoWildcardsExampleND()
    ensures FinalShape(4, [-1, -1, 2]) == Some([-2, 1, 2])
    ensures ReshapeOutcome(4, Tuple([-1, -1, 2])) == SizeMismatch(4, -4)
    ensures ReshapeOutcome(5, Tuple([-1, 0, 2])) == ZeroDivision
  {
    assert [-1, -1, 2][..2] == [-1, -1] && [-1, -1][..1] == [-1] && Product([-1, -1, 2]) == 2;
    assert TruncDiv(-4, 2) == -2 && TruncDiv(-4, -4) == 1;
    assert [-1, -1, 2][1..] == [-1, 2] && [-1, 2][1..] == [2] && [2][1..] == [];
    assert Substitute(4, [], -4) == Some([]);
    assert [2] + [] == [2] && [1] + [2] == [1, 2] && [-2] + [1, 2] == [-2, 1, 2];
    assert Substitute(4, [2], -4) == Prepend([2], Some([])) == Some([2]);
    assert Substitute(4, [-1, 2], -4) == Prepend([1], Some([2])) == Some([1, 2]);
    assert Substitute(4, [-1, -1, 2], 2) == Prepend([-2], Some([1, 2])) == Some([-2, 1, 2]);
    assert [-2, 1, 2][..2] == [-2, 1] && [-2, 1][..1] == [-2];
    FinalShapeZeroDivision(5, [-1, 0, 2]);
  }

  /** Two -1s and no 0: the first substitute `int(-1 / 2)` truncates to 0,
      which makes the running product 0, and the second -1 divides by
      zero. */
  lemma TwoWildcardsZeroDivisionExampleND()
    ensures FinalShape(1, [-1, -1, 2]) == None
    ensures ReshapeOutcome(1, Tuple([-1, -1, 2])) == ZeroDivision
  {
    assert [-1, -1, 2][..2] == [-1, -1] && [-1, -1][..1] == [-1] && Product([-1, -1, 2]) == 2;
    assert TruncDiv(-1, 2) == 0;
    assert [-1, -1, 2][1..] == [-1, 2];
    assert Substitute(1, [-1, 2], 0) == None;
  }

  // ---------------------------------------------------------------------
  // The whole of `reshape`

  /** The shape a tuple request resolves to: the substituted pair in 2D,
      `final_shape` in 3D/4D. */
  function ResolvedShape(count: nat, dims: seq<int>): Option<seq<int>>
    requires 2 <= |dims| <= 4
  {
    if |dims| == 2 then
      match Substitute2D(count, dims[0], dims[1])
      case None => None
      case Some((m, n)) => Some([m, n])
    else FinalShape(count, dims)
  }

  /** A tuple request issues a command exactly when it has 2 to 4 entries
      and resolves, without dividing by zero, to a shape of the same length
      whose product is the element count. */
  lemma AcceptedIffResolvedMultipliesOut(count: nat, dims: seq<int>)
    ensures ReshapeOutcome(count, Tuple(dims)).Issued? <==>
              2 <= |dims| <= 4 && ResolvedShape(count, dims).Some? &&
              |ResolvedShape(count, dims).value| == |dims| &&
              Product(ResolvedShape(count, dims).value) == count
  {
    if 2 <= |dims| <= 4 {
      if |dims| == 2 {
        var r := Substitute2D(count, dims[0], dims[1]);
        if r.Some? {
          var m, n := r.value.0, r.value.1;
          assert [m, n][..1] == [m];
          ProductSingleton(m);
        }
      } else {
        FinalShapeShape(count, dims);
      }
    }
  }
}
