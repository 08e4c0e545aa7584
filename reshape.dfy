/** The client-side `reshape` and `flatten` operations on a distributed
    array. Given the array's element count `count` and a requested shape, they
    either reject the request, or issue one of the remote commands
    `reshape1D` .. `reshape4D` with its shape arguments, or (for a tuple of
    length 0 or 1) do nothing. The remote call and the array handle built
    from its reply are represented only by the command they are given. */
module Reshape {
  import opened ShapeArith

  /** The value the source uses for "infer this dimension". */
  const Wildcard: int := -1

  /** Requests with more dimensions than this are refused. */
  const MaxDims: nat := 4

  /** The `newshape` argument: a single number or a tuple of dimensions. */
  datatype Shape = Scalar(value: int) | Tuple(dims: seq<int>)

  /** What one call of `reshape` or `flatten` comes to. */
  datatype Outcome =
    | TooManyDims(given: nat)                 // ValueError: more than 4 dimensions
    | SizeMismatch(expected: int, actual: int) // ValueError: size mismatch
    | ZeroDivision                            // a wildcard divided by zero
    | Issued(cmd: string, args: seq<int>)     // the remote command and its shape arguments
    | NoResult                                // no branch matched; returns None

  datatype Option<T> = None | Some(value: T)

  /** `flatten`: always a `reshape1D` command, with no check at all. */
  function Flatten(): Outcome
  {
    Issued("reshape1D", [])
  }

  /** The scalar branch: only -1 or the element count itself are accepted. */
  function ScalarOutcome(count: nat, s: int): Outcome
  {
    if s == Wildcard || s == count then Issued("reshape1D", []) else SizeMismatch(count, s)
  }

  /** The 2D branch's wildcard substitution: `m` is resolved first, and the
      check on `n0` then sees the already resolved `m`. `None` is a division
      by zero. */
  function Substitute2D(count: nat, m0: int, n0: int): Option<(int, int)>
  {
    if m0 == Wildcard && n0 == 0 then None
    else
      var m := if m0 == Wildcard then TruncDiv(count, n0) else m0;
      if n0 == Wildcard && m == 0 then None
      else
        var n := if n0 == Wildcard then TruncDiv(count, m) else n0;
        Some((m, n))
  }

  /** The 2D branch: the resolved `m * n` must equal the element count, and
      the command carries the resolved pair. */
  function Outcome2D(count: nat, m0: int, n0: int): Outcome
  {
    match Substitute2D(count, m0, n0)
    case None => ZeroDivision
    case Some((m, n)) =>
      if m * n != count then SizeMismatch(count, m * n) else Issued("reshape2D", [m, n])
  }

  /** The 3D/4D substitution loop over the entries still to visit, with
      `size` the running `newsize`: every wildcard becomes
      `int(-count / size)` and is multiplied into `size`; any other entry is
      copied. `None` is a division by zero. */
  function Substitute(count: nat, dims: seq<int>, size: int): Option<seq<int>>
    decreases |dims|
  {
    if dims == [] then Some([])
    else if dims[0] == Wildcard then
      if size == 0 then None
      else
        var t := TruncDiv(-(count as int), size);
        Prepend([t], Substitute(count, dims[1..], size * t))
    else
      Prepend([dims[0]], Substitute(count, dims[1..], size))
  }

  function Prepend(prefix: seq<int>, rest: Option<seq<int>>): Option<seq<int>>
  {
    match rest
    case None => None
    case Some(r) => Some(prefix + r)
  }

  lemma PrependNothing(rest: Option<seq<int>>)
    ensures Prepend([], rest) == rest
  {
    if rest.Some? {
      assert [] + rest.value == rest.value;
    }
  }

  lemma PrependTwice(a: seq<int>, b: seq<int>, rest: Option<seq<int>>)
    ensures Prepend(a, Prepend(b, rest)) == Prepend(a + b, rest)
  {
    if rest.Some? {
      assert a + (b + rest.value) == (a + b) + rest.value;
    }
  }

  /** `final_shape` of the 3D/4D branches: the substitution loop started with
      `newsize` equal to the product of all requested entries. */
  function FinalShape(count: nat, dims: seq<int>): Option<seq<int>>
  {
    Substitute(count, dims, Product(dims))
  }

  /** The command of the 3D and the 4D branch. */
  function CommandND(dims: seq<int>): string
  {
    if |dims| == 3 then "reshape3D" else "reshape4D"
  }

  /** The 3D/4D branches: the product of `final_shape` must equal the
      element count, and the command carries the ORIGINAL request. */
  function OutcomeND(count: nat, dims: seq<int>): Outcome
  {
    match FinalShape(count, dims)
    case None => ZeroDivision
    case Some(f) =>
      if Product(f) != count then SizeMismatch(count, Product(f)) else Issued(CommandND(dims), dims)
  }

  /** `reshape(obj, newshape)` for an array of `count` elements. */
  function ReshapeOutcome(count: nat, shape: Shape): Outcome
  {
    match shape
    case Scalar(s) => ScalarOutcome(count, s)
    case Tuple(dims) =>
      if |dims| > MaxDims then TooManyDims(|dims|)
      else if |dims| == 2 then Outcome2D(count, dims[0], dims[1])
      else if |dims| == 3 || |dims| == 4 then OutcomeND(count, dims)
      else NoResult
  }

  /** The two loops of the 3D/4D branches: accumulate `newsize`, then build
      `final_shape`, substituting each wildcard as it is reached. */
  method ResolveFinalShape(count: nat, dims: seq<int>) returns (r: Option<seq<int>>)
    ensures r == FinalShape(count, dims)
  {
    var newsize := 1;
    for i := 0 to |dims|
      invariant newsize == Product(dims[..i])
    {
      assert dims[..i + 1][..i] == dims[..i];
      newsize := newsize * dims[i];
    }
    assert dims[..|dims|] == dims;
    var finalShape := [];
    PrependNothing(Substitute(count, dims, newsize));
    for i := 0 to |dims|
      invariant Prepend(finalShape, Substitute(count, dims[i..], newsize)) == FinalShape(count, dims)
    {
      assert dims[i..][1..] == dims[i + 1..];
      if dims[i] == Wildcard {
        if newsize == 0 {
          return None;
        }
        var t := TruncDiv(-(count as int), newsize);
        PrependTwice(finalShape, [t], Substitute(count, dims[i + 1..], newsize * t));
        finalShape := finalShape + [t];
        newsize := newsize * t;
      } else {
        PrependTwice(finalShape, [dims[i]], Substitute(count, dims[i + 1..], newsize));
        finalShape := finalShape + [dims[i]];
      }
    }
    assert dims[|dims|..] == [];
    assert finalShape + [] == finalShape;
    r := Some(finalShape);
  }

  /** `reshape`: dispatch on the kind and length of the request. The 2D
      branch reassigns `m` and `n` in turn, as the source does. */
  method Reshape(count: nat, shape: Shape) returns (o: Outcome)
    ensures o == ReshapeOutcome(count, shape)
  {
    match shape
    case Scalar(s) =>
      if s == Wildcard || s == count {
        o := Issued("reshape1D", []);
      } else {
        o := SizeMismatch(count, s);
      }
    case Tuple(dims) =>
      if |dims| > MaxDims {
        return TooManyDims(|dims|);
      }
      if |dims| == 2 {
        var m, n := dims[0], dims[1];
        if m == Wildcard {
          if n == 0 {
            return ZeroDivision;
          }
          m := TruncDiv(count, n);
        }
        if n == Wildcard {
          if m == 0 {
            return ZeroDivision;
          }
          n := TruncDiv(count, m);
        }
        if m * n != count {
          return SizeMismatch(count, m * n);
        }
        o := Issued("reshape2D", [m, n]);
      } else if |dims| == 3 || |dims| == 4 {
        var finalShape := ResolveFinalShape(count, dims);
        if finalShape.None? {
          return ZeroDivision;
        }
        var size := Product(finalShape.value);
        if size != count {
          return SizeMismatch(count, size);
        }
        o := Issued(CommandND(dims), dims);
      } else {
        o := NoResult;
      }
  }
}
