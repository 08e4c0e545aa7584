# reshape / flatten request builder

A Dafny model of the client-side `reshape` and `flatten` operations of the
Arkouda block-array extension (`arkouda_BlockArrays3D4D/reshape.py`).
`reshape` takes an array with `count` elements and a requested shape. The
request is a single number or a tuple of dimensions. Any of its entries may
be the wildcard `-1`, meaning "infer this dimension". The operation ends in
one of five ways:

- it refuses a tuple with more than four entries (`TooManyDims`);
- it refuses a shape whose size does not fit (`SizeMismatch`, carrying the
  element count and, for a tuple, the size it computed, or for a scalar,
  the requested number itself);
- it divides by zero while resolving a `-1` (`ZeroDivision`);
- it issues one of the remote commands `reshape1D`, `reshape2D`,
  `reshape3D`, `reshape4D` with its shape arguments (`Issued`);
- for a tuple of length 0 or 1 it matches no branch and returns nothing
  (`NoResult`).

`flatten` always issues `reshape1D`.

Files:

- `shape_arith.dfy` (module `ShapeArith`): Python's truncating `int(a / b)`
  as `TruncDiv`, and the product of a list of dimensions.
- `reshape.dfy` (module `Reshape`): the request and outcome datatypes. It
  holds the specification functions (`ReshapeOutcome`, `Outcome2D`,
  `Substitute2D`, `FinalShape`, `Substitute`, `ScalarOutcome`, `Flatten`).
  It also holds the methods that follow the source step by step:
  - `ResolveFinalShape` has the two loops of the 3D/4D branches;
  - `Reshape` has the dispatch, with the 2D branch reassigning `m` and `n`
    in turn.

  Each method is proved equal to its specification function.
- `reshape_properties.dfy` (module `ReshapeProperties`): what the operations
  promise, proved about the specification functions.

Behaviour that the model keeps as the code has it:

- Wildcards are resolved with truncating division. A quotient that is not
  whole is therefore caught by the later size check.
- In 2D the check on `n == -1` sees the already resolved `m`. So `(-1, -1)`
  on a non-empty array is accepted as `(-count, -1)`.
- In 3D/4D the running product `newsize` is multiplied by each substitute.
  A second `-1` is resolved against that new product.
- Zero and negative dimensions are not refused. Neither are several `-1`s.
  The only checks are the length bound and the size check.
- In 3D/4D the command carries the request as given, `-1` included, and not
  the resolved shape. In 2D it carries the resolved `m n`.
- A scalar request issues `reshape1D` with no shape arguments.

## Where the code does less than its documentation suggests

The docstring of `reshape` says that a `-1` entry is inferred so that the
new shape holds all the elements, and that a shape which cannot hold them
raises `ValueError`. It says nothing about which other values are allowed.
The code does no more than those two checks, and the model follows the
code:

- A zero or negative dimension is not refused, and neither are two `-1`s
  (`NonPositiveExamplesND`, `TwoWildcardsExampleND`, `DoubleWildcard2D`).
- A tuple of length 0 is not refused, and one of length 1 is not treated
  like a scalar: both return nothing (`ShortTupleNoResult`).
- For 3D/4D the command carries the original request, not the resolved
  shape (`IssuedND`).
- Resolving a `-1` can divide by zero. In 2D this happens for `(-1, 0)`,
  `(0, -1)` and `(-1, -1)` on an empty array (`ZeroDivision2D`). In 3D/4D
  with one `-1` it happens exactly when another entry is `0`
  (`OneWildcardZeroDivision`). With two `-1`s it also happens when the first
  substitute truncates to 0, which makes the running product 0: `(-1, -1, 2)`
  on 1 element (`TwoWildcardsZeroDivisionExampleND`). A `-1` beside a `0`
  always divides by zero (`FinalShapeZeroDivision`). Python raises
  `ZeroDivisionError` there, not the documented `ValueError`.

## Model

| member | source | states |
|---|---|---|
| `ShapeArith.TruncDiv` | arkouda_BlockArrays3D4D/reshape.py:92-94 | `int(a / b)` rounds toward zero: `q * b` lies between 0 and `a`, and the remainder `a - q * b` is smaller than `|b|` in magnitude |
| `ShapeArith.TruncDivNonNegative` | arkouda_BlockArrays3D4D/reshape.py:110 | for `a >= 0` and `b > 0`, `int(a / b)` and `int(-a / -b)` are both the floor quotient `a / b`; this is how a single `-1` with positive co-factor resolves |
| `ShapeArith.TruncDivNegatedExact` | arkouda_BlockArrays3D4D/reshape.py:110-112 | for any non-zero `p` of either sign, `int(-c / -p) * p` gives back `c` if and only if `p` divides `c`; this decides whether a single resolved `-1` makes the sizes agree |
| `Reshape.ResolveFinalShape` | arkouda_BlockArrays3D4D/reshape.py:104-114 | the two loops (accumulate `newsize`, then build `final_shape` and stop on a division by zero) compute exactly `FinalShape(count, dims)` |
| `Reshape.Reshape` | arkouda_BlockArrays3D4D/reshape.py:38-146 | the whole of `reshape`: the dispatch, the 2D branch that reassigns `m` then `n`, the 3D/4D branches and the scalar branch give exactly `ReshapeOutcome(count, shape)` |
| `ReshapeProperties.TooManyDimsRejected` | arkouda_BlockArrays3D4D/reshape.py:84-85 | a tuple with more than 4 entries is refused with its length, whatever the element count, before any command |
| `ReshapeProperties.ShortTupleNoResult` | arkouda_BlockArrays3D4D/reshape.py:83-139 | a tuple of length 0 or 1 issues no command and raises no error |
| `ReshapeProperties.ScalarAccepted` | arkouda_BlockArrays3D4D/reshape.py:142-146 | a scalar is accepted iff it is -1 or the element count; it then issues `reshape1D` with no shape arguments, and otherwise gives a size mismatch carrying the scalar |
| `ReshapeProperties.FlattenIsScalarReshape` | arkouda_BlockArrays3D4D/reshape.py:148-166 | `flatten` issues the same command as reshaping to -1 or to the element count, for every element count |
| `ReshapeProperties.Issued2DMultipliesOut` | arkouda_BlockArrays3D4D/reshape.py:91-98 | for any request, an issued `reshape2D` carries two numbers whose product is the element count, and each entry that was not -1 is passed on unchanged |
| `ReshapeProperties.NoWildcard2D` | arkouda_BlockArrays3D4D/reshape.py:95-97 | without a -1, `(m, n)` is issued as it is iff `m * n` is the element count, and otherwise refused with that product |
| `ReshapeProperties.ZeroDivision2D` | arkouda_BlockArrays3D4D/reshape.py:91-94 | the 2D branch divides by zero exactly for `(-1, 0)`, `(0, -1)`, and `(-1, -1)` on an empty array |
| `ReshapeProperties.WildcardFirst2D` | arkouda_BlockArrays3D4D/reshape.py:91-92 | `(-1, d)` with `d > 0` dividing the element count is issued as `(count / d, d)` |
| `ReshapeProperties.WildcardSecond2D` | arkouda_BlockArrays3D4D/reshape.py:93-94 | `(d, -1)` with `d > 0` dividing the element count is issued as `(d, count / d)` |
| `ReshapeProperties.WildcardIndivisible2D` | arkouda_BlockArrays3D4D/reshape.py:91-96 | next to a positive `d` that does not divide the element count, the truncated quotient makes the size check fail, in either position |
| `ReshapeProperties.OneWildcardIssuedIff2D` | arkouda_BlockArrays3D4D/reshape.py:91-97 | a single -1 next to any non-zero `d` other than -1, whatever its sign, is issued if and only if `d` divides the element count, in either position |
| `ReshapeProperties.DoubleWildcard2D` | arkouda_BlockArrays3D4D/reshape.py:91-97 | `(-1, -1)` on a non-empty array is accepted and issued as `(-count, -1)`, because the second check sees the resolved first entry |
| `ReshapeProperties.DocstringExamples2D` | arkouda_BlockArrays3D4D/reshape.py:71-79 | the docstring's two examples on 4 elements: `(2, 2)` is issued as `2 2` and `(-1, 1)` as `4 1` |
| `ReshapeProperties.WildcardAndMismatchExamples2D` | arkouda_BlockArrays3D4D/reshape.py:87-97 | further 2D cases: `(-1, 3)` and `(4, -1)` on 12 elements are both issued as `4 3`, and `(3, 4)` on 10 is refused with 12 |
| `ReshapeProperties.SubstituteKeepsEntries` | arkouda_BlockArrays3D4D/reshape.py:108-114 | the substitution loop yields a list of the request's length that keeps every entry other than -1 |
| `ReshapeProperties.SubstituteNoWildcard` | arkouda_BlockArrays3D4D/reshape.py:108-114 | without a -1 the substitution loop returns the request unchanged, whatever the running product |
| `ReshapeProperties.SubstituteOneWildcard` | arkouda_BlockArrays3D4D/reshape.py:108-114 | with exactly one -1, reached with a non-zero running product `size`, that entry becomes `int(-count / size)` and nothing else changes |
| `ReshapeProperties.SubstituteZeroDivision` | arkouda_BlockArrays3D4D/reshape.py:109-110 | a division by zero needs a -1, and a -1 reached with running product 0 always divides by zero |
| `ReshapeProperties.FinalShapeShape` | arkouda_BlockArrays3D4D/reshape.py:104-114 | `final_shape` has the request's length and keeps its entries other than -1; with no -1 it is the request itself |
| `ReshapeProperties.FinalShapeZeroDivision` | arkouda_BlockArrays3D4D/reshape.py:104-110 | resolving `final_shape` fails by division by zero only if a -1 is present, and always when a -1 sits beside a 0 |
| `ReshapeProperties.OneWildcardZeroDivision` | arkouda_BlockArrays3D4D/reshape.py:104-110 | with exactly one -1, resolving `final_shape` divides by zero if and only if another entry is 0 |
| `ReshapeProperties.FinalShapeOneWildcard` | arkouda_BlockArrays3D4D/reshape.py:104-115 | one -1 whose co-factors multiply to a positive divisor `p` of the element count is replaced by `count / p`, and the resolved shape multiplies out to the element count |
| `ReshapeProperties.IssuedND` | arkouda_BlockArrays3D4D/reshape.py:115-118 | a 3D/4D request issues `reshape3D`/`reshape4D` iff `final_shape` resolves and its product is the element count, and the command carries the original request, -1s included (lines 136-139 for 4D) |
| `ReshapeProperties.NoWildcardND` | arkouda_BlockArrays3D4D/reshape.py:104-117 | a 3D/4D request without -1 is issued as it is iff its product is the element count, and otherwise refused with that product |
| `ReshapeProperties.OneWildcardND` | arkouda_BlockArrays3D4D/reshape.py:125-138 | a 3D/4D request with one -1 whose co-factors multiply to a positive divisor of the element count is issued, still carrying the -1 |
| `ReshapeProperties.OneWildcardIssuedIffND` | arkouda_BlockArrays3D4D/reshape.py:104-116 | with exactly one -1, a 3D/4D request is issued if and only if the product `p` of the other entries is non-zero and divides the element count, whatever the sign of `p` (lines 125-137 for 4D) |
| `ReshapeProperties.OneWildcardIndivisibleND` | arkouda_BlockArrays3D4D/reshape.py:108-116 | with one -1 and the other entries multiplying to a positive `p` that does not divide the element count, the -1 becomes the truncated quotient and the size check refuses `(count / p) * p` |
| `ReshapeProperties.OneWildcardSignExamples3D` | arkouda_BlockArrays3D4D/reshape.py:104-117 | `(-1, 2, 3)` on 25 elements is refused with 24; on 6 elements `(-1, -2, 3)` resolves to `final_shape` `[-1, -2, 3]`, because the substitute is `int(-6 / 6) = -1`, and it is issued as `reshape3D -1 -2 3` |
| `ReshapeProperties.WildcardFirstExample3D` | arkouda_BlockArrays3D4D/reshape.py:99-118 | `(-1, 2, 3)` on 24 elements resolves to `4 2 3` and issues `reshape3D -1 2 3` |
| `ReshapeProperties.WildcardMiddleExample3D` | arkouda_BlockArrays3D4D/reshape.py:104-114 | `(2, -1, 3)` on 24 elements resolves to `2 4 3` |
| `ReshapeProperties.WildcardLastExample4D` | arkouda_BlockArrays3D4D/reshape.py:119-139 | `(2, 3, 2, -1)` on 24 elements issues `reshape4D 2 3 2 -1` |
| `ReshapeProperties.NonPositiveExamplesND` | arkouda_BlockArrays3D4D/reshape.py:115-117 | zero and negative entries are issued when the product fits: `(0, 5, 2)` on 0 elements, `(-2, -3, 1)` on 6 |
| `ReshapeProperties.TwoWildcardsExampleND` | arkouda_BlockArrays3D4D/reshape.py:108-116 | `(-1, -1, 2)` on 4 elements resolves to `-2 1 2` and is refused with product -4; `(-1, 0, 2)` divides by zero |
| `ReshapeProperties.TwoWildcardsZeroDivisionExampleND` | arkouda_BlockArrays3D4D/reshape.py:108-112 | `(-1, -1, 2)` on 1 element divides by zero although no entry is 0: the first substitute `int(-1 / 2)` is 0, so the running product becomes 0 before the second -1 |
| `ReshapeProperties.AcceptedIffResolvedMultipliesOut` | arkouda_BlockArrays3D4D/reshape.py:83-139 | a tuple request issues a command iff it has 2 to 4 entries and resolves, without dividing by zero, to a shape of the same length whose product is the element count |

## Left out

- The remote call `generic_msg` and the handle constructors `create_pdarray2D`, `create_pdarray3D`, `create_pdarray4D`: an issued request is represented by its command name and shape arguments only.
- The argument string: the array's name and the decimal rendering of the numbers are not modelled.
- Float arithmetic: `int(a / b)` divides in floating point, which loses precision above 2^53; the model divides exact integers.
- Integer width: `np.prod` works in 64-bit integers and can overflow; the model multiplies exact integers.
- Requests that are neither an integer nor a tuple of integers (a list, a float, a numpy scalar): the model's request is an integer or a sequence of integers.
- The element count comes from `obj.size`; the model takes it as a parameter.
- The module logger and the unused imports (among them `typechecked`, which is imported but never applied) do nothing in these operations.
- `arkouda_integration/client/scripts/pods.py` is command-line glue around a Kubernetes client and is not part of this model.
