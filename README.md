# Inverse-Rodbard brightness lookup table

This project models `LookUpTable_InverseRodbard`, the class of the
Structured-Light project that builds a brightness-calibration lookup table.
The object holds the caller's given input levels (`int[]`), their measured
brightness (`double[]`) and a list of nominal brightness levels (`int[]`),
and owns a `computedInputs` array of one `int` per nominal level.
`computeTable()` widens the two `int` arrays to `double`, fits an
inverse-Rodbard curve to (measured outputs, given inputs), evaluates the
inverse curve at every nominal output, rounds the results into
`computedInputs` with `(int) Math.round`, and returns a new `int[2][M]` whose
row 0 is the nominal outputs and row 1 is `computedInputs`.

Layout:

- `wrappers.dfy` (module `Wrappers`): `Option` and `Result`.
- `java_numerics.dfy` (module `JavaNumerics`): Java `int` as the newtype
  `int32`, `double` as `real`, `Math.round` (nearest integer, halves up,
  saturating at the bounds of `long`), the `(int)` cast of a `long` (low 32
  bits, two's complement), widening and rounding of whole sequences, and the
  index loop that widens an `int[]` into a new `double[]`.
- `lookup_table.dfy` (module `LookupTable`): the class
  `LookUpTableInverseRodbard` with its four array fields, its constructor and
  `ComputeTable`; the pure reference definition `ComputeTableSpec` of one
  table computation and the lemmas about it.

The curve fitter (`new InverseRodbard(measured, givenDouble).fit()`) and the
inverse evaluator (`InverseRodbard_Values.computeAll(params, nominalDouble)`)
are floating-point code outside this model. `ComputeTable` takes them as
function parameters (`Fitter`, `Evaluator`) that answer `None` where the
Java call would throw and `Some` of the result otherwise. For the evaluator,
`None` also stands for a `null` result from `computeAll`, which throws at the
rounding loop's first `length` read (line 43); that path ends the same way,
with `EvaluationFailed` and `computedInputs` untouched. The model keeps the
source's argument order: the fitter receives the measured outputs first and
the widened given inputs second; the evaluator receives the fitted
parameters and the widened nominal outputs.

When the evaluator returns fewer than M values, the trailing entries of
`computedInputs` keep what they held (zero after construction). When it
returns more, the rounding loop writes all M entries and then throws
`ArrayIndexOutOfBoundsException` at index M; the model returns
`Failure(IndexOutOfBounds(M))` with `computedInputs` in that state and no
table.

`ComputeTable` requires the object invariant `Valid()`: `computedInputs`
has the nominal outputs' length and is not one of the caller's `int`
arrays. The constructor establishes it (it allocates `computedInputs`
fresh), and no code in the class reassigns the fields afterwards.

## Model

| member | source | states |
|---|---|---|
| `LookupTable.LookUpTableInverseRodbard.constructor` | src/Commons/lookuptable/LookUpTable_InverseRodbard.java:14-19 | the three input arrays are stored as passed (same references); `computedInputs` is a fresh array of the nominal outputs' length, all zeros; the object invariant holds |
| `LookupTable.LookUpTableInverseRodbard.ComputeTable` | src/Commons/lookuptable/LookUpTable_InverseRodbard.java:21-62 | only `computedInputs` changes and its new contents, the returned table or the error are those of `ComputeTableSpec`; on success the table is a fresh 2-row array of two distinct fresh rows, each of length M, row 0 equal to `nominalOutputs` and row 1 equal to the new `computedInputs` |
| `LookupTable.LookUpTableInverseRodbard.StoreRounded` | src/Commons/lookuptable/LookUpTable_InverseRodbard.java:43-45 | entry i of `computedInputs` becomes `(int) Math.round(c[i])` for every i below both lengths, later entries keep their value, and the loop stays in bounds exactly when the evaluated sequence is no longer than `computedInputs` |
| `LookupTable.BuildTable` | src/Commons/lookuptable/LookUpTable_InverseRodbard.java:48-52 | the result is a fresh array of two distinct fresh rows; row 0 equals the first argument and row 1 the second, element for element |
| `LookupTable.Overwrite` | src/Commons/lookuptable/LookUpTable_InverseRodbard.java:43-45 | the contents after the rounding loop keep the array's length; each index covered by the evaluated values holds the rounded value, each index beyond them holds the prior value |
| `LookupTable.TableShape` | src/Commons/lookuptable/LookUpTable_InverseRodbard.java:48-51 | `computedInputs` keeps length M in every outcome; a returned table has exactly 2 rows of length M, row 0 is the nominal outputs verbatim and row 1 is the new `computedInputs` |
| `LookupTable.RoundedEntries` | src/Commons/lookuptable/LookUpTable_InverseRodbard.java:35-45 | with the fitter applied to (measured outputs, widened given inputs) and the evaluator to (its parameters, widened nominal outputs), entry i of `computedInputs` is the rounded i-th evaluated value below the result's length and the prior value at or beyond it |
| `LookupTable.FailureCases` | src/Commons/lookuptable/LookUpTable_InverseRodbard.java:35-45 | a throwing fitter or evaluator leaves `computedInputs` unchanged and returns no table; otherwise a table is returned if and only if the evaluated sequence is no longer than M, and a longer one fails at index M after all M entries were overwritten with rounded values |
| `LookupTable.ColumnsCorrespond` | src/Commons/lookuptable/LookUpTable_InverseRodbard.java:40-51 | with an evaluator that inverts each nominal output on its own and returns M values, a table is returned and column i pairs nominal output i with the rounded inverse of that same output |
| `LookupTable.IdentityEvaluatorTable` | src/Commons/lookuptable/LookUpTable_InverseRodbard.java:24-51 | with an evaluator that returns the widened nominal outputs unchanged, a table is returned, its row 1 equals row 0 equals the nominal outputs, and so does the new `computedInputs` |
| `JavaNumerics.MathRound` | src/Commons/lookuptable/LookUpTable_InverseRodbard.java:44 | `Math.round`: within the range of `long` the result is the integer r with r - 1/2 <= x < r + 1/2 (nearest, halves up); below or above that range it saturates at `Long.MIN_VALUE` or `Long.MAX_VALUE` |
| `JavaNumerics.IntCast` | src/Commons/lookuptable/LookUpTable_InverseRodbard.java:44 | the `(int)` cast of a `long` agrees with its argument modulo 2^32 and is the identity on values that fit in an `int` |
| `JavaNumerics.Narrow` | src/Commons/lookuptable/LookUpTable_InverseRodbard.java:44 | `(int) Math.round(x)` is the nearest integer to x, halves up, whenever that integer fits in an `int` |
| `JavaNumerics.Widened` | src/Commons/lookuptable/LookUpTable_InverseRodbard.java:24-33 | the widened sequence has the same length and holds each `int` as a real at the same index |
| `JavaNumerics.Narrowed` | src/Commons/lookuptable/LookUpTable_InverseRodbard.java:43-45 | the rounded sequence has the same length and holds `(int) Math.round` of each value at the same index |
| `JavaNumerics.NarrowedWidened` | src/Commons/lookuptable/LookUpTable_InverseRodbard.java:24-45 | widening an `int` sequence and rounding it back is the identity, order included |
| `JavaNumerics.WidenToDouble` | src/Commons/lookuptable/LookUpTable_InverseRodbard.java:24-33 | the copy loop returns an array of the same length whose contents are the widened input |

## Left out

- Curve fitting and inverse evaluation: `InverseRodbard.fit()` and `InverseRodbard_Values.computeAll` are not part of this model; they are function parameters, and nothing is proved about convergence, accuracy or the Rodbard formula.
- The foreign calls are assumed not to modify the arrays they are given and to depend only on their arguments.
- Floating point: `double` is modelled as `real`, so NaN, infinities and rounding of the floating-point evaluation are not represented. Widening a 32-bit `int` to `double` is exact, so it is exact here too.
- Null arrays: Dafny arrays are never null, so the `NullPointerException`s are not modelled. A null `nominalOutputs` fails in the constructor itself (line 18, `new int[nominalOutputs.length]`); a null `givenInputs` fails at the start of `computeTable` (line 24); a null `measuredOutputs` reaches the fitter, whose behaviour on it is outside this model (a throw there is `FitFailed`). A null result of `computeAll` is covered, as `EvaluationFailed`.
- Debug dumps: the four `TXT.saveVector` calls at the end of `computeTable` (lines 55-60) write files to a fixed directory; `TXT` is not part of this model, and the dumps are assumed to return normally. A dump that throws would end `computeTable` without a table after `computedInputs` had been updated; that path is not modelled, and `ComputeTable` returns `Success` there.
- The superclass `LookUpTable` (including `applyTable`) is not part of this model.
- `SineWaveImageMaker.java`: configuration lookup, pattern generation, table loading, table application and image saving are orchestration around foreign calls.
- `XML.java`: XML parsing and XPath lookup belong to the dom4j library.
