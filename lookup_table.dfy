/** The brightness-calibration lookup table built from an inverse-Rodbard
    fit: the caller's given input levels, their measured brightness and a
    list of nominal brightness levels go in; a two-row table comes out whose
    first row is the nominal levels and whose second row is, for each, the
    input level predicted to produce it.

    The curve fitter (`new InverseRodbard(measured, given).fit()`) and the
    inverse evaluator (`InverseRodbard_Values.computeAll(params, xs)`) are
    floating-point code outside this model. They are parameters of the
    table computation: a total function that answers `None` where the Java
    call throws, or where `computeAll` returns `null` so that the rounding
    loop's `length` read throws, and `Some` of its result otherwise. */
module LookupTable {
  import opened Wrappers
  import opened JavaNumerics

  /** The fitted parameter vector `fit.params` (a `double[]`). */
  type Params = seq<real>

  /** The fitter, applied to the measured outputs and the widened given inputs. */
  type Fitter = (seq<real>, seq<real>) -> Option<Params>

  /** The inverse evaluator, applied to the parameters and the widened
      nominal outputs; `None` stands for both a throwing `computeAll` and a
      `null` result, which fails at the rounding loop's first test. */
  type Evaluator = (Params, seq<real>) -> Option<seq<real>>

  /** Why a table computation ends without a table. */
  datatype Error =
    | FitFailed                  // the fitter threw
    | EvaluationFailed           // the inverse evaluator threw or returned null
    | IndexOutOfBounds(index: nat) // the rounding loop wrote past the end of computedInputs

  /** What a table computation leaves behind: the new contents of the
      `computedInputs` field and the returned table or the error thrown. */
  datatype Outcome = Outcome(computed: seq<int32>, table: Result<seq<seq<int32>>, Error>)

  /** `prior` after the rounding loop has written the rounded values of `c`
      into it from index 0, stopping at whichever of the two ends first. */
  function Overwrite(prior: seq<int32>, c: seq<real>): (r: seq<int32>)
    ensures |r| == |prior|
    ensures forall i :: 0 <= i < |prior| && i < |c| ==> r[i] == Narrow(c[i])
    ensures forall i :: |c| <= i < |prior| ==> r[i] == prior[i]
  {
    var n := if |c| <= |prior| then |c| else |prior|;
    Narrowed(c[..n]) + prior[n..]
  }

  /** Reference definition of one table computation on values: `given`,
      `measured` and `nominal` are the object's input arrays, `prior` the
      contents of `computedInputs` before the call. */
  function ComputeTableSpec(given: seq<int32>, measured: seq<real>, nominal: seq<int32>,
                            prior: seq<int32>, fit: Fitter, computeAll: Evaluator): Outcome
    requires |prior| == |nominal|
  {
    match fit(measured, Widened(given))
    case None => Outcome(prior, Failure(FitFailed))
    case Some(p) =>
      match computeAll(p, Widened(nominal))
      case None => Outcome(prior, Failure(EvaluationFailed))
      case Some(c) =>
        var after := Overwrite(prior, c);
        if |c| <= |nominal| then Outcome(after, Success([nominal, after]))
        else Outcome(after, Failure(IndexOutOfBounds(|nominal|)))
  }

  /** A table, when one is returned, has two rows of the nominal outputs'
      length; row 0 is the nominal outputs as given and row 1 is the new
      contents of `computedInputs`, which keeps its length in every case. */
  lemma TableShape(given: seq<int32>, measured: seq<real>, nominal: seq<int32>,
                   prior: seq<int32>, fit: Fitter, computeAll: Evaluator)
    requires |prior| == |nominal|
    ensures var o := ComputeTableSpec(given, measured, nominal, prior, fit, computeAll);
      |o.computed| == |nominal| &&
      (o.table.Success? ==>
         |o.table.value| == 2 &&
         |o.table.value[0]| == |nominal| && |o.table.value[1]| == |nominal| &&
         o.table.value[0] == nominal && o.table.value[1] == o.computed)
  {
  }

  /** When the fitter and the evaluator both return, entry i of the new
      `computedInputs` is the rounded i-th evaluated value wherever the
      evaluator produced one, and keeps its prior value beyond the end of
      the evaluator's result; the fitter saw the measured outputs first and
      the widened given inputs second, and the evaluator saw the widened
      nominal outputs. */
  lemma RoundedEntries(given: seq<int32>, measured: seq<real>, nominal: seq<int32>,
                       prior: seq<int32>, fit: Fitter, computeAll: Evaluator,
                       p: Params, c: seq<real>)
    requires |prior| == |nominal|
    requires fit(measured, Widened(given)) == Some(p)
    requires computeAll(p, Widened(nominal)) == Some(c)
    ensures var o := ComputeTableSpec(given, measured, nominal, prior, fit, computeAll);
      (forall i :: 0 <= i < |nominal| && i < |c| ==> o.computed[i] == Narrow(c[i])) &&
      (forall i :: |c| <= i < |nominal| ==> o.computed[i] == prior[i])
  {
  }

  /** A table is returned exactly when the fitter and the evaluator both
      return and the evaluator's result is no longer than the nominal
      outputs. A throwing fitter or evaluator leaves `computedInputs` as it
      was; a result that is too long fails at index M, the nominal outputs'
      length, after all M entries have been overwritten. */
  lemma FailureCases(given: seq<int32>, measured: seq<real>, nominal: seq<int32>,
                     prior: seq<int32>, fit: Fitter, computeAll: Evaluator)
    requires |prior| == |nominal|
    ensures var o := ComputeTableSpec(given, measured, nominal, prior, fit, computeAll);
      var fitted := fit(measured, Widened(given));
      (fitted.None? ==> o == Outcome(prior, Failure(FitFailed))) &&
      (fitted.Some? ==>
        var evaluated := computeAll(fitted.value, Widened(nominal));
        (evaluated.None? ==> o == Outcome(prior, Failure(EvaluationFailed))) &&
        (evaluated.Some? ==>
          (o.table.Success? <==> |evaluated.value| <= |nominal|) &&
          (|evaluated.value| > |nominal| ==>
             o.table == Failure(IndexOutOfBounds(|nominal|)) &&
             o.computed == Narrowed(evaluated.value[..|nominal|]))))
  {
  }

  /** With an evaluator that inverts each nominal output on its own through
      `inverse` and returns one value per input, the table pairs each
      nominal output with the rounded inverse of that same output, column
      by column, in the order given. */
  lemma ColumnsCorrespond(given: seq<int32>, measured: seq<real>, nominal: seq<int32>,
                          prior: seq<int32>, fit: Fitter, computeAll: Evaluator,
                          p: Params, inverse: (Params, real) -> real)
    requires |prior| == |nominal|
    requires fit(measured, Widened(given)) == Some(p)
    requires computeAll(p, Widened(nominal)).Some?
    requires |computeAll(p, Widened(nominal)).value| == |nominal|
    requires forall i :: 0 <= i < |nominal| ==>
               computeAll(p, Widened(nominal)).value[i] == inverse(p, Widened(nominal)[i])
    ensures var o := ComputeTableSpec(given, measured, nominal, prior, fit, computeAll);
      o.table.Success? &&
      forall i :: 0 <= i < |nominal| ==>
        o.table.value[0][i] == nominal[i] &&
        o.table.value[1][i] == Narrow(inverse(p, nominal[i] as real))
  {
  }

  /** With an evaluator that hands back the widened nominal outputs
      unchanged, row 1 of the returned table equals row 0: rounding undoes
      the widening, index by index. */
  lemma IdentityEvaluatorTable(given: seq<int32>, measured: seq<real>, nominal: seq<int32>,
                               prior: seq<int32>, fit: Fitter, computeAll: Evaluator, p: Params)
    requires |prior| == |nominal|
    requires fit(measured, Widened(given)) == Some(p)
    requires computeAll(p, Widened(nominal)) == Some(Widened(nominal))
    ensures var o := ComputeTableSpec(given, measured, nominal, prior, fit, computeAll);
      o.table.Success? && o.table.value[1] == o.table.value[0] == nominal &&
      o.computed == nominal
  {
    NarrowedWidened(nominal);
  }

  /** The Java object: the three input arrays as the caller passed them (not
      copied) and the `computedInputs` array that `computeTable` fills. */
  class LookUpTableInverseRodbard {
    var givenInputs: array<int32>
    var measuredOutputs: array<real>
    var nominalOutputs: array<int32>
    var computedInputs: array<int32>

    /** `computedInputs` has one slot per nominal output and is an array of
        its own, not one of the caller's. */
    ghost predicate Valid()
      reads this
    {
      computedInputs.Length == nominalOutputs.Length &&
      computedInputs != givenInputs && computedInputs != nominalOutputs
    }

    constructor (givenInputs: array<int32>, measuredOutputs: array<real>, nominalOutputs: array<int32>)
      ensures Valid()
      ensures this.givenInputs == givenInputs
      ensures this.measuredOutputs == measuredOutputs
      ensures this.nominalOutputs == nominalOutputs
      ensures fresh(computedInputs)
      ensures computedInputs.Length == nominalOutputs.Length
      ensures forall i :: 0 <= i < computedInputs.Length ==> computedInputs[i] == 0
    {
      this.givenInputs := givenInputs;
      this.measuredOutputs := measuredOutputs;
      this.nominalOutputs := nominalOutputs;
      this.computedInputs := new int32[nominalOutputs.Length](_ => 0);
    }

    /** The table computation on the object's current arrays. */
    ghost function Expected(fit: Fitter, computeAll: Evaluator): Outcome
      reads this, givenInputs, measuredOutputs, nominalOutputs, computedInputs
      requires Valid()
    {
      ComputeTableSpec(givenInputs[..], measuredOutputs[..], nominalOutputs[..],
                       computedInputs[..], fit, computeAll)
    }

    /** `computeTable()`: widen, fit, evaluate, round into `computedInputs`
        and copy both rows into a new 2 x M table. Only `computedInputs`
        changes; the outcome is the one `ComputeTableSpec` defines. */
    method ComputeTable(fit: Fitter, computeAll: Evaluator)
      returns (r: Result<array<array<int32>>, Error>)
      requires Valid()
      modifies computedInputs
      ensures Valid()
      ensures unchanged(givenInputs) && unchanged(measuredOutputs) && unchanged(nominalOutputs)
      ensures computedInputs[..] == old(Expected(fit, computeAll)).computed
      ensures r.Failure? ==> old(Expected(fit, computeAll)).table == Failure(r.error)
      ensures r.Success? ==>
        var t := r.value;
        fresh(t) && t.Length == 2 && fresh(t[0]) && fresh(t[1]) && t[0] != t[1] &&
        t[0].Length == nominalOutputs.Length && t[1].Length == nominalOutputs.Length &&
        t[0][..] == nominalOutputs[..] && t[1][..] == computedInputs[..] &&
        old(Expected(fit, computeAll)).table == Success([t[0][..], t[1][..]])
    {
      var m := nominalOutputs.Length;

      var givenInputsDouble := WidenToDouble(givenInputs);
      var nominalOutputsDouble := WidenToDouble(nominalOutputs);

      var fitted := fit(measuredOutputs[..], givenInputsDouble[..]);
      if fitted.None? {
        return Failure(FitFailed);
      }
      var evaluated := computeAll(fitted.value, nominalOutputsDouble[..]);
      if evaluated.None? {
        return Failure(EvaluationFailed);
      }
      var computedInputsDouble := evaluated.value;

      var inBounds := StoreRounded(computedInputsDouble);
      if !inBounds {
        return Failure(IndexOutOfBounds(m));
      }

      var table := BuildTable(nominalOutputs, computedInputs);
      return Success(table);
    }

    /** The rounding loop of `computeTable`: entry i of `computedInputs`
        becomes `(int) Math.round(c[i])` for each index of `c`; an index of
        `c` past the end of `computedInputs` throws, after every entry has
        been written. */
    method StoreRounded(c: seq<real>) returns (inBounds: bool)
      requires Valid()
      modifies computedInputs
      ensures Valid()
      ensures inBounds <==> |c| <= computedInputs.Length
      ensures computedInputs[..] == Overwrite(old(computedInputs[..]), c)
    {
      ghost var prior := computedInputs[..];
      var m := computedInputs.Length;
      var i := 0;
      while i < |c|
        invariant 0 <= i <= |c| && i <= m
        invariant forall k :: 0 <= k < i ==> computedInputs[k] == Narrow(c[k])
        invariant forall k :: i <= k < m ==> computedInputs[k] == prior[k]
      {
        if i >= m {
          assert computedInputs[..] == Overwrite(prior, c);
          return false;
        }
        computedInputs[i] := Narrow(c[i]);
        i := i + 1;
      }
      assert computedInputs[..] == Overwrite(prior, c);
      return true;
    }
  }

  /** The final loop of `computeTable`: a new `int[2][M]` whose row 0 is a
      copy of `top` and row 1 a copy of `bottom`, index by index. */
  method BuildTable(top: array<int32>, bottom: array<int32>) returns (t: array<array<int32>>)
    requires top.Length == bottom.Length
    ensures fresh(t) && t.Length == 2 && fresh(t[0]) && fresh(t[1]) && t[0] != t[1]
    ensures t[0][..] == top[..] && t[1][..] == bottom[..]
  {
    var m := top.Length;
    var row0 := new int32[m](_ => 0);
    var row1 := new int32[m](_ => 0);
    t := new array<int32>[2][row0, row1];
    var i := 0;
    while i < m
      invariant 0 <= i <= m
      invariant t[0] == row0 && t[1] == row1
      invariant forall k :: 0 <= k < i ==> row0[k] == top[k] && row1[k] == bottom[k]
    {
      t[0][i] := top[i];
      t[1][i] := bottom[i];
      i := i + 1;
    }
  }
}
