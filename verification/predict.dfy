/** Prediction (src/predict.py): the input is brought into a two-dimensional
    array whose width must be the number of features the model expects, and
    only then handed to the regressor loaded from disk.
 */
module Prediction {
  import opened Tables

  /** A two-dimensional array: `width` columns and one entry per row. */
  datatype Matrix = Matrix(width: nat, rows: seq<seq<Cell>>)

  predicate Rectangular(m: Matrix) {
    forall i :: 0 <= i < |m.rows| ==> |m.rows[i]| == m.width
  }

  /** What `predict` may be called with. */
  datatype Input =
    | Flat(xs: seq<Cell>)             // a list of scalars, or a 1-D array
    | Nested(rows: seq<seq<Cell>>)    // a list of lists
    | Grid(m: Matrix)                 // a 2-D array or a DataFrame

  /** The loaded regressor's `predict`: one value per row (None for NaN),
      or a failure. */
  type Regressor = Matrix -> Result<seq<Option<real>>, Error>

  /** `np.array(data)` followed by the 1-D reshape: a list of scalars becomes
      a single row; a list of lists becomes a matrix when its rows have one
      length and fails otherwise; the empty list is a one-dimensional array
      of length 0 and so becomes a single empty row. */
  function ToArray(input: Input): (r: Result<Matrix, Error>)
    ensures r.Failure? <==> input.Nested? && exists i :: 0 <= i < |input.rows| && |input.rows[i]| != |input.rows[0]|
    ensures r.Failure? ==> r.error == RaggedList
    ensures r.Success? && !input.Grid? ==> Rectangular(r.value) && |r.value.rows| >= 1
  {
    match input
    case Flat(xs) => Success(Matrix(|xs|, [xs]))
    case Nested(rows) =>
      if rows == [] then Success(Matrix(0, [[]]))
      else if forall i :: 0 <= i < |rows| ==> |rows[i]| == |rows[0]|
      then Success(Matrix(|rows[0]|, rows))
      else Failure(RaggedList)
    case Grid(m) => Success(m)
  }

  /** `validate_input(data, expected_features)`. */
  function ValidateInput(input: Input, expected: nat): (r: Result<Matrix, Error>)
    ensures r.Success? ==> r.value.width == expected
    ensures r.Failure? ==> r.error == RaggedList || (r.error.ShapeMismatch? && r.error.expected == expected && r.error.got != expected)
    ensures r.Failure? && r.error.ShapeMismatch? ==> ToArray(input).Success? && r.error.got == ToArray(input).value.width
  {
    var m :- ToArray(input);
    if m.width != expected then Failure(ShapeMismatch(expected, m.width)) else Success(m)
  }

  /** `predict(input_data, expected_features)`: the model file is loaded first
      (its failure wins), then the input is validated, and the regressor only
      sees a validated matrix. */
  function Predict(input: Input, expected: nat, model: Result<Regressor, Error>): (r: Result<seq<Option<real>>, Error>)
    ensures model.Failure? ==> r == Failure(model.error)
    ensures r.Success? ==> model.Success? && ValidateInput(input, expected).Success?
  {
    var f :- model;
    var m :- ValidateInput(input, expected);
    f(m)
  }

  // ---------------------------------------------------------------------------
  // Properties
  // ---------------------------------------------------------------------------

  /** A validated array has exactly the expected width, is rectangular when
      its input was, and holds the input's cells unchanged. */
  lemma ValidatedShape(input: Input, expected: nat)
    requires input.Grid? ==> Rectangular(input.m)
    requires ValidateInput(input, expected).Success?
    ensures var m := ValidateInput(input, expected).value;
      && m.width == expected && Rectangular(m)
      && (input.Flat? ==> m.rows == [input.xs])
      && (input.Nested? && input.rows != [] ==> m.rows == input.rows)
      && (input.Grid? ==> m == input.m)
  {
  }

  /** Validation of a matrix fails exactly on a width other than the
      expected one, and reports both numbers. */
  lemma GridValidation(m: Matrix, expected: nat)
    ensures ValidateInput(Grid(m), expected).Failure? <==> m.width != expected
    ensures m.width != expected ==>
      ValidateInput(Grid(m), expected) == Failure(ShapeMismatch(expected, m.width))
  {
  }

  /** A flat list is accepted exactly when it has the expected length, and
      then becomes one row. */
  lemma FlatValidation(xs: seq<Cell>, expected: nat)
    ensures ValidateInput(Flat(xs), expected).Success? <==> |xs| == expected
    ensures |xs| == expected ==> ValidateInput(Flat(xs), expected) == Success(Matrix(expected, [xs]))
  {
  }

  /** A non-empty list of lists is rejected exactly when it is ragged or its
      rows are not of the expected length. */
  lemma NestedValidation(rows: seq<seq<Cell>>, expected: nat)
    requires rows != []
    ensures ValidateInput(Nested(rows), expected).Success? <==>
      forall i :: 0 <= i < |rows| ==> |rows[i]| == expected
  {
    if forall i :: 0 <= i < |rows| ==> |rows[i]| == expected {
      assert |rows[0]| == expected;
    } else if forall i :: 0 <= i < |rows| ==> |rows[i]| == |rows[0]| {
      assert |rows[0]| != expected;
    }
  }

  /** Once the model is loaded, an input that fails validation is reported
      as that failure: the regressor is never consulted, so any two
      regressors give the same result. On a valid input the regressor sees
      exactly the validated matrix. */
  lemma ModelSeesOnlyValidated(input: Input, expected: nat, f: Regressor, g: Regressor)
    ensures ValidateInput(input, expected).Failure? ==>
      Predict(input, expected, Success(f)) == Failure(ValidateInput(input, expected).error) &&
      Predict(input, expected, Success(f)) == Predict(input, expected, Success(g))
    ensures ValidateInput(input, expected).Success? ==>
      Predict(input, expected, Success(f)) == f(ValidateInput(input, expected).value)
  {
  }
}
