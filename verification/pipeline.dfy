/** The inference pipeline (`inference_pipeline`, pipeline.py): reduce the
    columns, handle the nulls, load the encoders, encode, and predict with
    eight expected features. Every stage consumes the previous stage's table;
    the first failure ends the run and is what the caller sees.
 */
module Orchestration {
  import opened Tables
  import Features
  import NullHandling
  import Encoding
  import Prediction

  /** The feature count the pipeline demands of the predictor. */
  const ExpectedFeatures: nat := 8

  /** What the pipeline takes from outside: the encoders file and the model
      file (each loaded, or the load's error), and numpy's rendering of a
      number as text. */
  datatype Artifacts = Artifacts(
    encoders: Result<seq<Encoding.Encoder>, Error>,
    model: Result<Prediction.Regressor, Error>,
    numText: real -> string)

  /** The cells of the encoded DataFrame as the regressor reads them: one
      row per index entry, one entry per column, in column order. */
  function AsMatrix(t: Table): (m: Prediction.Matrix)
    requires WellFormed(t)
    ensures m.width == |t.names| && |m.rows| == |t.index| && Prediction.Rectangular(m)
    ensures forall r, k :: 0 <= r < |t.index| && 0 <= k < |t.names| ==> m.rows[r][k] == t.cols[t.names[k]][r]
  {
    Prediction.Matrix(|t.names|,
      seq(|t.index|, r requires 0 <= r < |t.index| =>
        seq(|t.names|, k requires 0 <= k < |t.names| => t.cols[t.names[k]][r])))
  }

  /** The table that reaches `predict`: the first four stages. */
  function Encoded(data: Table, a: Artifacts): (r: Result<Table, Error>)
    requires WellFormed(data)
    ensures a.encoders.Failure? ==> r == Failure(a.encoders.error)
    ensures r.Success? ==>
      && WellFormed(r.value)
      && r.value.index == data.index
      && r.value.names == Features.Reduce(data).names
  {
    var reduced := Features.Reduce(data);
    var filled := NullHandling.FillNulls(reduced);
    var encoders :- a.encoders;
    Encoding.Transform(filled, encoders, a.numText)
  }

  /** `inference_pipeline(data)`. */
  function InferencePipeline(data: Table, a: Artifacts): (r: Result<seq<Option<real>>, Error>)
    requires WellFormed(data)
    ensures r.Success? ==> a.encoders.Success? && a.model.Success? && Encoded(data, a).Success?
    ensures r.Success? ==> |Features.Reduce(data).names| == ExpectedFeatures
  {
    var encoded :- Encoded(data, a);
    Prediction.Predict(Prediction.Grid(AsMatrix(encoded)), ExpectedFeatures, a.model)
  }

  // ---------------------------------------------------------------------------
  // Properties
  // ---------------------------------------------------------------------------

  /** The stages fail in their order: a failed encoders load first, then an
      unseen category, then a failed model load, then a wrong width, and
      only then whatever the regressor reports. */
  lemma FailureOrder(data: Table, a: Artifacts)
    requires WellFormed(data)
    ensures a.encoders.Failure? ==> InferencePipeline(data, a) == Failure(a.encoders.error)
    ensures Encoded(data, a).Failure? ==> InferencePipeline(data, a) == Failure(Encoded(data, a).error)
    ensures Encoded(data, a).Success? && a.model.Failure? ==>
      InferencePipeline(data, a) == Failure(a.model.error)
    ensures Encoded(data, a).Success? && a.model.Success? ==>
      var t := Encoded(data, a).value;
      InferencePipeline(data, a) ==
        if |t.names| == ExpectedFeatures then a.model.value(AsMatrix(t))
        else Failure(ShapeMismatch(ExpectedFeatures, |t.names|))
  {
  }

  /** The regressor is only consulted on a matrix of eight columns with one
      row per input row; otherwise the pipeline fails without a result. */
  lemma ModelInput(data: Table, encs: seq<Encoding.Encoder>, f: Prediction.Regressor, numText: real -> string)
    requires WellFormed(data)
    ensures var a := Artifacts(Success(encs), Success(f), numText);
      && (InferencePipeline(data, a).Success? ==> Encoded(data, a).Success?)
      && (Encoded(data, a).Success? && |Features.Reduce(data).names| == ExpectedFeatures ==>
            var m := AsMatrix(Encoded(data, a).value);
            InferencePipeline(data, a) == f(m) &&
            m.width == ExpectedFeatures && |m.rows| == |data.index| && Prediction.Rectangular(m))
      && (Encoded(data, a).Success? && |Features.Reduce(data).names| != ExpectedFeatures ==>
            InferencePipeline(data, a) ==
              Failure(ShapeMismatch(ExpectedFeatures, |Features.Reduce(data).names|)))
  {
  }

  // ---------------------------------------------------------------------------
  // The sample of the command-line entry point
  // ---------------------------------------------------------------------------

  /** The columns of the command-line sample. */
  const SampleColumns: seq<string> := ["bg", "insulin", "carbs", "hr", "steps", "cals", "activity", "time"]

  /** A column name is in its own family. */
  lemma OwnFamily(t: Table, n: string)
    requires n in t.names
    ensures Features.HasFamily(t, n)
  {
    assert n[..|n|] == n;
    assert Features.StartsWith(n, n);
  }

  lemma {:induction false} FoundAll(t: Table, ps: seq<string>)
    requires forall i :: 0 <= i < |ps| ==> ps[i] in t.names
    ensures Features.Found(t, ps) == ps
  {
    if ps != [] {
      var init, last := ps[..|ps| - 1], ps[|ps| - 1];
      assert ps == init + [last];
      OwnFamily(t, last);
      FoundAll(t, init);
      calc {
        Features.Found(t, ps);
        { Features.FoundSnoc(t, init, last); }
        Features.Found(t, init) + [last];
        init + [last];
      }
    }
  }

  lemma ReduceNames(t: Table)
    requires WellFormed(t)
    ensures Features.Reduce(t).names ==
      Features.Found(t, Features.Prefixes) + Features.Present(t, Features.Targets)
  {
  }

  lemma SampleTargets()
    ensures "time" in SampleColumns && "bg+1:00" !in SampleColumns && "p_num" !in SampleColumns
  {
  }

  lemma PresentTime(t: Table)
    requires "time" in t.cols && "bg+1:00" !in t.cols && "p_num" !in t.cols
    ensures Features.Present(t, Features.Targets) == ["time"]
  {
    var a: seq<string> := [];
    Features.PresentSnoc(t, a, "bg+1:00");
    assert a + ["bg+1:00"] == ["bg+1:00"];
    Features.PresentSnoc(t, ["bg+1:00"], "p_num");
    assert ["bg+1:00"] + ["p_num"] == ["bg+1:00", "p_num"];
    Features.PresentSnoc(t, ["bg+1:00", "p_num"], "time");
    assert ["bg+1:00", "p_num"] + ["time"] == Features.Targets;
  }

  /** A table with exactly the sample's columns keeps exactly those columns,
      in that order, through reduction and null handling, so the predictor's
      width check passes. */
  lemma SampleKeepsEightColumns(data: Table)
    requires WellFormed(data) && data.names == SampleColumns
    ensures Features.Reduce(data).names == SampleColumns
    ensures |SampleColumns| == ExpectedFeatures
  {
    ReduceNames(data);
    SampleNames(data);
  }

  /** All seven families are found and `time` is the one target present. */
  lemma SampleNames(data: Table)
    requires WellFormed(data) && data.names == SampleColumns
    ensures Features.Found(data, Features.Prefixes) + Features.Present(data, Features.Targets) == SampleColumns
  {
    SampleFound(data);
    SamplePresent(data);
    assert Features.Prefixes + ["time"] == SampleColumns;
  }

  lemma SamplePresent(data: Table)
    requires WellFormed(data) && data.names == SampleColumns
    ensures Features.Present(data, Features.Targets) == ["time"]
  {
    SampleTargets();
    PresentTime(data);
  }

  lemma SampleFound(data: Table)
    requires data.names == SampleColumns
    ensures Features.Found(data, Features.Prefixes) == Features.Prefixes
  {
    assert Features.Prefixes == SampleColumns[..7];
    FoundAll(data, Features.Prefixes);
  }

  /** The sample runs all the way to the regressor once every category is
      known to the encoders, and the regressor gets one eight-wide row per
      sample row. */
  lemma SampleReachesModel(data: Table, encs: seq<Encoding.Encoder>, f: Prediction.Regressor, numText: real -> string)
    requires WellFormed(data) && data.names == SampleColumns
    requires Encoded(data, Artifacts(Success(encs), Success(f), numText)).Success?
    ensures var a := Artifacts(Success(encs), Success(f), numText);
      var m := AsMatrix(Encoded(data, a).value);
      InferencePipeline(data, a) == f(m) && m.width == 8 && |m.rows| == |data.index|
  {
    SampleKeepsEightColumns(data);
    ModelInput(data, encs, f, numText);
  }

  /** The sample with the patient column still in it: `p_num` is a target,
      so it survives reduction as a ninth column and the width check fails.
      This is why the dashboard drops `p_num` before calling the pipeline. */
  lemma SampleWithPatientFails(data: Table, encs: seq<Encoding.Encoder>, f: Prediction.Regressor, numText: real -> string)
    requires WellFormed(data) && data.names == SampleColumns + ["p_num"]
    requires Encoded(data, Artifacts(Success(encs), Success(f), numText)).Success?
    ensures InferencePipeline(data, Artifacts(Success(encs), Success(f), numText)) ==
      Failure(ShapeMismatch(8, 9))
  {
    ReduceNames(data);
    PatientSampleNames(data);
    ModelInput(data, encs, f, numText);
  }

  lemma PatientSampleNames(data: Table)
    requires WellFormed(data) && data.names == SampleColumns + ["p_num"]
    ensures |Features.Found(data, Features.Prefixes) + Features.Present(data, Features.Targets)| == 9
  {
    PatientSampleFound(data);
    PatientSamplePresent(data);
  }

  lemma PatientSampleFound(data: Table)
    requires data.names == SampleColumns + ["p_num"]
    ensures Features.Found(data, Features.Prefixes) == Features.Prefixes
  {
    assert Features.Prefixes == data.names[..7];
    FoundAll(data, Features.Prefixes);
  }

  lemma PatientSamplePresent(data: Table)
    requires WellFormed(data) && data.names == SampleColumns + ["p_num"]
    ensures Features.Present(data, Features.Targets) == ["p_num", "time"]
  {
    PatientTargets();
    PresentPatientTime(data);
  }

  lemma PatientTargets()
    ensures var ns := SampleColumns + ["p_num"];
      "time" in ns && "p_num" in ns && "bg+1:00" !in ns
  {
  }

  lemma PresentPatientTime(t: Table)
    requires "time" in t.cols && "bg+1:00" !in t.cols && "p_num" in t.cols
    ensures Features.Present(t, Features.Targets) == ["p_num", "time"]
  {
    var a: seq<string> := [];
    Features.PresentSnoc(t, a, "bg+1:00");
    assert a + ["bg+1:00"] == ["bg+1:00"];
    Features.PresentSnoc(t, ["bg+1:00"], "p_num");
    assert ["bg+1:00"] + ["p_num"] == ["bg+1:00", "p_num"];
    Features.PresentSnoc(t, ["bg+1:00", "p_num"], "time");
    assert ["bg+1:00", "p_num"] + ["time"] == Features.Targets;
  }
}
