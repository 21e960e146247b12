/** The clinical dashboard's logic (main.py): the glucose bands, the alert
    list built from the pipeline's predictions for the first 200 records,
    and the alert counts shown above it.
 */
module Dashboard {
  import opened Tables
  import Features
  import NullHandling
  import Orchestration

  // ---------------------------------------------------------------------------
  // Glucose bands
  // ---------------------------------------------------------------------------

  datatype Band = Unknown | Low | Normal | SlightlyHigh | High | CriticalHigh

  /** `categorize_glucose`: NaN is Unknown; otherwise the first threshold the
      value meets, in mmol/L. */
  function Categorize(g: Option<real>): (b: Band)
    ensures b == Unknown <==> g == None
  {
    match g
    case None => Unknown
    case Some(x) =>
      if x < 3.9 then Low
      else if x <= 7.8 then Normal
      else if x <= 10.0 then SlightlyHigh
      else if x <= 13.9 then High
      else CriticalHigh
  }

  /** The severity order of the bands of present values. */
  function Severity(b: Band): nat {
    match b
    case Unknown => 0
    case Low => 0
    case Normal => 1
    case SlightlyHigh => 2
    case High => 3
    case CriticalHigh => 4
  }

  /** A higher reading never lands in a less severe band. */
  lemma CategorizeMonotone(a: real, b: real)
    requires a <= b
    ensures Severity(Categorize(Some(a))) <= Severity(Categorize(Some(b)))
  {
  }

  /** Every present reading gets a band, and each band is one interval:
      below 3.9, up to 7.8, up to 10.0, up to 13.9, and above. */
  lemma BandIntervals(x: real)
    ensures Categorize(Some(x)) != Unknown
    ensures Categorize(Some(x)) == Low <==> x < 3.9
    ensures Categorize(Some(x)) == Normal <==> 3.9 <= x <= 7.8
    ensures Categorize(Some(x)) == SlightlyHigh <==> 7.8 < x <= 10.0
    ensures Categorize(Some(x)) == High <==> 10.0 < x <= 13.9
    ensures Categorize(Some(x)) == CriticalHigh <==> 13.9 < x
  {
  }

  /** The reference ranges shown on screen leave gaps: Slightly High is
      displayed from 7.9 and High from 10.1. The code classifies a reading in
      a gap into the higher band, the band of the next displayed range up. */
  lemma DisplayedRangeGaps(x: real)
    ensures 7.8 < x < 7.9 ==> Categorize(Some(x)) == SlightlyHigh
    ensures 10.0 < x < 10.1 ==> Categorize(Some(x)) == High
  {
  }

  // ---------------------------------------------------------------------------
  // Alerts
  // ---------------------------------------------------------------------------

  /** One entry of the alert list. */
  datatype Alert = Alert(id: Cell, patient: Cell, glucose: Option<real>, level: Band)

  /** `df.at[key, column]`: a missing key or column is a KeyError. */
  function At(t: Table, key: int, column: string): (r: Result<Cell, Error>)
    requires WellFormed(t)
    ensures r.Success? <==> key in t.index && column in t.cols
    ensures r.Failure? ==> r.error == KeyNotFound(key, column)
    ensures r.Success? ==> exists k :: FirstIndex(t.index, key) == Some(k) && r.value == t.cols[column][k]
  {
    match FirstIndex(t.index, key)
    case None => Failure(KeyNotFound(key, column))
    case Some(k) =>
      if column in t.cols then Success(t.cols[column][k]) else Failure(KeyNotFound(key, column))
  }

  /** The alert list after the first n predictions: every prediction outside
      the Normal band adds an alert carrying the id and patient of the row
      with that key; the first failed lookup ends the loop. */
  function AlertsOf(t: Table, preds: seq<Option<real>>, n: nat): (r: Result<seq<Alert>, Error>)
    requires WellFormed(t) && n <= |preds|
    ensures r.Success? ==> |r.value| <= n && forall k :: 0 <= k < |r.value| ==> r.value[k].level != Normal
    ensures r.Failure? ==> r.error.KeyNotFound? && r.error.row < n
  {
    if n == 0 then Success([])
    else
      var prev :- AlertsOf(t, preds, n - 1);
      var band := Categorize(preds[n - 1]);
      if band == Normal then Success(prev)
      else
        var id :- At(t, n - 1, "id");
        var patient :- At(t, n - 1, "p_num");
        Success(prev + [Alert(id, patient, preds[n - 1], band)])
  }

  /** The positions among the first n predictions whose band is not Normal,
      in increasing order. */
  function Flagged(preds: seq<Option<real>>, n: nat): (rows: seq<nat>)
    requires n <= |preds|
    ensures forall k :: 0 <= k < |rows| ==> rows[k] < n && Categorize(preds[rows[k]]) != Normal
    ensures forall i :: 0 <= i < n && Categorize(preds[i]) != Normal ==> i in rows
    ensures forall k, l :: 0 <= k < l < |rows| ==> rows[k] < rows[l]
  {
    if n == 0 then []
    else Flagged(preds, n - 1) + (if Categorize(preds[n - 1]) != Normal then [n - 1] else [])
  }

  /** The alert a flagged row produces, when its lookups succeed. */
  predicate AlertFor(t: Table, preds: seq<Option<real>>, i: nat, a: Alert)
    requires WellFormed(t) && i < |preds|
  {
    && At(t, i, "id") == Success(a.id)
    && At(t, i, "p_num") == Success(a.patient)
    && a.glucose == preds[i]
    && a.level == Categorize(preds[i])
  }

  /** Both lookups of row i succeed. */
  predicate Resolvable(t: Table, i: nat) {
    i in t.index && "id" in t.cols && "p_num" in t.cols
  }

  /** The lookups of all the given rows succeed. */
  predicate AllResolvable(t: Table, rows: seq<nat>) {
    forall k :: 0 <= k < |rows| ==> Resolvable(t, rows[k])
  }

  lemma ResolvableSnoc(t: Table, rows: seq<nat>, i: nat)
    ensures AllResolvable(t, rows + [i]) <==> AllResolvable(t, rows) && Resolvable(t, i)
  {
    assert forall k :: 0 <= k < |rows| ==> (rows + [i])[k] == rows[k];
    assert (rows + [i])[|rows|] == i;
  }

  /** The loop fails exactly when a flagged row's key is not in the index
      or the id or p_num column is missing. */
  lemma {:induction false} AlertsSucceed(t: Table, preds: seq<Option<real>>, n: nat)
    requires WellFormed(t) && n <= |preds|
    ensures AlertsOf(t, preds, n).Success? <==> AllResolvable(t, Flagged(preds, n))
  {
    if n > 0 {
      AlertsSucceed(t, preds, n - 1);
      var rows := Flagged(preds, n - 1);
      if Categorize(preds[n - 1]) != Normal {
        assert Flagged(preds, n) == rows + [n - 1];
        ResolvableSnoc(t, rows, n - 1);
        assert AlertsOf(t, preds, n).Success? <==>
          AlertsOf(t, preds, n - 1).Success? && Resolvable(t, n - 1);
      } else {
        assert Flagged(preds, n) == rows;
        assert AlertsOf(t, preds, n).Success? == AlertsOf(t, preds, n - 1).Success?;
      }
    }
  }

  /** The alert list is one alert per flagged prediction, in prediction
      order, each with its prediction, its band (never Normal) and the id and
      patient of its row. */
  lemma {:induction false} AlertsAreFlagged(t: Table, preds: seq<Option<real>>, n: nat)
    requires WellFormed(t) && n <= |preds|
    requires AlertsOf(t, preds, n).Success?
    ensures Paired(t, preds, Flagged(preds, n), AlertsOf(t, preds, n).value)
  {
    if n > 0 {
      AlertsAreFlagged(t, preds, n - 1);
      var rows := Flagged(preds, n - 1);
      var prev := AlertsOf(t, preds, n - 1).value;
      if Categorize(preds[n - 1]) != Normal {
        assert Flagged(preds, n) == rows + [n - 1];
        var a := Alert(At(t, n - 1, "id").value, At(t, n - 1, "p_num").value, preds[n - 1], Categorize(preds[n - 1]));
        assert AlertsOf(t, preds, n).value == prev + [a];
        PairedSnoc(t, preds, rows, prev, n - 1, a);
      } else {
        assert Flagged(preds, n) == rows;
      }
    }
  }

  /** The k-th alert is the alert of the k-th row, for every k, and none of
      them is Normal. */
  predicate Paired(t: Table, preds: seq<Option<real>>, rows: seq<nat>, alerts: seq<Alert>)
    requires WellFormed(t)
  {
    |alerts| == |rows| &&
    forall k :: 0 <= k < |rows| ==>
      rows[k] < |preds| && AlertFor(t, preds, rows[k], alerts[k]) && alerts[k].level != Normal
  }

  /** Appending a flagged row and its alert keeps the two lists paired. */
  lemma PairedSnoc(t: Table, preds: seq<Option<real>>, rows: seq<nat>, alerts: seq<Alert>, i: nat, a: Alert)
    requires WellFormed(t) && i < |preds| && Paired(t, preds, rows, alerts)
    requires AlertFor(t, preds, i, a) && a.level != Normal
    ensures Paired(t, preds, rows + [i], alerts + [a])
  {
    forall k | 0 <= k < |rows| + 1
      ensures (rows + [i])[k] < |preds| && AlertFor(t, preds, (rows + [i])[k], (alerts + [a])[k]) && (alerts + [a])[k].level != Normal
    {
      if k < |rows| {
        assert (rows + [i])[k] == rows[k] && (alerts + [a])[k] == alerts[k];
      }
    }
  }

  /** Once a lookup has failed, the loop has stopped with that error. */
  lemma {:induction false} FailureStops(t: Table, preds: seq<Option<real>>, i: nat, n: nat)
    requires WellFormed(t) && i <= n <= |preds| && AlertsOf(t, preds, i).Failure?
    ensures AlertsOf(t, preds, n) == AlertsOf(t, preds, i)
    decreases n
  {
    if n > i {
      FailureStops(t, preds, i, n - 1);
    }
  }

  /** With a default integer index (labels 0, 1, ...) at least as long as
      the predictions, and both the id and p_num columns, no lookup fails. */
  lemma AlertsSucceedOnRangeIndex(t: Table, preds: seq<Option<real>>)
    requires WellFormed(t) && "id" in t.cols && "p_num" in t.cols
    requires |preds| <= |t.index| && forall i :: 0 <= i < |t.index| ==> t.index[i] == i
    ensures AlertsOf(t, preds, |preds|).Success?
  {
    AlertsSucceed(t, preds, |preds|);
    var rows := Flagged(preds, |preds|);
    forall k | 0 <= k < |rows| ensures Resolvable(t, rows[k]) {
      assert t.index[rows[k]] == rows[k];
    }
    assert AllResolvable(t, rows);
  }

  // ---------------------------------------------------------------------------
  // get_patients
  // ---------------------------------------------------------------------------

  /** The first 200 records without the key column `bg+1:00`. */
  function Records(df: Table): (r: Table)
    requires WellFormed(df)
    ensures WellFormed(r)
  {
    Drop(Head(df, 200), "bg+1:00")
  }

  /** What the pipeline receives: the records without `p_num`. */
  function PipelineInput(df: Table): (r: Table)
    requires WellFormed(df)
    ensures WellFormed(r)
  {
    Drop(Records(df), "p_num")
  }

  /** `get_patients(df)`. */
  function Patients(df: Table, a: Orchestration.Artifacts): (r: Result<seq<Alert>, Error>)
    requires WellFormed(df)
    ensures Orchestration.InferencePipeline(PipelineInput(df), a).Failure? ==>
      r == Failure(Orchestration.InferencePipeline(PipelineInput(df), a).error)
    ensures r.Success? ==> forall k :: 0 <= k < |r.value| ==> r.value[k].level != Normal
  {
    var preds :- Orchestration.InferencePipeline(PipelineInput(df), a);
    AlertsOf(Records(df), preds, |preds|)
  }

  /** The imperative loop of `get_patients` over the predictions. */
  method CollectAlerts(t: Table, preds: seq<Option<real>>) returns (r: Result<seq<Alert>, Error>)
    requires WellFormed(t)
    ensures r == AlertsOf(t, preds, |preds|)
  {
    var patients: seq<Alert> := [];
    for i := 0 to |preds|
      invariant AlertsOf(t, preds, i) == Success(patients)
    {
      var category := Categorize(preds[i]);
      if category != Normal {
        var id := At(t, i, "id");
        if id.Failure? {
          FailureStops(t, preds, i + 1, |preds|);
          return Failure(id.error);
        }
        var patient := At(t, i, "p_num");
        if patient.Failure? {
          FailureStops(t, preds, i + 1, |preds|);
          return Failure(patient.error);
        }
        patients := patients + [Alert(id.value, patient.value, preds[i], category)];
      }
    }
    r := Success(patients);
  }

  /** The pipeline sees at most the first 200 records, in order, without
      `bg+1:00` (so the bg family no longer averages in the label) and
      without `p_num`; every other column is kept, cut to those records. */
  lemma PipelineInputShape(df: Table)
    requires WellFormed(df)
    ensures var inp := PipelineInput(df);
      && |inp.index| == (if |df.index| < 200 then |df.index| else 200)
      && inp.index == df.index[..|inp.index|]
      && "p_num" !in inp.cols && "bg+1:00" !in inp.cols
      && "bg+1:00" !in Features.Matching(inp.names, "bg")
      && (forall c :: c in df.cols && c != "p_num" && c != "bg+1:00" ==> c in inp.cols)
      && (forall c :: c in inp.cols ==> c in df.cols && inp.cols[c] == df.cols[c][..|inp.index|])
  {
  }

  /** Without `p_num` the reduced table has no patient column, so the null
      handler never imputes the heart rate on the dashboard's path. */
  lemma DashboardHrNotImputed(df: Table)
    requires WellFormed(df)
    ensures var r := Features.Reduce(PipelineInput(df));
      WellFormed(r) && "p_num" !in r.cols &&
      ("hr" in r.cols ==> NullHandling.FillNulls(r).cols["hr"] == r.cols["hr"])
  {
    var inp := PipelineInput(df);
    Features.ReduceColumns(inp, "p_num");
    assert "p_num" !in Features.Prefixes;
    var r := Features.Reduce(inp);
    if "hr" in r.cols {
      NullHandling.HrUntouched(r);
    }
  }

  // ---------------------------------------------------------------------------
  // The alert counts
  // ---------------------------------------------------------------------------

  /** The counters above the alert list. */
  datatype Summary = Summary(critical: nat, high: nat, low: nat, total: nat)

  /** The number of alerts whose level is one of the given bands. */
  function CountIn(alerts: seq<Alert>, levels: set<Band>): (c: nat)
    ensures c <= |alerts|
  {
    if alerts == [] then 0
    else CountIn(alerts[..|alerts| - 1], levels) + (if alerts[|alerts| - 1].level in levels then 1 else 0)
  }

  /** `critical_count`, `high_count` (High and Slightly High), `low_count`
      and `total_alerts`. */
  function Summarize(alerts: seq<Alert>): (s: Summary)
    ensures s.total == |alerts|
    ensures s.critical <= s.total && s.high <= s.total && s.low <= s.total
  {
    Summary(CountIn(alerts, {CriticalHigh}), CountIn(alerts, {High, SlightlyHigh}),
            CountIn(alerts, {Low}), |alerts|)
  }

  /** With no Normal alert, the three counters and the Unknown alerts make
      up the total. */
  lemma {:induction false} CountsAddUp(alerts: seq<Alert>)
    requires forall k :: 0 <= k < |alerts| ==> alerts[k].level != Normal
    ensures var s := Summarize(alerts);
      s.critical + s.high + s.low + CountIn(alerts, {Unknown}) == s.total
  {
    if alerts != [] {
      var init := alerts[..|alerts| - 1];
      assert forall k :: 0 <= k < |init| ==> init[k] == alerts[k];
      CountsAddUp(init);
    }
  }

  /** The dashboard's counters always add up: every alert `get_patients`
      returns is outside the Normal band. */
  lemma PatientsCountsAddUp(df: Table, a: Orchestration.Artifacts)
    requires WellFormed(df) && Patients(df, a).Success?
    ensures var alerts := Patients(df, a).value;
      var s := Summarize(alerts);
      s.critical + s.high + s.low + CountIn(alerts, {Unknown}) == s.total
  {
    CountsAddUp(Patients(df, a).value);
  }

  /** `get_patients(df)`: the pipeline's failure is passed on, otherwise the
      alert loop runs over its predictions. */
  method GetPatients(df: Table, a: Orchestration.Artifacts) returns (r: Result<seq<Alert>, Error>)
    requires WellFormed(df)
    ensures r == Patients(df, a)
  {
    var records := Records(df);
    var predicted := Orchestration.InferencePipeline(Drop(records, "p_num"), a);
    if predicted.Failure? {
      return Failure(predicted.error);
    }
    r := CollectAlerts(records, predicted.value);
  }
}
