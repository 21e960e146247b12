# Glucose-Monitoring inference pipeline in Dafny

This project models the inference core of the Glucose-Monitoring dashboard and
proves properties about it. The core forecasts a patient's blood glucose from
tabular time-series records and flags the patients whose forecast is outside
the normal band. The stages are:

- **Column reduction** (`reduce_cols`). Each signal family (`bg`, `insulin`,
  `carbs`, `hr`, `steps`, `cals`, `activity`) is recorded in several
  time-offset columns that share the family name as a prefix. Each family
  becomes one column: a row-wise mean, or a row-wise mode for `activity`. The
  columns `bg+1:00`, `p_num` and `time` are copied through.
- **Null handling** (`handle_null`). Missing intervention values get fixed
  defaults. A missing heart rate gets the mean heart rate of the same
  patient.
- **Categorical encoding** (`transform_with_encoders`). Every column that has
  a fitted label encoder is replaced by its codes. An unseen category is
  fatal.
- **Prediction** (`predict`). The input must have exactly eight columns
  before the regressor is consulted. A list is first turned into an array;
  the pipeline passes the encoded DataFrame itself.
- **The pipeline** (`inference_pipeline`) chains the four stages. The first
  failure ends the run.
- **The dashboard logic** of `main.py`:
  - `categorize_glucose` maps a reading to a band;
  - `get_patients` runs the pipeline on the first 200 records and builds the
    alert list;
  - the alert counters sum up that list.

A DataFrame is modelled by `Tables.Table`. It holds a row index, an ordered
list of column names, and a map from each name to a column of cells. A cell
is missing (NaN/NA) or holds a number or a string. The DataFrame stages update
a frame in place. A frame is an object of the `Tables.Frame` class, whose
`Copy` and `Set` methods copy it and assign one of its columns. The stages
themselves (`Features.ReduceCols`, `NullHandling.HandleNull` and
`Encoding.TransformWithEncoders`) are module-level methods that work on
`Frame` objects. Each is proved equal to a pure specification function:
`Features.Reduce`, `NullHandling.FillNulls` or `Encoding.Transform`. The
alert loop `Dashboard.CollectAlerts` only reads the table and is proved
equal to `Dashboard.AlertsOf`. The properties the code
promises are lemmas about those functions. The pipeline and prediction code
only composes values and is modelled as functions.

The files:

- `tables.dfy`: module `Tables`;
- `features.dfy`: module `Features`;
- `handle_null.dfy`: module `NullHandling`;
- `encoder.dfy`: module `Encoding`;
- `predict.dfy`: module `Prediction`;
- `pipeline.dfy`: module `Orchestration`;
- `dashboard.dfy`: module `Dashboard`.

Three behaviours of the code are easy to get wrong:

- **Activity mode ties.** pandas sorts a row's modes, and column 0 is taken,
  so a tie goes to the least value, not to the value of the first column.
- **Absent families.** A family with no column is omitted from the output.
  It does not become an all-missing column.
- **The label column.** `bg+1:00` starts with `bg`, so it enters the `bg`
  mean whenever it is present (`Features.LabelJoinsBgFamily`).

## Model

| member | source | states |
|---|---|---|
| Tables.Assign | src/features.py:44 | `df[name] = cells`: the named column holds exactly the given cells. Every other column is kept. An existing name keeps its place; a new name is appended at the end. |
| Tables.Drop | main.py:40 | `drop(columns=[name], errors="ignore")`: the column is gone, every other column and its cells are kept, and an absent name is no error. |
| Tables.Head | main.py:36 | `iloc[:n]`: the table holds min(n, rows) rows. Those are the leading rows of the index and of every column. |
| Tables.Frame.Empty | src/features.py:26 | A new frame on the given index with no columns. |
| Tables.Frame.Copy | src/handle_null.py:22 | `df.copy()`: a fresh frame whose contents equal the original's. |
| Tables.Frame.Set | src/features.py:44 | Assigning a column in place changes the frame exactly as `Assign` does. |
| Tables.FirstIndex | src/encoder.py:56 | The first position of a value in a sequence: the code of a text among the encoder's classes, and the row a label names in the index for `.at` (main.py:48-49). None iff the value does not occur; otherwise it holds the value and no earlier entry does. |
| Features.FixedNamesDistinct | src/features.py:23-24 | The seven prefixes are distinct, the three copied columns are distinct, and no prefix is also a copied column. |
| Features.Matching | src/features.py:30 | The columns a prefix selects are exactly the input columns that start with it, each selected once when the column names are distinct. |
| Features.MatchingInOrder | src/features.py:30 | The selected columns keep their column order. |
| Features.MatchingNonEmpty | src/features.py:30-34 | The selection is non-empty iff some column starts with the prefix, which is when the family is not skipped. |
| Features.PresentNumbers | src/features.py:44 | `skipna=True`: the averaged values are exactly the numbers present in the row. |
| Features.PresentNumbersCount | src/features.py:44 | Each number present in the row is averaged exactly as often as it occurs there. |
| Features.PresentNumbersCons | src/features.py:44 | The averaged values of a row are those of its first cell followed by those of the rest. |
| Features.RowMean | src/features.py:44 | `mean(axis=1, skipna=True)` on one row: missing iff the row holds no number, and a number otherwise. |
| Features.MeanBounds | src/features.py:44 | A row mean lies between any lower and upper bound of the averaged values. |
| Features.SumBounds | src/features.py:44 | A sum of n values lies between n times any lower bound and n times any upper bound. |
| Features.MeanExample | src/features.py:44 | The row mean of [6.0, 8.0, missing] is 7.0: the missing cell is skipped, not counted as 0. |
| Features.ExampleNumbers | src/features.py:44 | The numbers averaged for [6.0, 8.0, missing] are 6.0 and 8.0. |
| Features.StrLeTotal | src/features.py:37-38 | Python's string order, used to sort the modes, is total. |
| Features.StrLeTransitive | src/features.py:37-38 | Python's string order is transitive. |
| Features.StrLeAntisymmetric | src/features.py:37-38 | Two strings each at most the other are equal. |
| Features.ValueLeIsTotalOrder | src/features.py:37-38 | The order on the row's modes is total, antisymmetric and transitive, so "the least mode" is one value. |
| Features.PresentValues | src/features.py:37 | The values `mode` counts are exactly the present cells of the row. |
| Features.PresentValuesCount | src/features.py:37 | `mode` counts each present value exactly as often as it occurs in the row. |
| Features.RowMode | src/features.py:37-38 | `mode(axis=1).iloc[:, 0]` on one row: missing iff every cell is missing, and otherwise one of the row's cells. |
| Features.MostFrequent | src/features.py:37-38 | The chosen value is a candidate that no candidate outnumbers. Among the equally frequent candidates it is the least, as column 0 of the sorted modes. |
| Features.RowModeMeaning | src/features.py:37-38 | Counted over the row's own cells, no value occurs more often than the row mode, and the mode is the least of the values that occur as often. |
| Features.MeanColumn | src/features.py:43-47 | The mean column (or the all-missing column of the error handler) has one cell per input row. |
| Features.ModeColumn | src/features.py:36-38 | The mode column has one cell per input row. |
| Features.FamilyColumn | src/features.py:35-47 | The stored family column has one cell per input row. |
| Features.Found | src/features.py:28-34 | The emitted families are exactly the prefixes with at least one column, without repeats. |
| Features.Present | src/features.py:49-54 | The copied columns are exactly the listed names the input has, without repeats. |
| Features.FilterKeepsOrder | src/features.py:28-54 | The families and the copied columns appear in the order of their fixed lists. |
| Features.Reduce | src/features.py:9-56 | What `reduce_cols` returns is a well-formed table with the input's index, so its rows and their order. |
| Features.ReduceColumns | src/features.py:28-54 | A name is an output column iff it is a prefix with a matching column or a copied name the input has. Nothing else (`id`, say) survives. |
| Features.ReduceColumnOrder | src/features.py:28-54 | The output names are the found families in prefix order followed by the present targets in their fixed order. |
| Features.ReduceFamilyValue | src/features.py:35-47 | An emitted family holds the family column computed from its matching columns. |
| Features.ReduceNumericFamily | src/features.py:42-47 | A numeric family holds, per row, the mean of the numbers present in its columns. It is missing where the row has none. A string anywhere in the family makes the whole column missing (the except branch). |
| Features.ReduceActivity | src/features.py:35-41 | The activity column holds, per row, the row mode of its columns. |
| Features.ReduceTargets | src/features.py:49-51 | `bg+1:00`, `p_num` and `time` are copied verbatim when present. |
| Features.LabelJoinsBgFamily | src/features.py:30 | Prefix matching is plain `startswith`, so the label `bg+1:00` is one of the `bg` columns averaged into `bg`. |
| Features.FoundSnoc | src/features.py:28-34 | A turn of the prefix loop appends the prefix iff it has a column. |
| Features.PresentSnoc | src/features.py:49-54 | A turn of the target loop appends the name iff the input has it. |
| Features.FamilyAdded | src/features.py:35-47 | A turn of the prefix loop that finds columns is one column assignment. |
| Features.FamilySkipped | src/features.py:31-34 | A turn that finds no column leaves the output as it was. |
| Features.TargetAdded | src/features.py:50-51 | A present target is one column assignment. |
| Features.TargetSkipped | src/features.py:52-54 | An absent target leaves the output as it was. |
| Features.ReduceCols | src/features.py:9-56 | `reduce_cols` returns a fresh frame equal to `Reduce` of the input. The input frame is only read. |
| Features.AddFamily | src/features.py:29-47 | One turn of the prefix loop extends the output by exactly that prefix's family, if it has one. |
| Features.AddFamilies | src/features.py:28-47 | After the prefix loop the output holds exactly the found families, in order. |
| Features.AddTarget | src/features.py:50-54 | One turn of the target loop extends the output by exactly that target, if present. |
| Features.AddTargets | src/features.py:49-54 | After the target loop the output is the whole reduced table. |
| NullHandling.FillNulls | src/handle_null.py:8-58 | What `handle_null` returns is well formed and keeps the index, the column names and their order. |
| NullHandling.FilledUpTo | src/handle_null.py:33-43 | Filling the listed defaults keeps the shape, and every unlisted column is unchanged. |
| NullHandling.DefaultsFilled | src/handle_null.py:25-43 | A present default column has no missing cell left. A missing cell becomes "unknown" (activity) or 0 (steps, insulin, carbs, cals); a present cell is kept. |
| NullHandling.AbsentDefaultNotCreated | src/handle_null.py:34-43 | A default column that is absent is not created. |
| NullHandling.OtherColumnsUntouched | src/handle_null.py:8-58 | Every column other than the defaults and `hr` is passed through unchanged. |
| NullHandling.HrUntouched | src/handle_null.py:46-56 | Without `p_num`, or with a string heart rate in a row that has a patient (the group mean raises and the except branch runs), `hr` is left as it was. |
| NullHandling.GroupValues | src/handle_null.py:49 | The values averaged for a patient are exactly the heart rates present in that patient's rows. |
| NullHandling.GroupValuesMasked | src/handle_null.py:49 | A patient's values are the row-mean input of the masked column. |
| NullHandling.GroupValuesCount | src/handle_null.py:49 | Each heart rate of the patient enters the group mean exactly as often as it occurs in that patient's rows. |
| NullHandling.GroupMean | src/handle_null.py:49 | The group mean of a missing patient is missing (groupby drops the key), and a present group mean is a number. |
| NullHandling.FillHr | src/handle_null.py:49-53 | Filling the heart rate keeps the column's length and every present heart rate. The group mean raises only on a string in a row with a patient, since rows without one are dropped by `groupby`. |
| NullHandling.ImputeHr | src/handle_null.py:46-56 | The heart-rate step keeps the shape, and every column other than `hr` is unchanged. |
| NullHandling.GroupMeanMissing | src/handle_null.py:49 | With no string heart rate in a patient's row, a patient's group mean is missing iff none of that patient's rows has a heart rate. |
| NullHandling.GroupMeanBounds | src/handle_null.py:49 | An imputed heart rate lies between the lowest and highest heart rate recorded for the patient. |
| NullHandling.HrImputed | src/handle_null.py:46-50 | With `hr` and `p_num` present and no string heart rate in a row with a patient, a present heart rate is kept and a missing one becomes its patient's mean. A heart rate stays missing iff the patient is missing or has no heart rate in any row. |
| NullHandling.UnassignedStringGroup | src/handle_null.py:49 | In the three-row example, patient 1's heart rates are exactly [70]; the string sits in the row without a patient. |
| NullHandling.UnassignedStringMean | src/handle_null.py:49 | Patient 1's group mean in that example is 70. |
| NullHandling.UnassignedStringIgnored | src/handle_null.py:49-53 | A string heart rate in a row without a patient does not stop the imputation: [x, missing, 70] with patients [missing, 1, 1] becomes [x, 70, 70]. |
| NullHandling.FillMissingTwice | src/handle_null.py:36 | Filling a column with its default twice is the same as once. |
| NullHandling.FillHrTwice | src/handle_null.py:49 | Imputing the heart rate twice is the same as once. |
| NullHandling.FilledTwice | src/handle_null.py:33-43 | Running the default loop twice is the same as once. |
| NullHandling.FillCommutes | src/handle_null.py:25-49 | The default fills and the heart-rate step commute, since neither `hr` nor `p_num` has a default. |
| NullHandling.ImputeTwice | src/handle_null.py:46-56 | The heart-rate step is idempotent on a table. |
| NullHandling.FillNullsIdempotent | src/handle_null.py:8-58 | Handling the nulls of the handler's own output changes nothing. |
| NullHandling.FillStep | src/handle_null.py:34-36 | A turn of the default loop on a present column is one column assignment of its filled cells. |
| NullHandling.FillSkip | src/handle_null.py:41-43 | A turn on an absent column changes nothing. |
| NullHandling.FillDefault | src/handle_null.py:33-43 | One turn of the default loop extends the filled prefix of the default list by one name. |
| NullHandling.FillDefaults | src/handle_null.py:33-43 | After the loop the working copy is the input with every listed default column filled. |
| NullHandling.HandleNull | src/handle_null.py:8-58 | `handle_null` returns a fresh frame equal to `FillNulls` of the input. The input is only read. |
| Encoding.EncodeColumn | src/encoder.py:56-59 | Transform succeeds iff every cell's text is a known class. Then each cell gets a code that indexes its text. Otherwise the error names the column and the first unseen text. |
| Encoding.InverseTransform | src/encoder.py:56 | Decoding succeeds iff every cell is a whole-number code within the classes, and gives one text per code. |
| Encoding.EncodeRoundTrip | src/encoder.py:56 | Decoding the codes gives back the text of every original cell. |
| Encoding.EncodeInjective | src/encoder.py:56 | With distinct classes, two cells get the same code iff they have the same text. |
| Encoding.Transform | src/encoder.py:32-60 | The stage's result keeps the index and the column names in their order. |
| Encoding.TransformKeepsOthers | src/encoder.py:49-56 | A column no encoder names passes through unchanged. |
| Encoding.ColumnsTail | src/encoder.py:49 | Dictionary keys are distinct: the first encoder's column is not named again later. |
| Encoding.TransformSucceeds | src/encoder.py:49-59 | The stage succeeds iff every encoded column present in the frame holds only known texts. An encoder whose column is absent is skipped. |
| Encoding.TransformEncodes | src/encoder.py:49-56 | On success every encoded column holds its encoder's codes, and they decode to the original cells' texts. |
| Encoding.TransformStep | src/encoder.py:50-53 | A skipped encoder leaves the rest of the fold unchanged. |
| Encoding.TransformWithEncoders | src/encoder.py:32-60 | The loop over the encoders succeeds iff `Transform` does, and then returns a fresh frame equal to its result. Otherwise it fails with the same error. |
| Prediction.ToArray | src/predict.py:29-33 | Conversion fails iff the input is a ragged list of lists, and then with the ragged-list error. A converted list is rectangular with at least one row. |
| Prediction.ValidateInput | src/predict.py:25-38 | A validated array has the expected width. A failure is a ragged list or a width mismatch that reports the expected width and the converted input's actual width, which differs from it. |
| Prediction.Predict | src/predict.py:40-51 | A failed model load is reported whatever the input. A prediction exists only for a loaded model and a valid input. |
| Prediction.ValidatedShape | src/predict.py:25-38 | A validated array has exactly the expected width and holds the input's cells unchanged. A flat list becomes a single row. |
| Prediction.GridValidation | src/predict.py:35-36 | A matrix fails validation iff its width differs from the expected count, and the error reports both numbers. |
| Prediction.FlatValidation | src/predict.py:29-36 | A flat list is accepted iff it has the expected length, and it then becomes one row. |
| Prediction.NestedValidation | src/predict.py:29-36 | A non-empty list of rows is accepted iff every row has the expected length. |
| Prediction.ModelSeesOnlyValidated | src/predict.py:44-47 | The regressor is consulted only on a validated array, so any two regressors agree on an invalid input. On a valid input it sees exactly the validated array. |
| Orchestration.Encoded | pipeline.py:19-28 | A failed encoders load is the result. The table reaching `predict` is well formed, has the input's index and has the reduced table's column names. |
| Orchestration.InferencePipeline | pipeline.py:16-38 | A prediction exists only when both artifacts loaded, encoding succeeded and the reduced table had exactly eight columns. |
| Orchestration.FailureOrder | pipeline.py:16-38 | Failures surface in stage order: encoders load, unseen label, model load, width, then the regressor. |
| Orchestration.ModelInput | pipeline.py:19-31 | The regressor gets an eight-column array with one row per input row, or the run fails with the width error. |
| Orchestration.OwnFamily | src/features.py:30 | Every column name starts with itself, so it is found as its own family. |
| Orchestration.FoundAll | src/features.py:28-34 | Prefixes that are all column names are all found, in order. |
| Orchestration.ReduceNames | src/features.py:28-54 | The reduced names are the found families followed by the present targets. |
| Orchestration.SampleTargets | pipeline.py:47 | The sample has `time`, and has neither `bg+1:00` nor `p_num`. |
| Orchestration.PresentTime | src/features.py:49-54 | With `time` but neither `bg+1:00` nor `p_num`, only `time` is copied. |
| Orchestration.SampleKeepsEightColumns | pipeline.py:46-47 | The sample's eight columns survive reduction exactly, in order, so the width check passes. |
| Orchestration.SampleNames | pipeline.py:47 | The sample reduces to its own column list. |
| Orchestration.SamplePresent | pipeline.py:47 | `time` is the one target of the sample. |
| Orchestration.SampleFound | pipeline.py:47 | All seven families of the sample are found. |
| Orchestration.SampleReachesModel | pipeline.py:46-51 | With its categories known, the sample reaches the regressor as an eight-wide array with one row per sample row. |
| Orchestration.SampleWithPatientFails | pipeline.py:31 | A sample that still has `p_num` keeps it as a ninth column and fails the width check with (8, 9). |
| Orchestration.PatientSampleNames | src/features.py:28-54 | With `p_num` added the reduced table has nine columns. |
| Orchestration.PatientSampleFound | src/features.py:28-34 | Adding `p_num` leaves all seven families found. |
| Orchestration.PatientSamplePresent | src/features.py:49-54 | With `p_num` added, `p_num` and `time` are copied. |
| Orchestration.PatientTargets | src/features.py:24 | `p_num` and `time` are in the extended sample, and `bg+1:00` is not. |
| Orchestration.PresentPatientTime | src/features.py:49-54 | With `p_num` and `time` but no `bg+1:00`, exactly `p_num` and `time` are copied, in that order. |
| Dashboard.Categorize | main.py:18-30 | A reading is Unknown iff it is NaN. |
| Dashboard.CategorizeMonotone | main.py:18-30 | A higher reading never lands in a less severe band. |
| Dashboard.BandIntervals | main.py:21-30 | Each band is one interval: Low below 3.9, Normal up to 7.8, Slightly High up to 10.0, High up to 13.9, and Critical High above. |
| Dashboard.DisplayedRangeGaps | main.py:330-332 | Readings in the gaps between the displayed ranges, (7.8, 7.9) and (10.0, 10.1), get the higher band: Slightly High and High. |
| Dashboard.At | main.py:48-49 | `df.at[key, column]` succeeds iff the key is in the index and the column exists, and then returns that column's cell at the key's first position; otherwise it is a KeyError for that key and column. |
| Dashboard.AlertsOf | main.py:43-53 | After n predictions the alert list has at most n alerts and none of them is Normal. A failure is a KeyError for one of the first n row labels. |
| Dashboard.Flagged | main.py:44-46 | The alerted rows are exactly the predictions outside Normal, in increasing order. |
| Dashboard.ResolvableSnoc | main.py:48-49 | The lookups of rows plus one more succeed iff they succeed for the rows and for the extra one. |
| Dashboard.AlertsSucceed | main.py:43-53 | The alert loop succeeds iff every flagged row's key is in the index and both `id` and `p_num` exist. |
| Dashboard.AlertsAreFlagged | main.py:43-53 | On success the k-th alert belongs to the k-th flagged row. It carries that row's id, patient and prediction, and its band is not Normal. |
| Dashboard.PairedSnoc | main.py:47-52 | Appending a flagged row's alert keeps alerts and rows paired. |
| Dashboard.FailureStops | main.py:48-49 | Once a lookup fails the loop ends with that error. |
| Dashboard.AlertsSucceedOnRangeIndex | main.py:44-49 | With a default 0, 1, ... index covering the predictions, and both `id` and `p_num` present, no lookup fails. |
| Dashboard.Records | main.py:36-38 | The dashboard's records form a well-formed table. |
| Dashboard.PipelineInput | main.py:40 | The pipeline's input is a well-formed table. |
| Dashboard.Patients | main.py:35-53 | `get_patients` passes on the pipeline's failure, and every alert it returns is outside the Normal band. |
| Dashboard.PipelineInputShape | main.py:36-40 | The pipeline sees at most the first 200 records, in order, without `bg+1:00` or `p_num`, and every other column cut to those records. |
| Dashboard.DashboardHrNotImputed | main.py:40 | Without `p_num` the reduced table has no patient column, so the heart rate is never imputed on the dashboard's path. |
| Dashboard.CollectAlerts | main.py:43-53 | The imperative alert loop returns exactly `AlertsOf` over all predictions, including the first lookup failure. |
| Dashboard.CountIn | main.py:197-200 | A counter never exceeds the number of alerts. |
| Dashboard.Summarize | main.py:197-200 | The total is the number of alerts, and no counter exceeds it. |
| Dashboard.CountsAddUp | main.py:197-200 | With no Normal alert, the critical, high and low counters plus the Unknown alerts make up the total. |
| Dashboard.PatientsCountsAddUp | main.py:197-200 | For whatever `get_patients` returns, the counters plus the Unknown alerts add up to the total. |
| Dashboard.GetPatients | main.py:35-53 | `get_patients` passes on the pipeline's failure; otherwise it runs the alert loop over the predictions. |

## Left out

- Streamlit layout, styling and rendering of `main.py`: they only display the
  alert list and its counters.
- CSV reading is out of scope. The dashboard functions take the loaded table
  as a parameter.
- `load_encoders` (src/encoder.py:11-30) and `load_model`
  (src/predict.py:10-23) are deserialization by joblib. The loaded encoders
  and model are parameters (`Orchestration.Artifacts`). A failed load is the
  `ArtifactLoad` error, or whatever error the parameter carries.
- The XGBoost regressor is an opaque function from a matrix to predictions or
  an error. Missing predictions (NaN) are `None`.
- Logging and the `verbose` flags have no effect on results.
- The `isinstance` type checks (src/features.py:20-21,
  src/handle_null.py:19-20) cannot fail in the typed model.
- Floating point is not modelled: values are exact reals. numpy's rendering
  of a float as text is the parameter `numText`.
- `astype('category')` on activity (src/handle_null.py:37-38) changes only
  the dtype. The categories become text again at encoding time.
- `df[col].fillna(..., inplace=True)` is chained assignment. It is modelled as
  updating the frame, as pandas 2 does. Copy-on-write pandas would leave the
  frame unchanged.
- Encoding.EncodeColumn: scikit-learn's error lists every unseen label. The
  model reports the first unseen text only.
- Dashboard.At: with a duplicated index label, pandas `.at` raises or returns
  several values. The model takes the first position holding the label.
- Orchestration.AsMatrix: `predict` hands the encoded DataFrame itself to
  the regressor, with its column names and dtypes. The regressor is modelled
  on the cell values only and cannot see the names or dtypes.
- Tables.WellFormed: pandas allows duplicate column labels. The model requires
  distinct names; `read_csv` renames duplicated headers, so the dashboard's
  path never meets them.
- Alert `glucose` is `float(bg)`. The model keeps the prediction itself, since
  floats are reals here.
