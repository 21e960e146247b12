/** The tabular data every stage of the inference pipeline works on.

    A table is column-major, like a pandas DataFrame: a row index, an ordered
    list of column names, and for every name a column of cells. A cell is
    either missing (`None`, pandas' NaN/NA) or holds a number or a string.
 */
module Tables {

  datatype Option<+T> = None | Some(value: T)

  /** Success or failure of a pipeline stage; failures are the exceptions the
      source raises and re-raises. Usable with `:-`. */
  datatype Result<+T, +E> = Success(value: T) | Failure(error: E) {
    predicate IsFailure() { Failure? }

    function PropagateFailure<U>(): Result<U, E>
      requires Failure?
    {
      Failure(error)
    }

    function Extract(): T
      requires Success?
    {
      value
    }
  }

  /** The fatal errors of the pipeline and of its dashboard caller. */
  datatype Error =
    | ArtifactLoad(artifact: string)            // joblib could not load a file
    | UnseenLabel(column: string, category: string) // LabelEncoder.transform on an unknown category
    | RaggedList                                 // np.array of rows of unequal length
    | ShapeMismatch(expected: int, got: int)     // validate_input's ValueError
    | ModelFailure                               // the regressor itself raised
    | KeyNotFound(row: int, column: string)      // DataFrame.at on a missing label or column

  datatype Value = Num(x: real) | Str(s: string)

  type Cell = Option<Value>

  datatype Table = Table(index: seq<int>, names: seq<string>, cols: map<string, seq<Cell>>)

  predicate Distinct<T(==)>(s: seq<T>) {
    forall i, j :: 0 <= i < j < |s| ==> s[i] != s[j]
  }

  /** The first position of x in s, as a pandas label lookup or a class
      lookup finds it; None when x does not occur. */
  function FirstIndex<T(==)>(s: seq<T>, x: T): (r: Option<nat>)
    ensures r == None <==> x !in s
    ensures r != None ==> r.value < |s| && s[r.value] == x
    ensures r != None ==> forall k :: 0 <= k < r.value ==> s[k] != x
  {
    if s == [] then None
    else if s[0] == x then Some(0)
    else
      match FirstIndex(s[1..], x)
      case None => None
      case Some(k) => Some(k + 1)
  }

  /** A DataFrame's shape invariant: distinct column names, one column per
      name and every column as long as the index. */
  ghost predicate WellFormed(t: Table) {
    && Distinct(t.names)
    && (forall n :: n in t.cols <==> n in t.names)
    && (forall n :: n in t.cols ==> |t.cols[n]| == |t.index|)
  }

  /** `df[name] = cells`: replaces an existing column in place, or appends a
      new column at the end. */
  function Assign(t: Table, name: string, cells: seq<Cell>): (r: Table)
    requires WellFormed(t) && |cells| == |t.index|
    ensures WellFormed(r) && r.index == t.index
    ensures name in r.cols && r.cols[name] == cells
    ensures forall n :: n != name && n in t.cols ==> n in r.cols && r.cols[n] == t.cols[n]
    ensures name in t.cols ==> r.names == t.names
    ensures name !in t.cols ==> r.names == t.names + [name]
  {
    var names := if name in t.cols then t.names else t.names + [name];
    Table(t.index, names, t.cols[name := cells])
  }

  function RemoveName(names: seq<string>, name: string): (r: seq<string>)
    ensures forall n :: n in r <==> n in names && n != name
    ensures Distinct(names) ==> Distinct(r)
  {
    if names == [] then []
    else if names[0] == name then RemoveName(names[1..], name)
    else
      assert Distinct(names) ==> names[0] !in names[1..] && Distinct(names[1..]);
      [names[0]] + RemoveName(names[1..], name)
  }

  /** `df.drop(columns=[name], errors="ignore")`: an absent column is not an error. */
  function Drop(t: Table, name: string): (r: Table)
    requires WellFormed(t)
    ensures WellFormed(r) && r.index == t.index
    ensures name !in r.cols
    ensures forall n :: n != name ==> (n in r.cols <==> n in t.cols)
    ensures forall n :: n in r.cols ==> r.cols[n] == t.cols[n]
  {
    if name in t.cols then Table(t.index, RemoveName(t.names, name), t.cols - {name}) else t
  }

  /** `df.iloc[:n]`: the first n rows (all of them when there are fewer). */
  function Head(t: Table, n: nat): (r: Table)
    requires WellFormed(t)
    ensures WellFormed(r) && r.names == t.names
    ensures |r.index| == if |t.index| < n then |t.index| else n
    ensures r.index == t.index[..|r.index|]
    ensures forall c :: c in r.cols ==> r.cols[c] == t.cols[c][..|r.index|]
  {
    var k := if |t.index| < n then |t.index| else n;
    Table(t.index[..k], t.names, map c | c in t.cols :: t.cols[c][..k])
  }

  /** A DataFrame object, updated in place by `df[name] = ...`. */
  class Frame {
    var index: seq<int>
    var names: seq<string>
    var cols: map<string, seq<Cell>>

    /** The table this frame currently holds. */
    function View(): Table
      reads this
    {
      Table(index, names, cols)
    }

    ghost predicate Valid()
      reads this
    {
      WellFormed(View())
    }

    /** `pd.DataFrame(index=idx)`: no columns yet. */
    constructor Empty(idx: seq<int>)
      ensures Valid() && View() == Table(idx, [], map[])
    {
      index, names, cols := idx, [], map[];
    }

    constructor Of(t: Table)
      requires WellFormed(t)
      ensures Valid() && View() == t
    {
      index, names, cols := t.index, t.names, t.cols;
    }

    /** `df.copy()`: an independent frame with the same contents. */
    method Copy() returns (c: Frame)
      requires Valid()
      ensures fresh(c) && c.Valid() && c.View() == View()
    {
      c := new Frame.Of(View());
    }

    function Has(name: string): bool
      reads this
    {
      name in cols
    }

    function Column(name: string): seq<Cell>
      reads this
      requires name in cols
    {
      cols[name]
    }

    /** `df[name] = cells`. */
    method Set(name: string, cells: seq<Cell>)
      requires Valid() && |cells| == |index|
      modifies this
      ensures Valid() && View() == Assign(old(View()), name, cells)
    {
      if name !in cols {
        names := names + [name];
      }
      cols := cols[name := cells];
    }
  }
}
