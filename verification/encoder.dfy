/** The categorical encoding stage (`transform_with_encoders`,
    src/encoder.py).

    Each fitted LabelEncoder knows the classes it saw at training time, as a
    list of distinct strings; it turns a column into codes by first turning
    every cell into text (`astype(str)`) and then replacing the text by its
    position in that list. A text it never saw makes it raise, and the stage
    re-raises.
 */
module Encoding {
  import opened Tables

  /** A fitted LabelEncoder for one column of the frame. */
  datatype Encoder = Encoder(column: string, classes: seq<string>)

  /** A fitted encoder's classes are distinct (`np.unique` of the training
      texts). */
  predicate Fitted(e: Encoder) {
    Distinct(e.classes)
  }

  /** The encoders dictionary: one encoder per column, in insertion order. */
  predicate DistinctColumns(encs: seq<Encoder>) {
    forall i, j :: 0 <= i < j < |encs| ==> encs[i].column != encs[j].column
  }

  /** `astype(str)` on one cell: a missing cell reads "nan", a string is
      itself, and a number is rendered by numText (the float formatting of
      numpy, which is not part of this model). */
  function Text(c: Cell, numText: real -> string): string {
    match c
    case None => "nan"
    case Some(Str(s)) => s
    case Some(Num(x)) => numText(x)
  }

  /** The code a cell receives, when its text is one of the classes. */
  predicate Encodes(e: Encoder, c: Cell, numText: real -> string, code: Cell) {
    exists k :: 0 <= k < |e.classes| && code == Some(Num(k as real)) && e.classes[k] == Text(c, numText)
  }

  predicate Seen(e: Encoder, c: Cell, numText: real -> string) {
    Text(c, numText) in e.classes
  }

  /** `le.transform(cells.astype(str))`: the codes of all cells, or the error
      for the first cell whose text the encoder never saw. */
  function EncodeColumn(e: Encoder, cells: seq<Cell>, numText: real -> string): (r: Result<seq<Cell>, Error>)
    ensures r.Success? <==> forall i :: 0 <= i < |cells| ==> Seen(e, cells[i], numText)
    ensures r.Success? ==> |r.value| == |cells|
    ensures r.Success? ==> forall i :: 0 <= i < |cells| ==> Encodes(e, cells[i], numText, r.value[i])
    ensures r.Failure? ==> exists i :: (0 <= i < |cells| && !Seen(e, cells[i], numText) &&
      (forall j :: 0 <= j < i ==> Seen(e, cells[j], numText)) &&
      r.error == UnseenLabel(e.column, Text(cells[i], numText)))
  {
    if cells == [] then Success([])
    else
      match FirstIndex(e.classes, Text(cells[0], numText))
      case None => Failure(UnseenLabel(e.column, Text(cells[0], numText)))
      case Some(k) =>
        var rest := EncodeColumn(e, cells[1..], numText);
        if rest.Failure? then
          var i :| 0 <= i < |cells[1..]| && !Seen(e, cells[1..][i], numText) &&
            (forall j :: 0 <= j < i ==> Seen(e, cells[1..][j], numText)) &&
            rest.error == UnseenLabel(e.column, Text(cells[1..][i], numText));
          assert !Seen(e, cells[i + 1], numText);
          assert forall j :: 0 <= j < i + 1 ==> Seen(e, cells[j], numText) by {
            forall j | 0 <= j < i + 1 ensures Seen(e, cells[j], numText) {
              if j > 0 {
                assert cells[j] == cells[1..][j - 1];
              }
            }
          }
          Failure(rest.error)
        else
          assert forall i :: 1 <= i < |cells| ==> Seen(e, cells[i], numText) by {
            forall i | 1 <= i < |cells| ensures Seen(e, cells[i], numText) {
              assert cells[i] == cells[1..][i - 1];
            }
          }
          Success([Some(Num(k as real))] + rest.value)
  }

  /** A cell holding a whole number that indexes the classes. */
  predicate IsCode(e: Encoder, c: Cell) {
    c.Some? && c.value.Num? && c.value.x == c.value.x.Floor as real && 0 <= c.value.x.Floor < |e.classes|
  }

  /** `le.inverse_transform`: the class of every code, or None when some cell
      is not a valid code. */
  function InverseTransform(e: Encoder, codes: seq<Cell>): (r: Option<seq<string>>)
    ensures r != None <==> forall i :: 0 <= i < |codes| ==> IsCode(e, codes[i])
    ensures r != None ==> |r.value| == |codes|
  {
    if forall i :: 0 <= i < |codes| ==> IsCode(e, codes[i])
    then Some(seq(|codes|, i requires 0 <= i < |codes| => e.classes[codes[i].value.x.Floor]))
    else None
  }

  /** Every cell as text, as `astype(str)` renders the column. */
  function Texts(cells: seq<Cell>, numText: real -> string): (r: seq<string>)
    ensures |r| == |cells|
    ensures forall i :: 0 <= i < |cells| ==> r[i] == Text(cells[i], numText)
  {
    seq(|cells|, i requires 0 <= i < |cells| => Text(cells[i], numText))
  }

  /** Decoding the codes gives back the text of every cell. */
  lemma EncodeRoundTrip(e: Encoder, cells: seq<Cell>, numText: real -> string)
    requires EncodeColumn(e, cells, numText).Success?
    ensures InverseTransform(e, EncodeColumn(e, cells, numText).value) == Some(Texts(cells, numText))
  {
    var codes := EncodeColumn(e, cells, numText).value;
    forall i | 0 <= i < |codes|
      ensures IsCode(e, codes[i]) && e.classes[codes[i].value.x.Floor] == Text(cells[i], numText)
    {
      var k :| 0 <= k < |e.classes| && codes[i] == Some(Num(k as real)) && e.classes[k] == Text(cells[i], numText);
      assert (k as real).Floor == k;
    }
    var decoded := InverseTransform(e, codes).value;
    assert forall i :: 0 <= i < |codes| ==> decoded[i] == Texts(cells, numText)[i];
    assert decoded == Texts(cells, numText);
  }

  /** With distinct classes, two cells receive the same code exactly when
      they have the same text. */
  lemma EncodeInjective(e: Encoder, cells: seq<Cell>, numText: real -> string, i: nat, j: nat)
    requires Fitted(e) && i < |cells| && j < |cells|
    requires EncodeColumn(e, cells, numText).Success?
    ensures var codes := EncodeColumn(e, cells, numText).value;
      codes[i] == codes[j] <==> Text(cells[i], numText) == Text(cells[j], numText)
  {
    var codes := EncodeColumn(e, cells, numText).value;
    assert Encodes(e, cells[i], numText, codes[i]) && Encodes(e, cells[j], numText, codes[j]);
    var ki :| 0 <= ki < |e.classes| && codes[i] == Some(Num(ki as real)) && e.classes[ki] == Text(cells[i], numText);
    var kj :| 0 <= kj < |e.classes| && codes[j] == Some(Num(kj as real)) && e.classes[kj] == Text(cells[j], numText);
    if Text(cells[i], numText) == Text(cells[j], numText) {
      if ki != kj {
        assert false;
      }
    }
  }

  // ---------------------------------------------------------------------------
  // The whole stage
  // ---------------------------------------------------------------------------

  /** `transform_with_encoders(df, encoders)`: the encoders in dictionary
      order; a column the frame lacks is skipped; the first failing column
      aborts the stage. */
  function Transform(t: Table, encs: seq<Encoder>, numText: real -> string): (r: Result<Table, Error>)
    requires WellFormed(t)
    ensures r.Success? ==> WellFormed(r.value) && r.value.index == t.index && r.value.names == t.names
    decreases |encs|
  {
    if encs == [] then Success(t)
    else
      var e := encs[0];
      if e.column !in t.cols then Transform(t, encs[1..], numText)
      else
        var codes :- EncodeColumn(e, t.cols[e.column], numText);
        Transform(Assign(t, e.column, codes), encs[1..], numText)
  }

  function Columns(encs: seq<Encoder>): (r: set<string>)
    ensures forall c :: c in r <==> exists i :: 0 <= i < |encs| && encs[i].column == c
  {
    set i | 0 <= i < |encs| :: encs[i].column
  }

  /** A column that no encoder names passes through unchanged. */
  lemma {:induction false} TransformKeepsOthers(t: Table, encs: seq<Encoder>, numText: real -> string, c: string)
    requires WellFormed(t) && c in t.cols && c !in Columns(encs)
    requires Transform(t, encs, numText).Success?
    ensures c in Transform(t, encs, numText).value.cols
    ensures Transform(t, encs, numText).value.cols[c] == t.cols[c]
    decreases |encs|
  {
    if encs != [] {
      var e := encs[0];
      assert e.column != c;
      assert Columns(encs[1..]) <= Columns(encs) by {
        forall x | x in Columns(encs[1..]) ensures x in Columns(encs) {
          var i :| 0 <= i < |encs[1..]| && encs[1..][i].column == x;
          assert encs[i + 1].column == x;
        }
      }
      if e.column !in t.cols {
        TransformKeepsOthers(t, encs[1..], numText, c);
      } else {
        var codes := EncodeColumn(e, t.cols[e.column], numText).value;
        TransformKeepsOthers(Assign(t, e.column, codes), encs[1..], numText, c);
      }
    }
  }

  lemma ColumnsTail(encs: seq<Encoder>)
    requires encs != [] && DistinctColumns(encs)
    ensures DistinctColumns(encs[1..]) && encs[0].column !in Columns(encs[1..])
  {
  }

  /** The stage succeeds exactly when every encoded column of the frame
      holds only texts its encoder saw at training time. */
  lemma {:induction false} TransformSucceeds(t: Table, encs: seq<Encoder>, numText: real -> string)
    requires WellFormed(t) && DistinctColumns(encs)
    ensures Transform(t, encs, numText).Success? <==>
      forall k, i :: 0 <= k < |encs| && encs[k].column in t.cols && 0 <= i < |t.index| ==>
        Seen(encs[k], t.cols[encs[k].column][i], numText)
    decreases |encs|
  {
    if encs != [] {
      var e := encs[0];
      ColumnsTail(encs);
      var tail := encs[1..];
      var u := if e.column in t.cols && EncodeColumn(e, t.cols[e.column], numText).Success?
               then Assign(t, e.column, EncodeColumn(e, t.cols[e.column], numText).value) else t;
      if e.column in t.cols && EncodeColumn(e, t.cols[e.column], numText).Failure? {
        assert !Transform(t, encs, numText).Success?;
      } else {
        TransformSucceeds(u, tail, numText);
        forall k | 0 <= k < |tail| && tail[k].column in t.cols
          ensures tail[k].column in u.cols && u.cols[tail[k].column] == t.cols[tail[k].column]
        {
          assert tail[k].column in Columns(tail);
        }
        forall k | 0 <= k < |tail| ensures tail[k].column in u.cols <==> tail[k].column in t.cols {
        }
        assert forall k :: 0 <= k < |tail| ==> tail[k] == encs[k + 1];
      }
    }
  }

  /** On success, every encoded column holds codes that decode to the text of
      the original cells. */
  lemma {:induction false} TransformEncodes(t: Table, encs: seq<Encoder>, numText: real -> string, k: nat)
    requires WellFormed(t) && DistinctColumns(encs) && k < |encs| && encs[k].column in t.cols
    requires Transform(t, encs, numText).Success?
    ensures encs[k].column in Transform(t, encs, numText).value.cols
    ensures var codes := Transform(t, encs, numText).value.cols[encs[k].column];
      && EncodeColumn(encs[k], t.cols[encs[k].column], numText) == Success(codes)
      && InverseTransform(encs[k], codes) == Some(Texts(t.cols[encs[k].column], numText))
    decreases |encs|
  {
    var e := encs[0];
    ColumnsTail(encs);
    if k == 0 {
      var codes := EncodeColumn(e, t.cols[e.column], numText).value;
      TransformKeepsOthers(t, [], numText, e.column);
      TransformKeepsOthers(Assign(t, e.column, codes), encs[1..], numText, e.column);
      EncodeRoundTrip(e, t.cols[e.column], numText);
    } else {
      assert encs[1..][k - 1] == encs[k];
      assert encs[k].column in Columns(encs[1..]);
      if e.column !in t.cols {
        TransformEncodes(t, encs[1..], numText, k - 1);
      } else {
        var codes := EncodeColumn(e, t.cols[e.column], numText).value;
        TransformEncodes(Assign(t, e.column, codes), encs[1..], numText, k - 1);
      }
    }
  }

  // ---------------------------------------------------------------------------
  // The imperative stage
  // ---------------------------------------------------------------------------

  /** One turn of the loop: the rest of the fold is what is left to do. */
  lemma TransformStep(t: Table, encs: seq<Encoder>, i: nat, numText: real -> string)
    requires WellFormed(t) && i < |encs|
    ensures encs[i..][1..] == encs[i + 1..]
    ensures encs[i].column !in t.cols ==>
      Transform(t, encs[i..], numText) == Transform(t, encs[i + 1..], numText)
  {
    assert encs[i..][1..] == encs[i + 1..];
  }

  /** `transform_with_encoders(df, encoders)` on a frame: copies it, then
      replaces each encoded column in place; on an unseen label no frame is
      returned. */
  method TransformWithEncoders(df: Frame, encs: seq<Encoder>, numText: real -> string)
    returns (r: Result<Frame, Error>)
    requires df.Valid()
    ensures r.Success? ==> fresh(r.value) && r.value.Valid()
    ensures Transform(df.View(), encs, numText).Success? <==> r.Success?
    ensures r.Success? ==> r.value.View() == Transform(df.View(), encs, numText).value
    ensures r.Failure? ==> r.error == Transform(df.View(), encs, numText).error
  {
    var out := df.Copy();
    for i := 0 to |encs|
      invariant fresh(out) && out.Valid()
      invariant Transform(out.View(), encs[i..], numText) == Transform(df.View(), encs, numText)
    {
      var e := encs[i];
      TransformStep(out.View(), encs, i, numText);
      if out.Has(e.column) {
        var codes := EncodeColumn(e, out.Column(e.column), numText);
        if codes.Failure? {
          return Failure(codes.error);
        }
        out.Set(e.column, codes.value);
      }
    }
    assert encs[|encs|..] == [];
    r := Success(out);
  }
}
