/** The null handler (`handle_null`, src/handle_null.py).

    It works on a copy of its input. Missing cells of the intervention-type
    columns get fixed defaults (`activity` becomes "unknown"; `steps`,
    `insulin`, `carbs` and `cals` become 0); a column that is absent is not
    created. A missing heart rate becomes the mean heart rate of the rows of
    the same patient, when both `hr` and `p_num` exist.
 */
module NullHandling {
  import opened Tables
  import Features

  /** The default-filled columns, in the order the source fills them. */
  const DefaultNames: seq<string> := ["activity", "steps", "insulin", "carbs", "cals"]

  /** The default of a default-filled column. */
  function DefaultFor(name: string): Value {
    if name == "activity" then Str("unknown") else Num(0.0)
  }

  /** `fillna(d)`: missing cells become d, present cells stay. */
  function FillMissing(cells: seq<Cell>, d: Value): (r: seq<Cell>)
    ensures |r| == |cells|
    ensures forall i :: 0 <= i < |cells| ==> r[i] == if cells[i] == None then Some(d) else cells[i]
  {
    seq(|cells|, i requires 0 <= i < |cells| => if cells[i] == None then Some(d) else cells[i])
  }

  /** The table after the default columns listed in ds have been filled. */
  function FilledUpTo(t: Table, ds: seq<string>): (r: Table)
    requires WellFormed(t)
    ensures WellFormed(r) && r.index == t.index && r.names == t.names
    ensures forall n :: n in t.cols && n !in ds ==> r.cols[n] == t.cols[n]
  {
    Table(t.index, t.names,
          map n | n in t.cols :: if n in ds then FillMissing(t.cols[n], DefaultFor(n)) else t.cols[n])
  }

  // ---------------------------------------------------------------------------
  // Group-mean imputation of the heart rate
  // ---------------------------------------------------------------------------

  /** The heart rates present in the rows whose patient is `key`. */
  function GroupValues(hr: seq<Cell>, pnum: seq<Cell>, key: Value): (xs: seq<real>)
    requires |hr| == |pnum|
    ensures forall x :: x in xs <==>
      exists j :: 0 <= j < |hr| && pnum[j] == Some(key) && hr[j] == Some(Num(x))
  {
    if hr == [] then []
    else
      var rest := GroupValues(hr[1..], pnum[1..], key);
      assert forall x :: x in rest <==>
        exists j :: 1 <= j < |hr| && pnum[j] == Some(key) && hr[j] == Some(Num(x)) by {
        forall x | x in rest ensures exists j :: 1 <= j < |hr| && pnum[j] == Some(key) && hr[j] == Some(Num(x)) {
          var j :| 0 <= j < |hr| - 1 && pnum[1..][j] == Some(key) && hr[1..][j] == Some(Num(x));
          assert pnum[j + 1] == Some(key) && hr[j + 1] == Some(Num(x));
        }
        forall x, j | 1 <= j < |hr| && pnum[j] == Some(key) && hr[j] == Some(Num(x)) ensures x in rest {
          assert pnum[1..][j - 1] == Some(key) && hr[1..][j - 1] == Some(Num(x));
        }
      }
      (if pnum[0] == Some(key) && hr[0].Some? && hr[0].value.Num? then [hr[0].value.x] else []) + rest
  }

  /** The heart-rate column with every row of another patient blanked out. */
  function Masked(hr: seq<Cell>, pnum: seq<Cell>, key: Value): (m: seq<Cell>)
    requires |hr| == |pnum|
    ensures |m| == |hr|
    ensures forall j :: 0 <= j < |hr| ==> m[j] == if pnum[j] == Some(key) then hr[j] else None
  {
    seq(|hr|, j requires 0 <= j < |hr| => if pnum[j] == Some(key) then hr[j] else None)
  }

  /** A patient's group is the row-mean input of the masked column. */
  lemma {:induction false} GroupValuesMasked(hr: seq<Cell>, pnum: seq<Cell>, key: Value)
    requires |hr| == |pnum|
    ensures GroupValues(hr, pnum, key) == Features.PresentNumbers(Masked(hr, pnum, key))
  {
    if hr != [] {
      GroupValuesMasked(hr[1..], pnum[1..], key);
      var m := Masked(hr, pnum, key);
      assert m[1..] == Masked(hr[1..], pnum[1..], key);
      assert m[0] == if pnum[0] == Some(key) then hr[0] else None;
    }
  }

  /** A patient's group holds every heart rate of that patient's rows, each
      as often as it occurs. */
  lemma GroupValuesCount(hr: seq<Cell>, pnum: seq<Cell>, key: Value)
    requires |hr| == |pnum|
    ensures forall x :: multiset(GroupValues(hr, pnum, key))[x] == multiset(Masked(hr, pnum, key))[Some(Num(x))]
  {
    GroupValuesMasked(hr, pnum, key);
    Features.PresentNumbersCount(Masked(hr, pnum, key));
  }

  /** `df.groupby('p_num')['hr'].transform('mean')` at a row whose patient is
      `key`: missing for a missing patient (groupby drops it) or a patient
      without any heart rate. */
  function GroupMean(hr: seq<Cell>, pnum: seq<Cell>, key: Cell): (m: Cell)
    requires |hr| == |pnum|
    ensures key == None ==> m == None
    ensures m == None || m.value.Num?
  {
    if key == None then None
    else
      var xs := GroupValues(hr, pnum, key.value);
      if xs == [] then None else Some(Num(Features.Mean(xs)))
  }

  /** No heart rate of a row that has a patient is a string. Rows without a
      patient are dropped by `groupby` before any mean is taken. */
  predicate GroupsNumeric(hr: seq<Cell>, pnum: seq<Cell>)
    requires |hr| == |pnum|
  {
    forall i :: 0 <= i < |hr| && pnum[i] != None ==> !Features.IsString(hr[i])
  }

  /** `df['hr'].fillna(group means)`; a string heart rate in a patient's row
      makes that group's mean raise, and the handler then leaves `hr` as it
      was. */
  function FillHr(hr: seq<Cell>, pnum: seq<Cell>): (r: seq<Cell>)
    requires |hr| == |pnum|
    ensures |r| == |hr|
    ensures forall i :: 0 <= i < |hr| && hr[i] != None ==> r[i] == hr[i]
  {
    if GroupsNumeric(hr, pnum)
    then seq(|hr|, i requires 0 <= i < |hr| => if hr[i] == None then GroupMean(hr, pnum, pnum[i]) else hr[i])
    else hr
  }

  /** The heart-rate step, applied when both `hr` and `p_num` exist. */
  function ImputeHr(d: Table): (r: Table)
    requires WellFormed(d)
    ensures WellFormed(r) && r.index == d.index && r.names == d.names
    ensures forall n :: n in d.cols && n != "hr" ==> r.cols[n] == d.cols[n]
  {
    if "hr" in d.cols && "p_num" in d.cols
    then Table(d.index, d.names, d.cols["hr" := FillHr(d.cols["hr"], d.cols["p_num"])])
    else d
  }

  /** What `handle_null` returns for the input table t. */
  function FillNulls(t: Table): (r: Table)
    requires WellFormed(t)
    ensures WellFormed(r) && r.index == t.index && r.names == t.names
  {
    ImputeHr(FilledUpTo(t, DefaultNames))
  }

  // ---------------------------------------------------------------------------
  // Properties of the handler
  // ---------------------------------------------------------------------------

  /** A default-filled column has no missing cell left: a missing cell gets
      the column's default ("unknown" for activity, 0 otherwise) and a
      present cell is kept. */
  lemma DefaultsFilled(t: Table, n: string, i: nat)
    requires WellFormed(t) && n in DefaultNames && n in t.cols && i < |t.index|
    ensures n in FillNulls(t).cols && |FillNulls(t).cols[n]| == |t.index|
    ensures FillNulls(t).cols[n][i] != None
    ensures t.cols[n][i] != None ==> FillNulls(t).cols[n][i] == t.cols[n][i]
    ensures t.cols[n][i] == None ==>
      FillNulls(t).cols[n][i] == Some(if n == "activity" then Str("unknown") else Num(0.0))
  {
  }

  /** A default column that is absent stays absent. */
  lemma AbsentDefaultNotCreated(t: Table, n: string)
    requires WellFormed(t) && n !in t.cols
    ensures n !in FillNulls(t).cols
  {
  }

  /** Every column other than the defaults and `hr` is passed through. */
  lemma OtherColumnsUntouched(t: Table, n: string)
    requires WellFormed(t) && n in t.cols && n !in DefaultNames && n != "hr"
    ensures n in FillNulls(t).cols && FillNulls(t).cols[n] == t.cols[n]
  {
  }

  /** Without `p_num`, or with a string heart rate in a row that has a
      patient, the heart rate is left exactly as it was. */
  lemma HrUntouched(t: Table)
    requires WellFormed(t) && "hr" in t.cols
    requires "p_num" !in t.cols || !GroupsNumeric(t.cols["hr"], t.cols["p_num"])
    ensures "hr" in FillNulls(t).cols && FillNulls(t).cols["hr"] == t.cols["hr"]
  {
  }

  /** The heart rates of patient `key` are exactly the values listed by
      GroupValues, so GroupMean is missing exactly when that patient has no
      heart rate at all. */
  lemma GroupMeanMissing(hr: seq<Cell>, pnum: seq<Cell>, key: Value)
    requires |hr| == |pnum| && GroupsNumeric(hr, pnum)
    ensures GroupMean(hr, pnum, Some(key)) == None <==>
      forall j :: 0 <= j < |hr| && pnum[j] == Some(key) ==> hr[j] == None
  {
    var xs := GroupValues(hr, pnum, key);
    if xs != [] {
      assert xs[0] in xs;
      var j :| 0 <= j < |hr| && pnum[j] == Some(key) && hr[j] == Some(Num(xs[0]));
    }
  }

  /** The imputed heart rate lies between the lowest and the highest heart
      rate recorded for that patient. */
  lemma GroupMeanBounds(hr: seq<Cell>, pnum: seq<Cell>, key: Value, lo: real, hi: real)
    requires |hr| == |pnum|
    requires forall j, x :: 0 <= j < |hr| && pnum[j] == Some(key) && hr[j] == Some(Num(x)) ==> lo <= x <= hi
    ensures GroupMean(hr, pnum, Some(key)) == None || GroupMean(hr, pnum, Some(key)).value.Num?
    ensures GroupMean(hr, pnum, Some(key)) != None ==>
      lo <= GroupMean(hr, pnum, Some(key)).value.x <= hi
  {
    var xs := GroupValues(hr, pnum, key);
    if xs != [] {
      Features.MeanBounds(xs, lo, hi);
    }
  }

  /** With `hr` and `p_num` present and no string heart rate in a row with a
      patient, a present heart
      rate is kept, a missing one becomes its patient's mean, and a heart
      rate stays missing exactly when the patient is missing or has no heart
      rate in any row. */
  lemma HrImputed(t: Table, i: nat)
    requires WellFormed(t) && "hr" in t.cols && "p_num" in t.cols && i < |t.index|
    requires GroupsNumeric(t.cols["hr"], t.cols["p_num"])
    ensures "hr" in FillNulls(t).cols && |FillNulls(t).cols["hr"]| == |t.index|
    ensures var hr, pnum := t.cols["hr"], t.cols["p_num"];
      && (hr[i] != None ==> FillNulls(t).cols["hr"][i] == hr[i])
      && (hr[i] == None ==> FillNulls(t).cols["hr"][i] == GroupMean(hr, pnum, pnum[i]))
      && (FillNulls(t).cols["hr"][i] == None <==>
            hr[i] == None &&
            (pnum[i] == None || forall j :: 0 <= j < |hr| && pnum[j] == pnum[i] ==> hr[j] == None))
  {
    var hr, pnum := t.cols["hr"], t.cols["p_num"];
    var d := FilledUpTo(t, DefaultNames);
    assert "hr" !in DefaultNames && "p_num" !in DefaultNames;
    assert d.cols["hr"] == hr && d.cols["p_num"] == pnum;
    assert FillNulls(t).cols["hr"] == FillHr(hr, pnum);
    if pnum[i] != None {
      GroupMeanMissing(hr, pnum, pnum[i].value);
    }
  }

  /** The one patient of the example below has the heart rate 70 only. */
  lemma UnassignedStringGroup()
    ensures GroupValues([Some(Str("x")), None, Some(Num(70.0))], [None, Some(Num(1.0)), Some(Num(1.0))], Num(1.0))
         == [70.0]
  {
    var e: seq<Cell> := [];
    var h1: seq<Cell>, p1: seq<Cell> := [Some(Num(70.0))], [Some(Num(1.0))];
    var h2: seq<Cell>, p2: seq<Cell> := [None] + h1, [Some(Num(1.0))] + p1;
    var h3: seq<Cell>, p3: seq<Cell> := [Some(Str("x"))] + h2, [None] + p2;
    assert h1[1..] == e && p1[1..] == e;
    assert GroupValues(h1, p1, Num(1.0)) == [70.0] + GroupValues(e, e, Num(1.0));
    assert h2[1..] == h1 && p2[1..] == p1;
    assert GroupValues(h2, p2, Num(1.0)) == [] + GroupValues(h1, p1, Num(1.0));
    assert h3[1..] == h2 && p3[1..] == p2;
    assert GroupValues(h3, p3, Num(1.0)) == [] + GroupValues(h2, p2, Num(1.0));
    assert h3 == [Some(Str("x")), None, Some(Num(70.0))] && p3 == [None, Some(Num(1.0)), Some(Num(1.0))];
  }

  /** That patient's mean is therefore 70. */
  lemma UnassignedStringMean()
    ensures GroupMean([Some(Str("x")), None, Some(Num(70.0))], [None, Some(Num(1.0)), Some(Num(1.0))], Some(Num(1.0)))
         == Some(Num(70.0))
  {
    UnassignedStringGroup();
    assert Features.Sum([70.0]) == 70.0 by {
      assert [70.0][..0] == [];
    }
  }

  /** A string heart rate in a row without a patient does not stop the
      imputation: groupby drops that row before taking any mean. */
  lemma UnassignedStringIgnored()
    ensures FillHr([Some(Str("x")), None, Some(Num(70.0))], [None, Some(Num(1.0)), Some(Num(1.0))])
         == [Some(Str("x")), Some(Num(70.0)), Some(Num(70.0))]
  {
    var hr: seq<Cell> := [Some(Str("x")), None, Some(Num(70.0))];
    var pnum: seq<Cell> := [None, Some(Num(1.0)), Some(Num(1.0))];
    assert GroupsNumeric(hr, pnum) by {
      forall i | 0 <= i < |hr| && pnum[i] != None ensures !Features.IsString(hr[i]) {
        assert i == 1 || i == 2;
      }
    }
    UnassignedStringMean();
    var r := FillHr(hr, pnum);
    assert r[1] == GroupMean(hr, pnum, pnum[1]);
    assert r == [hr[0], r[1], hr[2]];
  }

  lemma FillMissingTwice(cells: seq<Cell>, d: Value)
    ensures FillMissing(FillMissing(cells, d), d) == FillMissing(cells, d)
  {
  }

  /** Imputing the heart rate a second time changes nothing: a row left
      missing belongs to a patient with no heart rate, and the first pass
      gave that patient none. */
  lemma FillHrTwice(hr: seq<Cell>, pnum: seq<Cell>)
    requires |hr| == |pnum|
    ensures FillHr(FillHr(hr, pnum), pnum) == FillHr(hr, pnum)
  {
    var h := FillHr(hr, pnum);
    if GroupsNumeric(hr, pnum) {
      assert GroupsNumeric(h, pnum) by {
        forall i | 0 <= i < |h| && pnum[i] != None ensures !Features.IsString(h[i]) {
          if hr[i] == None {
            var key := pnum[i];
            if key != None {
              var xs := GroupValues(hr, pnum, key.value);
            }
          }
        }
      }
      forall i | 0 <= i < |h| && h[i] == None
        ensures GroupMean(h, pnum, pnum[i]) == None
      {
        var key := pnum[i];
        if key != None {
          var xs := GroupValues(hr, pnum, key.value);
          assert xs == [];
          var ys := GroupValues(h, pnum, key.value);
          if ys != [] {
            var j :| 0 <= j < |h| && pnum[j] == key && h[j] == Some(Num(ys[0]));
            assert false;
          }
        }
      }
      assert FillHr(h, pnum) == h;
    }
  }

  lemma FilledTwice(t: Table, ds: seq<string>)
    requires WellFormed(t)
    ensures WellFormed(FilledUpTo(t, ds))
    ensures FilledUpTo(FilledUpTo(t, ds), ds) == FilledUpTo(t, ds)
  {
    var u := FilledUpTo(t, ds);
    forall n | n in ds && n in u.cols ensures FillMissing(u.cols[n], DefaultFor(n)) == u.cols[n] {
      FillMissingTwice(t.cols[n], DefaultFor(n));
    }
    assert FilledUpTo(u, ds).cols == u.cols;
  }

  /** Filling defaults and imputing the heart rate commute, since neither
      `hr` nor `p_num` has a default. */
  lemma FillCommutes(d: Table, ds: seq<string>)
    requires WellFormed(d) && "hr" !in ds && "p_num" !in ds
    ensures WellFormed(ImputeHr(d)) && WellFormed(FilledUpTo(d, ds))
    ensures FilledUpTo(ImputeHr(d), ds) == ImputeHr(FilledUpTo(d, ds))
  {
    if "hr" in d.cols && "p_num" in d.cols {
      var f := FilledUpTo(d, ds);
      assert f.cols["hr"] == d.cols["hr"] && f.cols["p_num"] == d.cols["p_num"];
      var a, b := FilledUpTo(ImputeHr(d), ds), ImputeHr(f);
      forall n | n in a.cols ensures n in b.cols && a.cols[n] == b.cols[n] {
      }
      assert a.cols == b.cols;
    }
  }

  lemma ImputeTwice(d: Table)
    requires WellFormed(d)
    ensures WellFormed(ImputeHr(d)) && ImputeHr(ImputeHr(d)) == ImputeHr(d)
  {
    if "hr" in d.cols && "p_num" in d.cols {
      FillHrTwice(d.cols["hr"], d.cols["p_num"]);
      var u := ImputeHr(d);
      assert u.cols["hr" := FillHr(u.cols["hr"], u.cols["p_num"])] == u.cols;
    }
  }

  /** Handling the nulls of a table the handler already returned changes
      nothing. */
  lemma {:induction false} FillNullsIdempotent(t: Table)
    requires WellFormed(t)
    ensures WellFormed(FillNulls(t)) && FillNulls(FillNulls(t)) == FillNulls(t)
  {
    var d := FilledUpTo(t, DefaultNames);
    FilledTwice(t, DefaultNames);
    FillCommutes(d, DefaultNames);
    ImputeTwice(d);
  }

  // ---------------------------------------------------------------------------
  // The imperative handler
  // ---------------------------------------------------------------------------

  /** One turn of the loop over the defaults. */
  lemma FillStep(t: Table, ds: seq<string>, c: string)
    requires WellFormed(t) && c !in ds && c in t.cols
    ensures WellFormed(FilledUpTo(t, ds)) && FilledUpTo(t, ds).cols[c] == t.cols[c]
    ensures FilledUpTo(t, ds + [c]) ==
      Assign(FilledUpTo(t, ds), c, FillMissing(t.cols[c], DefaultFor(c)))
  {
    var before, after := FilledUpTo(t, ds), FilledUpTo(t, ds + [c]);
    assert after.cols == before.cols[c := FillMissing(t.cols[c], DefaultFor(c))];
  }

  lemma FillSkip(t: Table, ds: seq<string>, c: string)
    requires WellFormed(t) && c !in t.cols
    ensures FilledUpTo(t, ds + [c]) == FilledUpTo(t, ds)
  {
  }

  /** One turn of the loop over the defaults: column `ds[i]`, when present,
      gets its missing cells filled. */
  method FillDefault(out: Frame, ghost t: Table, ds: seq<string>, i: nat)
    requires WellFormed(t) && Distinct(ds) && i < |ds|
    requires out.Valid() && out.View() == FilledUpTo(t, ds[..i])
    modifies out
    ensures out.Valid() && out.View() == FilledUpTo(t, ds[..i + 1])
  {
    var col := ds[i];
    assert ds[..i] + [col] == ds[..i + 1];
    assert col !in ds[..i];
    if out.Has(col) {
      FillStep(t, ds[..i], col);
      out.Set(col, FillMissing(out.Column(col), DefaultFor(col)));
    } else {
      FillSkip(t, ds[..i], col);
    }
  }

  /** The loop of `handle_null` over its defaults, on the working copy. */
  method FillDefaults(out: Frame, ds: seq<string>)
    requires out.Valid() && Distinct(ds)
    modifies out
    ensures out.Valid() && out.View() == FilledUpTo(old(out.View()), ds)
  {
    ghost var t := out.View();
    assert out.View() == FilledUpTo(t, ds[..0]);
    for i := 0 to |ds|
      invariant out.Valid() && out.View() == FilledUpTo(t, ds[..i])
    {
      FillDefault(out, t, ds, i);
    }
    assert ds[..|ds|] == ds;
  }

  /** `handle_null(df)`: copies the frame, fills the defaults column by
      column, then imputes the heart rate; the input frame is only read. */
  method HandleNull(df: Frame) returns (out: Frame)
    requires df.Valid()
    ensures fresh(out) && out.Valid()
    ensures out.View() == FillNulls(df.View())
  {
    out := df.Copy();
    FillDefaults(out, DefaultNames);
    if out.Has("hr") && out.Has("p_num") {
      out.Set("hr", FillHr(out.Column("hr"), out.Column("p_num")));
    }
  }
}
