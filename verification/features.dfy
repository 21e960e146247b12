/** The column reducer (`reduce_cols`, src/features.py).

    Every signal family (`bg`, `insulin`, ...) may be recorded at several time
    offsets, one column per offset, all sharing the family's name as a prefix.
    The reducer collapses each family that has at least one column into a
    single column named after the family: a row-wise mean for the numeric
    families and a row-wise mode for `activity`. The label and identifier
    columns `bg+1:00`, `p_num` and `time` are copied through; every other
    column is dropped.
 */
module Features {
  import opened Tables

  /** The family prefixes, in the order their columns are emitted. */
  const Prefixes: seq<string> := ["bg", "insulin", "carbs", "hr", "steps", "cals", "activity"]

  /** The columns copied through unchanged, emitted after the families. */
  const Targets: seq<string> := ["bg+1:00", "p_num", "time"]

  lemma FixedNamesDistinct()
    ensures Distinct(Prefixes) && Distinct(Targets)
    ensures forall n :: n in Prefixes ==> n !in Targets
  {
  }

  predicate StartsWith(name: string, prefix: string) {
    |prefix| <= |name| && name[..|prefix|] == prefix
  }

  /** The columns a prefix selects, in column order. */
  function Matching(names: seq<string>, prefix: string): (r: seq<string>)
    ensures forall n :: n in r <==> n in names && StartsWith(n, prefix)
    ensures Distinct(names) ==> Distinct(r)
  {
    if names == [] then []
    else
      assert Distinct(names) ==> names[0] !in names[1..] && Distinct(names[1..]);
      (if StartsWith(names[0], prefix) then [names[0]] else []) + Matching(names[1..], prefix)
  }

  /** Matching keeps the selected columns in column order. */
  lemma {:induction false} MatchingInOrder(names: seq<string>, prefix: string)
    ensures Subseq(Matching(names, prefix), names)
  {
    if names != [] {
      var rest := Matching(names[1..], prefix);
      MatchingInOrder(names[1..], prefix);
      SubseqCons(rest, names[1..], names[0]);
      assert names == [names[0]] + names[1..];
      assert [] + rest == rest;
    }
  }

  /** Some column of t starts with the prefix. */
  predicate HasFamily(t: Table, prefix: string) {
    exists n :: n in t.names && StartsWith(n, prefix)
  }

  lemma MatchingNonEmpty(t: Table, prefix: string)
    ensures Matching(t.names, prefix) != [] <==> HasFamily(t, prefix)
  {
    var m := Matching(t.names, prefix);
    if m != [] {
      assert m[0] in m;
    }
  }

  /** `a` is `b` with some elements deleted, the rest kept in order. */
  predicate Subseq(a: seq<string>, b: seq<string>) {
    if a == [] then true
    else if b == [] then false
    else (a[|a| - 1] == b[|b| - 1] && Subseq(a[..|a| - 1], b[..|b| - 1])) || Subseq(a, b[..|b| - 1])
  }

  /** Putting the same element in front of both sides keeps a subsequence,
      and so does putting one in front of the longer side only. */
  lemma {:induction false} SubseqCons(a: seq<string>, b: seq<string>, x: string)
    requires Subseq(a, b)
    ensures Subseq(a, [x] + b) && Subseq([x] + a, [x] + b)
    decreases |b|
  {
    if b == [] {
      assert a == [];
      assert ([x] + a)[..0] == [];
    } else if a == [] {
      SubseqCons(a, b[..|b| - 1], x);
      assert ([x] + b)[..|b|] == [x] + b[..|b| - 1];
    } else {
      var a', b' := a[..|a| - 1], b[..|b| - 1];
      assert ([x] + b)[..|b|] == [x] + b';
      assert ([x] + a)[..|a|] == [x] + a';
      if a[|a| - 1] == b[|b| - 1] && Subseq(a', b') {
        SubseqCons(a', b', x);
      } else {
        SubseqCons(a, b', x);
      }
    }
  }

  predicate IsString(c: Cell) {
    c.Some? && c.value.Str?
  }

  // ---------------------------------------------------------------------------
  // Row-wise mean of a numeric family
  // ---------------------------------------------------------------------------

  /** The numbers present in a row, in column order (`skipna=True`). */
  function PresentNumbers(cells: seq<Cell>): (r: seq<real>)
    ensures forall x :: x in r <==> Some(Num(x)) in cells
  {
    if cells == [] then []
    else
      (if cells[0].Some? && cells[0].value.Num? then [cells[0].value.x] else [])
      + PresentNumbers(cells[1..])
  }

  /** Each number is averaged as often as it occurs in the row. */
  lemma {:induction false} PresentNumbersCount(cells: seq<Cell>)
    ensures forall x :: multiset(PresentNumbers(cells))[x] == multiset(cells)[Some(Num(x))]
  {
    if cells != [] {
      PresentNumbersCount(cells[1..]);
      assert cells == [cells[0]] + cells[1..];
    }
  }

  function Sum(xs: seq<real>): real {
    if xs == [] then 0.0 else Sum(xs[..|xs| - 1]) + xs[|xs| - 1]
  }

  function Mean(xs: seq<real>): real
    requires xs != []
  {
    Sum(xs) / (|xs| as real)
  }

  lemma {:induction false} SumBounds(xs: seq<real>, lo: real, hi: real)
    requires forall x :: x in xs ==> lo <= x <= hi
    ensures lo * (|xs| as real) <= Sum(xs) <= hi * (|xs| as real)
  {
    if xs != [] {
      var init := xs[..|xs| - 1];
      assert forall x :: x in init ==> x in xs;
      SumBounds(init, lo, hi);
      assert xs[|xs| - 1] in xs;
      assert Sum(xs) == Sum(init) + xs[|xs| - 1];
      assert lo * (|xs| as real) == lo * (|init| as real) + lo;
      assert hi * (|xs| as real) == hi * (|init| as real) + hi;
    }
  }

  /** The mean lies between any lower and upper bound of the averaged values. */
  lemma MeanBounds(xs: seq<real>, lo: real, hi: real)
    requires xs != []
    requires forall x :: x in xs ==> lo <= x <= hi
    ensures lo <= Mean(xs) <= hi
  {
    SumBounds(xs, lo, hi);
    var n := |xs| as real;
    assert Mean(xs) * n == Sum(xs);
  }

  /** `mean(axis=1, skipna=True)` on one row: missing when nothing is present. */
  function RowMean(cells: seq<Cell>): (m: Cell)
    ensures m == None <==> forall k :: 0 <= k < |cells| ==> !(cells[k].Some? && cells[k].value.Num?)
    ensures m.Some? ==> m.value.Num?
  {
    var xs := PresentNumbers(cells);
    assert xs == [] <==> forall k :: 0 <= k < |cells| ==> !(cells[k].Some? && cells[k].value.Num?) by {
      forall k | 0 <= k < |cells| && cells[k].Some? && cells[k].value.Num? ensures cells[k].value.x in xs {
        assert Some(Num(cells[k].value.x)) in cells;
      }
      if xs != [] {
        assert Some(Num(xs[0])) in cells;
      }
    }
    if xs == [] then None else Some(Num(Mean(xs)))
  }

  // ---------------------------------------------------------------------------
  // Row-wise mode of the activity family
  // ---------------------------------------------------------------------------

  /** Lexicographic order on strings, by code point (Python's `<=` on str). */
  predicate StrLe(a: string, b: string) {
    a == [] || (b != [] && (a[0] < b[0] || (a[0] == b[0] && StrLe(a[1..], b[1..]))))
  }

  /** The order in which the row's modes are sorted: numbers by value, then
      strings lexicographically. When the modes mix numbers and strings,
      pandas' sort falls back to putting every number before every string. */
  predicate ValueLe(a: Value, b: Value) {
    match (a, b)
    case (Num(x), Num(y)) => x <= y
    case (Num(_), Str(_)) => true
    case (Str(_), Num(_)) => false
    case (Str(s), Str(u)) => StrLe(s, u)
  }

  lemma {:induction false} StrLeTotal(a: string, b: string)
    ensures StrLe(a, b) || StrLe(b, a)
  {
    if a != [] && b != [] && a[0] == b[0] {
      StrLeTotal(a[1..], b[1..]);
    }
  }

  lemma {:induction false} StrLeTransitive(a: string, b: string, c: string)
    requires StrLe(a, b) && StrLe(b, c)
    ensures StrLe(a, c)
  {
    if a != [] && b != [] && c != [] && a[0] == b[0] == c[0] {
      StrLeTransitive(a[1..], b[1..], c[1..]);
    }
  }

  lemma {:induction false} StrLeAntisymmetric(a: string, b: string)
    requires StrLe(a, b) && StrLe(b, a)
    ensures a == b
  {
    if a != [] && b != [] {
      StrLeAntisymmetric(a[1..], b[1..]);
      assert a == [a[0]] + a[1..] && b == [b[0]] + b[1..];
    }
  }

  lemma ValueLeIsTotalOrder()
    ensures forall a, b :: ValueLe(a, b) || ValueLe(b, a)
    ensures forall a, b :: ValueLe(a, b) && ValueLe(b, a) ==> a == b
    ensures forall a, b, c :: ValueLe(a, b) && ValueLe(b, c) ==> ValueLe(a, c)
  {
    forall a, b ensures ValueLe(a, b) || ValueLe(b, a) {
      if a.Str? && b.Str? { StrLeTotal(a.s, b.s); }
    }
    forall a, b | ValueLe(a, b) && ValueLe(b, a) ensures a == b {
      if a.Str? && b.Str? { StrLeAntisymmetric(a.s, b.s); }
    }
    forall a, b, c | ValueLe(a, b) && ValueLe(b, c) ensures ValueLe(a, c) {
      if a.Str? && b.Str? && c.Str? { StrLeTransitive(a.s, b.s, c.s); }
    }
  }

  /** The present values of a row, in column order (`dropna=True`). */
  function PresentValues(cells: seq<Cell>): (r: seq<Value>)
    ensures forall v :: v in r <==> Some(v) in cells
  {
    if cells == [] then []
    else (if cells[0].Some? then [cells[0].value] else []) + PresentValues(cells[1..])
  }

  /** Each value is counted as often as it occurs in the row. */
  lemma {:induction false} PresentValuesCount(cells: seq<Cell>)
    ensures forall v :: multiset(PresentValues(cells))[v] == multiset(cells)[Some(v)]
  {
    if cells != [] {
      PresentValuesCount(cells[1..]);
      assert cells == [cells[0]] + cells[1..];
    }
  }

  /** Among the candidates, a value occurring most often in `vals`; of several
      equally frequent ones, the least (column 0 of pandas' sorted modes). */
  function MostFrequent(vals: seq<Value>, cand: seq<Value>): (r: Value)
    requires cand != []
    ensures r in cand
    ensures forall v :: v in cand ==> multiset(vals)[v] <= multiset(vals)[r]
    ensures forall v :: v in cand && multiset(vals)[v] == multiset(vals)[r] ==> ValueLe(r, v)
  {
    ValueLeIsTotalOrder();
    if |cand| == 1 then cand[0]
    else
      var best := MostFrequent(vals, cand[1..]);
      var c := cand[0];
      assert forall v :: v in cand ==> v == c || v in cand[1..];
      if multiset(vals)[c] > multiset(vals)[best]
         || (multiset(vals)[c] == multiset(vals)[best] && ValueLe(c, best))
      then c
      else best
  }

  /** `mode(axis=1).iloc[:, 0]` on one row: missing when nothing is present. */
  function RowMode(cells: seq<Cell>): (m: Cell)
    ensures m == None <==> forall k :: 0 <= k < |cells| ==> cells[k] == None
    ensures m.Some? ==> m in cells
  {
    var vs := PresentValues(cells);
    assert vs != [] ==> vs[0] in vs;
    if vs == [] then None else Some(MostFrequent(vs, vs))
  }

  // ---------------------------------------------------------------------------
  // Family columns and the reduced table
  // ---------------------------------------------------------------------------

  /** Row r of the table restricted to the columns cs. */
  function RowCells(t: Table, cs: seq<string>, r: nat): (cells: seq<Cell>)
    requires WellFormed(t) && r < |t.index|
    requires forall c :: c in cs ==> c in t.cols
    ensures |cells| == |cs|
    ensures forall k :: 0 <= k < |cs| ==> cells[k] == t.cols[cs[k]][r]
  {
    seq(|cs|, k requires 0 <= k < |cs| => t.cols[cs[k]][r])
  }

  predicate NumericOnly(t: Table, cs: seq<string>)
    requires WellFormed(t)
    requires forall c :: c in cs ==> c in t.cols
  {
    forall c, r :: c in cs && 0 <= r < |t.index| ==> !IsString(t.cols[c][r])
  }

  /** `df[cs].mean(axis=1, skipna=True)`; a string cell makes pandas raise,
      and the handler then stores an all-missing column. */
  function MeanColumn(t: Table, cs: seq<string>): (col: seq<Cell>)
    requires WellFormed(t)
    requires forall c :: c in cs ==> c in t.cols
    ensures |col| == |t.index|
  {
    if NumericOnly(t, cs) then seq(|t.index|, r requires 0 <= r < |t.index| => RowMean(RowCells(t, cs, r)))
    else seq(|t.index|, r => None)
  }

  /** `df[cs].mode(axis=1).iloc[:, 0]`. */
  function ModeColumn(t: Table, cs: seq<string>): (col: seq<Cell>)
    requires WellFormed(t)
    requires forall c :: c in cs ==> c in t.cols
    ensures |col| == |t.index|
  {
    seq(|t.index|, r requires 0 <= r < |t.index| => RowMode(RowCells(t, cs, r)))
  }

  /** The column the reducer stores for a family prefix. */
  function FamilyColumn(t: Table, prefix: string): (col: seq<Cell>)
    requires WellFormed(t)
    ensures |col| == |t.index|
  {
    var cs := Matching(t.names, prefix);
    if prefix == "activity" then ModeColumn(t, cs) else MeanColumn(t, cs)
  }

  /** The prefixes of ps that select at least one column, in the order of ps. */
  function Found(t: Table, ps: seq<string>): (r: seq<string>)
    ensures forall p :: p in r <==> p in ps && HasFamily(t, p)
    ensures Distinct(ps) ==> Distinct(r)
  {
    if ps == [] then []
    else
      var init := ps[..|ps| - 1];
      var last := ps[|ps| - 1];
      assert forall p :: p in ps <==> p in init || p == last;
      assert Distinct(ps) ==> Distinct(init) && last !in init;
      Found(t, init) + (if HasFamily(t, last) then [last] else [])
  }

  /** The names of ns that are columns of t, in the order of ns. */
  function Present(t: Table, ns: seq<string>): (r: seq<string>)
    ensures forall n :: n in r <==> n in ns && n in t.cols
    ensures Distinct(ns) ==> Distinct(r)
  {
    if ns == [] then []
    else
      var init := ns[..|ns| - 1];
      var last := ns[|ns| - 1];
      assert forall n :: n in ns <==> n in init || n == last;
      assert Distinct(ns) ==> Distinct(init) && last !in init;
      Present(t, init) + (if last in t.cols then [last] else [])
  }

  lemma SubseqExtend(a: seq<string>, b: seq<string>, e: string)
    requires Subseq(a, b)
    ensures Subseq(a, b + [e]) && Subseq(a + [e], b + [e])
  {
    assert (b + [e])[..|b|] == b;
    assert (a + [e])[..|a|] == a;
  }

  /** Found and Present keep the order of the list they filter. */
  lemma {:induction false} FilterKeepsOrder(t: Table, ns: seq<string>)
    ensures Subseq(Found(t, ns), ns) && Subseq(Present(t, ns), ns)
  {
    if ns != [] {
      var init := ns[..|ns| - 1];
      var last := ns[|ns| - 1];
      assert ns == init + [last];
      FilterKeepsOrder(t, init);
      SubseqExtend(Found(t, init), init, last);
      SubseqExtend(Present(t, init), init, last);
      assert Found(t, ns) == Found(t, init) + (if HasFamily(t, last) then [last] else []);
      assert Present(t, ns) == Present(t, init) + (if last in t.cols then [last] else []);
      if HasFamily(t, last) {
        assert Subseq(Found(t, ns), ns);
      } else {
        assert Found(t, init) + [] == Found(t, init);
        assert Subseq(Found(t, ns), ns);
      }
      if last in t.cols {
        assert Subseq(Present(t, ns), ns);
      } else {
        assert Present(t, init) + [] == Present(t, init);
        assert Subseq(Present(t, ns), ns);
      }
    }
  }

  /** The family column of every prefix. */
  function Families(t: Table): (fc: map<string, seq<Cell>>)
    requires WellFormed(t)
    ensures forall p :: p in Prefixes ==> p in fc && fc[p] == FamilyColumn(t, p)
  {
    map p | p in Prefixes :: FamilyColumn(t, p)
  }

  /** The table with the columns fams followed by tgts; a family column comes
      from fc and a target column from src. */
  function Build(index: seq<int>, fams: seq<string>, tgts: seq<string>,
                 fc: map<string, seq<Cell>>, src: map<string, seq<Cell>>): Table
    requires forall n :: n in fams ==> n in fc
    requires forall n :: n in tgts ==> n in src
  {
    Table(index, fams + tgts, map n | n in fams + tgts :: if n in tgts then src[n] else fc[n])
  }

  /** The reduced table once the families of ps and the targets of ts are in. */
  function Partial(t: Table, ps: seq<string>, ts: seq<string>): Table
    requires WellFormed(t)
    requires forall p :: p in ps ==> p in Prefixes
  {
    Build(t.index, Found(t, ps), Present(t, ts), Families(t), t.cols)
  }

  /** What `reduce_cols` returns for the input table t. */
  function Reduce(t: Table): (r: Table)
    requires WellFormed(t)
    ensures WellFormed(r) && r.index == t.index
  {
    FixedNamesDistinct();
    BuildWellFormed(t, Found(t, Prefixes), Present(t, Targets), Families(t));
    Partial(t, Prefixes, Targets)
  }

  lemma DistinctConcat(a: seq<string>, b: seq<string>)
    requires Distinct(a) && Distinct(b)
    requires forall n :: n in a ==> n !in b
    ensures Distinct(a + b)
  {
    forall i, j | 0 <= i < j < |a + b| ensures (a + b)[i] != (a + b)[j] {
      if j >= |a| && i < |a| {
        assert (a + b)[i] in a && (a + b)[j] in b;
      }
    }
  }

  lemma BuildWellFormed(t: Table, fams: seq<string>, tgts: seq<string>, fc: map<string, seq<Cell>>)
    requires WellFormed(t) && Distinct(fams) && Distinct(tgts)
    requires forall n :: n in fams ==> n !in tgts
    requires forall n :: n in fams ==> n in fc && |fc[n]| == |t.index|
    requires forall n :: n in tgts ==> n in t.cols
    ensures WellFormed(Build(t.index, fams, tgts, fc, t.cols))
  {
    DistinctConcat(fams, tgts);
  }

  lemma FoundSnoc(t: Table, ps: seq<string>, p: string)
    ensures Found(t, ps + [p]) == Found(t, ps) + (if HasFamily(t, p) then [p] else [])
  {
    assert (ps + [p])[..|ps|] == ps;
  }

  lemma PresentSnoc(t: Table, ns: seq<string>, n: string)
    ensures Present(t, ns + [n]) == Present(t, ns) + (if n in t.cols then [n] else [])
  {
    assert (ns + [n])[..|ns|] == ns;
  }

  /** Adding a family column at the end of the families (no targets yet). */
  lemma BuildAddFamily(index: seq<int>, fams: seq<string>, p: string,
                       fc: map<string, seq<Cell>>, src: map<string, seq<Cell>>)
    requires forall n :: n in fams + [p] ==> n in fc
    ensures Build(index, fams + [p], [], fc, src).names == Build(index, fams, [], fc, src).names + [p]
    ensures Build(index, fams + [p], [], fc, src).cols == Build(index, fams, [], fc, src).cols[p := fc[p]]
  {
    assert fams + [p] + [] == fams + [] + [p];
  }

  /** Adding a target column at the end. */
  lemma BuildAddTarget(index: seq<int>, fams: seq<string>, tgts: seq<string>, c: string,
                       fc: map<string, seq<Cell>>, src: map<string, seq<Cell>>)
    requires forall n :: n in fams ==> n in fc
    requires forall n :: n in tgts + [c] ==> n in src
    ensures Build(index, fams, tgts + [c], fc, src).names == Build(index, fams, tgts, fc, src).names + [c]
    ensures Build(index, fams, tgts + [c], fc, src).cols == Build(index, fams, tgts, fc, src).cols[c := src[c]]
  {
    assert fams + (tgts + [c]) == fams + tgts + [c];
  }

  // ---------------------------------------------------------------------------
  // What the reduced table holds
  // ---------------------------------------------------------------------------

  /** A family column is emitted iff some input column starts with its
      prefix (otherwise it is omitted, not filled); a target iff it is an input
      column; nothing else (`id`, say) is emitted. */
  lemma ReduceColumns(t: Table, n: string)
    requires WellFormed(t)
    ensures n in Reduce(t).cols <==> (n in Prefixes && HasFamily(t, n)) || (n in Targets && n in t.names)
  {
  }

  /** The emitted names are the found families in prefix order, then the
      present targets in their fixed order. */
  lemma {:induction false} ReduceColumnOrder(t: Table)
    requires WellFormed(t)
    ensures exists k :: (0 <= k <= |Reduce(t).names|
                         && Subseq(Reduce(t).names[..k], Prefixes)
                         && Subseq(Reduce(t).names[k..], Targets))
  {
    FilterKeepsOrder(t, Prefixes);
    FilterKeepsOrder(t, Targets);
    var f, g := Found(t, Prefixes), Present(t, Targets);
    var names := Reduce(t).names;
    assert names == f + g;
    assert names[..|f|] == f && names[|f|..] == g;
  }

  lemma ReduceFamilyValue(t: Table, p: string)
    requires WellFormed(t) && p in Prefixes && HasFamily(t, p)
    ensures p in Reduce(t).cols && Reduce(t).cols[p] == FamilyColumn(t, p)
  {
    FixedNamesDistinct();
  }

  /** A numeric family holds, per row, the mean of the numbers present in its
      columns, or is missing where the row has none; a string anywhere in the
      family's columns leaves the whole column missing. */
  lemma ReduceNumericFamily(t: Table, p: string, r: nat)
    requires WellFormed(t) && p in Prefixes && p != "activity" && HasFamily(t, p)
    requires r < |t.index|
    ensures p in Reduce(t).cols && |Reduce(t).cols[p]| == |t.index|
    ensures var cs := Matching(t.names, p);
      var xs := PresentNumbers(RowCells(t, cs, r));
      Reduce(t).cols[p][r] == if NumericOnly(t, cs) && xs != [] then Some(Num(Mean(xs))) else None
  {
    ReduceFamilyValue(t, p);
  }

  /** The row mode is missing iff no cell is present; otherwise it is a
      present value, no value occurs more often, and it is the least of the
      values that occur as often. */
  lemma RowModeMeaning(cells: seq<Cell>)
    ensures var m := RowMode(cells);
      m.Some? ==>
        && (forall v :: multiset(cells)[Some(v)] <= multiset(cells)[m])
        && (forall v :: Some(v) in cells && multiset(cells)[Some(v)] == multiset(cells)[m] ==> ValueLe(m.value, v))
  {
    var vs := PresentValues(cells);
    PresentValuesCount(cells);
    if vs != [] {
      var b := MostFrequent(vs, vs);
      forall v ensures multiset(vs)[v] <= multiset(vs)[b] {
        if v !in vs { assert multiset(vs)[v] == 0; }
      }
    }
  }

  /** The activity column holds, per row, the row mode of the family's columns. */
  lemma ReduceActivity(t: Table, r: nat)
    requires WellFormed(t) && HasFamily(t, "activity") && r < |t.index|
    ensures "activity" in Reduce(t).cols && |Reduce(t).cols["activity"]| == |t.index|
    ensures Reduce(t).cols["activity"][r] == RowMode(RowCells(t, Matching(t.names, "activity"), r))
  {
    ReduceFamilyValue(t, "activity");
  }

  /** `bg+1:00`, `p_num` and `time` are copied verbatim when present. */
  lemma ReduceTargets(t: Table, n: string)
    requires WellFormed(t) && n in Targets && n in t.cols
    ensures n in Reduce(t).cols && Reduce(t).cols[n] == t.cols[n]
  {
  }

  /** Matching is plain `startswith`: the label column `bg+1:00` belongs to
      the `bg` family and enters its mean when it is present. */
  lemma LabelJoinsBgFamily(t: Table)
    requires "bg+1:00" in t.names
    ensures "bg+1:00" in Matching(t.names, "bg") && HasFamily(t, "bg")
  {
    assert StartsWith("bg+1:00", "bg");
  }

  /** The averaged numbers of a row unfold over its first cell and the rest. */
  lemma PresentNumbersCons(c: Cell, rest: seq<Cell>)
    ensures PresentNumbers([c] + rest) ==
      (if c.Some? && c.value.Num? then [c.value.x] else []) + PresentNumbers(rest)
  {
    assert ([c] + rest)[1..] == rest;
  }

  /** Row-wise mean of [6.0, 8.0, missing] is 7.0. */
  lemma MeanExample()
    ensures RowMean([Some(Num(6.0)), Some(Num(8.0)), None]) == Some(Num(7.0))
  {
    ExampleNumbers();
    assert [6.0, 8.0][..1] == [6.0];
    assert [6.0][..0] == [];
    assert Sum([6.0, 8.0]) == 14.0;
  }

  lemma ExampleNumbers()
    ensures PresentNumbers([Some(Num(6.0)), Some(Num(8.0)), None]) == [6.0, 8.0]
  {
    var empty: seq<Cell> := [];
    PresentNumbersCons(None, empty);
    assert [None] + empty == [None];
    PresentNumbersCons(Some(Num(8.0)), [None]);
    PresentNumbersCons(Some(Num(6.0)), [Some(Num(8.0)), None]);
    assert [Some(Num(6.0))] + [Some(Num(8.0)), None] == [Some(Num(6.0)), Some(Num(8.0)), None];
  }

  /** `reduce_cols(df)`: builds a new frame family by family, then copies the
      targets; the input frame is only read. */
  method ReduceCols(df: Frame) returns (agg: Frame)
    requires df.Valid()
    ensures fresh(agg) && agg.Valid()
    ensures agg.View() == Reduce(df.View())
  {
    agg := new Frame.Empty(df.index);
    assert agg.View() == Partial(df.View(), [], []);
    FixedNamesDistinct();
    AddFamilies(df, agg, Prefixes);
    AddTargets(df, agg, Prefixes, Targets);
  }

  /** A turn of the prefix loop that finds columns appends the family. */
  lemma FamilyAdded(t: Table, ps: seq<string>, p: string, fc: map<string, seq<Cell>>)
    requires WellFormed(t) && p !in ps && HasFamily(t, p)
    requires forall n :: n in ps + [p] ==> n in fc
    requires WellFormed(Build(t.index, Found(t, ps), [], fc, t.cols)) && |fc[p]| == |t.index|
    ensures Build(t.index, Found(t, ps + [p]), [], fc, t.cols) ==
      Assign(Build(t.index, Found(t, ps), [], fc, t.cols), p, fc[p])
  {
    FoundSnoc(t, ps, p);
    BuildAddFamily(t.index, Found(t, ps), p, fc, t.cols);
  }

  /** A turn of the prefix loop that finds no column changes nothing. */
  lemma FamilySkipped(t: Table, ps: seq<string>, p: string, fc: map<string, seq<Cell>>)
    requires forall n :: n in ps + [p] ==> n in fc
    requires !HasFamily(t, p)
    ensures Build(t.index, Found(t, ps + [p]), [], fc, t.cols) == Build(t.index, Found(t, ps), [], fc, t.cols)
  {
    FoundSnoc(t, ps, p);
    assert Found(t, ps) + [] == Found(t, ps);
  }

  /** A turn of the target loop that finds its column appends it. */
  lemma TargetAdded(t: Table, fams: seq<string>, ts: seq<string>, c: string, fc: map<string, seq<Cell>>)
    requires WellFormed(t) && c !in ts && c in t.cols
    requires forall n :: n in fams ==> n in fc && n != c
    requires WellFormed(Build(t.index, fams, Present(t, ts), fc, t.cols))
    ensures Build(t.index, fams, Present(t, ts + [c]), fc, t.cols) ==
      Assign(Build(t.index, fams, Present(t, ts), fc, t.cols), c, t.cols[c])
  {
    PresentSnoc(t, ts, c);
    BuildAddTarget(t.index, fams, Present(t, ts), c, fc, t.cols);
  }

  /** A turn of the target loop whose column is absent changes nothing. */
  lemma TargetSkipped(t: Table, fams: seq<string>, ts: seq<string>, c: string, fc: map<string, seq<Cell>>)
    requires forall n :: n in fams ==> n in fc
    requires c !in t.cols
    ensures Build(t.index, fams, Present(t, ts + [c]), fc, t.cols) == Build(t.index, fams, Present(t, ts), fc, t.cols)
  {
    PresentSnoc(t, ts, c);
    assert Present(t, ts) + [] == Present(t, ts);
  }

  lemma DistinctPrefix(ps: seq<string>, i: nat)
    requires Distinct(ps) && i < |ps|
    ensures ps[i] !in ps[..i] && ps[..i] + [ps[i]] == ps[..i + 1]
  {
    assert ps[..i] + [ps[i]] == ps[..i + 1];
  }

  /** One turn of the loop over the prefixes: the family of `ps[i]` is added
      when some column starts with it. */
  method AddFamily(df: Frame, agg: Frame, ps: seq<string>, i: nat)
    requires df.Valid() && agg.Valid() && df != agg
    requires Distinct(ps) && (forall p :: p in ps ==> p in Prefixes) && i < |ps|
    requires agg.View() == Partial(df.View(), ps[..i], [])
    modifies agg
    ensures agg.Valid() && agg.View() == Partial(df.View(), ps[..i + 1], [])
  {
    ghost var t := df.View();
    ghost var fc := Families(t);
    var prefix := ps[i];
    DistinctPrefix(ps, i);
    var matched := Matching(df.names, prefix);
    MatchingNonEmpty(t, prefix);
    if matched != [] {
      FamilyAdded(t, ps[..i], prefix, fc);
      var col := if prefix == "activity" then ModeColumn(df.View(), matched) else MeanColumn(df.View(), matched);
      agg.Set(prefix, col);
    } else {
      FamilySkipped(t, ps[..i], prefix, fc);
    }
  }

  /** The loop over the prefixes (src/features.py:28-47). */
  method AddFamilies(df: Frame, agg: Frame, ps: seq<string>)
    requires df.Valid() && agg.Valid() && df != agg
    requires Distinct(ps) && forall p :: p in ps ==> p in Prefixes
    requires agg.View() == Partial(df.View(), [], [])
    modifies agg
    ensures agg.Valid() && agg.View() == Partial(df.View(), ps, [])
  {
    assert ps[..0] == [];
    for i := 0 to |ps|
      invariant agg.Valid() && agg.View() == Partial(df.View(), ps[..i], [])
    {
      AddFamily(df, agg, ps, i);
    }
    assert ps[..|ps|] == ps;
  }

  /** One turn of the loop over the targets: the column `ts[j]` is copied
      when the input has it. */
  method AddTarget(df: Frame, agg: Frame, ps: seq<string>, ts: seq<string>, j: nat)
    requires df.Valid() && agg.Valid() && df != agg
    requires forall p :: p in ps ==> p in Prefixes
    requires Distinct(ts) && (forall n :: n in ts ==> n !in ps) && j < |ts|
    requires agg.View() == Partial(df.View(), ps, ts[..j])
    modifies agg
    ensures agg.Valid() && agg.View() == Partial(df.View(), ps, ts[..j + 1])
  {
    ghost var t := df.View();
    ghost var fc := Families(t);
    ghost var fams := Found(t, ps);
    var col := ts[j];
    DistinctPrefix(ts, j);
    if df.Has(col) {
      TargetAdded(t, fams, ts[..j], col, fc);
      agg.Set(col, df.Column(col));
    } else {
      TargetSkipped(t, fams, ts[..j], col, fc);
    }
  }

  /** The loop over the targets (src/features.py:49-54). */
  method AddTargets(df: Frame, agg: Frame, ps: seq<string>, ts: seq<string>)
    requires df.Valid() && agg.Valid() && df != agg
    requires forall p :: p in ps ==> p in Prefixes
    requires Distinct(ts) && forall n :: n in ts ==> n !in ps
    requires agg.View() == Partial(df.View(), ps, [])
    modifies agg
    ensures agg.Valid() && agg.View() == Partial(df.View(), ps, ts)
  {
    assert ts[..0] == [];
    for j := 0 to |ts|
      invariant agg.Valid() && agg.View() == Partial(df.View(), ps, ts[..j])
    {
      AddTarget(df, agg, ps, ts, j);
    }
    assert ts[..|ts|] == ts;
  }
}
