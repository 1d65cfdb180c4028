/** Stage 7 of the pipeline: `pd.get_dummies(X, drop_first=True)`. Every
    string-valued or categorical column with categories l0, l1, ..., lk is
    replaced by indicator columns `<col>_l1` ... `<col>_lk` (the first
    category is the dropped reference level); the other columns pass through
    unchanged and come first, followed by the indicator groups in column
    order. */
module OneHot {
  import opened Seqs
  import opened Frames
  import opened Categories

  /** How one column is treated. */
  datatype Encoding = Pass | Dummies(levels: seq<string>)

  /** The dtypes the columns reach `get_dummies` with: the columns of
      categorical dtype, with their declared categories, and the columns of
      object dtype. A column in neither is numeric. */
  datatype Dtypes = Dtypes(categorical: map<string, seq<string>>, objects: set<string>)

  /** A column of neither categorical nor object dtype. */
  predicate Numeric(d: Dtypes, c: string)
  {
    c !in d.categorical && c !in d.objects
  }

  /** The dtypes agree with the cells: a numeric column holds no string. */
  predicate Describes(d: Dtypes, x: Table)
    requires Rectangular(x)
  {
    forall k, j :: 0 <= k < |x.rows| && 0 <= j < |x.cols| && Numeric(d, x.cols[j]) ==> !x.rows[k][j].Str?
  }

  /** `get_dummies` encodes the columns it selects by dtype, object and
      categorical. A categorical column uses its declared categories, unused
      ones included; an object column uses the sorted distinct strings it
      holds now, none if no string is left; a numeric column passes
      through. */
  function EncodingOf(vs: seq<Value>, declared: Option<seq<string>>, isObject: bool): (e: Encoding)
    ensures e.Pass? <==> declared.None? && !isObject
    ensures declared.Some? ==> e.levels == declared.value
    ensures declared.None? && isObject ==>
      StrictlySorted(e.levels) && forall l :: l in e.levels <==> Str(l) in vs
  {
    match declared
    case Some(ls) => Dummies(ls)
    case None => if isObject then Dummies(Levels(vs)) else Pass
  }

  /** The treatment of every column of `x`, in column order. */
  function Plan(x: Table, d: Dtypes): (p: seq<Encoding>)
    requires Rectangular(x)
    ensures |p| == |x.cols|
    ensures forall j :: 0 <= j < |p| ==> (p[j].Pass? <==> Numeric(d, x.cols[j]))
  {
    seq(|x.cols|, j requires 0 <= j < |x.cols| =>
      EncodingOf(ColumnAt(x, j),
                 if x.cols[j] in d.categorical then Some(d.categorical[x.cols[j]]) else None,
                 x.cols[j] in d.objects))
  }

  /** The treatment of the column named `c`. */
  function EncodingFor(x: Table, d: Dtypes, c: string): (e: Encoding)
    requires Rectangular(x) && c in x.cols
    ensures c in d.categorical ==> e == Dummies(d.categorical[c])
    ensures c !in d.categorical && c in d.objects ==> e == Dummies(Levels(Column(x, c)))
    ensures Numeric(d, c) ==> e == Pass
  {
    Plan(x, d)[IndexOf(x.cols, c)]
  }

  /** The categories that get a column: all but the first. */
  function Kept(levels: seq<string>): seq<string>
  {
    if |levels| == 0 then [] else levels[1..]
  }

  /** `<col>_<level>` for every kept level. */
  function IndicatorNames(c: string, levels: seq<string>): (ns: seq<string>)
    ensures |ns| == |Kept(levels)|
  {
    seq(|Kept(levels)|, m requires 0 <= m < |Kept(levels)| => c + "_" + Kept(levels)[m])
  }

  /** The indicator cell of a value under level `l`: 1 when the value is
      that level, 0 otherwise. */
  function Hot(v: Value, l: string): Value
  {
    if v == Str(l) then Num(1.0) else Num(0.0)
  }

  /** The indicator cells of one value: 1 under its own level, 0 elsewhere. */
  function Indicators(v: Value, levels: seq<string>): (cs: seq<Value>)
    ensures |cs| == |Kept(levels)|
  {
    seq(|Kept(levels)|, m requires 0 <= m < |Kept(levels)| => Hot(v, Kept(levels)[m]))
  }

  /** Which columns pass through unchanged. */
  function PassMask(p: seq<Encoding>): (m: seq<bool>)
    ensures |m| == |p|
  {
    seq(|p|, j requires 0 <= j < |p| => p[j].Pass?)
  }

  /** How many indicator columns a column contributes. */
  function Width(e: Encoding): nat
  {
    match e
    case Pass => 0
    case Dummies(ls) => |Kept(ls)|
  }

  /** The indicator names contributed by the column named `c`. */
  function NameGroup(c: string, e: Encoding): (ns: seq<string>)
    ensures |ns| == Width(e)
  {
    match e
    case Pass => []
    case Dummies(ls) => IndicatorNames(c, ls)
  }

  /** The indicator cells contributed by a cell `v`. */
  function CellGroup(v: Value, e: Encoding): (cs: seq<Value>)
    ensures |cs| == Width(e)
  {
    match e
    case Pass => []
    case Dummies(ls) => Indicators(v, ls)
  }

  /** The number of indicator columns of a whole plan. */
  function Widths(p: seq<Encoding>): nat
  {
    if |p| == 0 then 0 else Widths(p[..|p| - 1]) + Width(p[|p| - 1])
  }

  /** The groups of all columns, one after the other; `group` gives what one
      column contributes under its encoding. */
  function Flatten<T, U>(xs: seq<T>, p: seq<Encoding>, group: (T, Encoding) -> seq<U>): seq<U>
    requires |xs| == |p|
  {
    if |p| == 0 then []
    else Flatten(xs[..|p| - 1], p[..|p| - 1], group) + group(xs[|p| - 1], p[|p| - 1])
  }

  /** Every contribution is as wide as its encoding says. */
  ghost predicate Fits<T(!new), U>(group: (T, Encoding) -> seq<U>)
  {
    forall x, e :: |group(x, e)| == Width(e)
  }

  /** The names of the encoded table: passed-through columns, then groups. */
  function ExpandNames(cols: seq<string>, p: seq<Encoding>): (ns: seq<string>)
    requires |cols| == |p|
    ensures |ns| == CountTrue(PassMask(p)) + Widths(p)
  {
    NameGroupFits();
    FlattenLength(cols, p, NameGroup);
    Pick(cols, PassMask(p)) + Flatten(cols, p, NameGroup)
  }

  /** One encoded row: passed-through cells, then indicator groups. */
  function ExpandRow(row: Row, p: seq<Encoding>): (r: Row)
    requires |row| == |p|
    ensures |r| == CountTrue(PassMask(p)) + Widths(p)
  {
    CellGroupFits();
    FlattenLength(row, p, CellGroup);
    Pick(row, PassMask(p)) + Flatten(row, p, CellGroup)
  }

  /** The encoded table, before any claim about it. */
  function Expand(x: Table, p: seq<Encoding>): (r: Table)
    requires Rectangular(x) && |p| == |x.cols|
    ensures r.cols == ExpandNames(x.cols, p) && |r.rows| == |x.rows|
    ensures forall k :: 0 <= k < |x.rows| ==> r.rows[k] == ExpandRow(x.rows[k], p)
  {
    Table(ExpandNames(x.cols, p), seq(|x.rows|, k requires 0 <= k < |x.rows| => ExpandRow(x.rows[k], p)))
  }

  /** The position of indicator number `m` of column `j` in an encoded row or
      in the encoded names: after every passed-through column and after the
      groups of the columns before `j`. */
  function Slot(p: seq<Encoding>, j: nat, m: nat): nat
    requires j <= |p|
  {
    CountTrue(PassMask(p)) + Widths(p[..j]) + m
  }

  /** The indicator names of a column are as many as its encoding says. */
  lemma NameGroupFits()
    ensures Fits(NameGroup)
  {
    forall c, e ensures |NameGroup(c, e)| == Width(e) {
    }
  }

  /** The indicator cells of a cell are as many as its encoding says. */
  lemma CellGroupFits()
    ensures Fits(CellGroup)
  {
    forall v, e ensures |CellGroup(v, e)| == Width(e) {
    }
  }

  /** The groups of a whole plan are as wide as the plan says. */
  lemma {:induction false} FlattenLength<T(!new), U>(xs: seq<T>, p: seq<Encoding>, group: (T, Encoding) -> seq<U>)
    requires |xs| == |p| && Fits(group)
    ensures |Flatten(xs, p, group)| == Widths(p)
  {
    if |p| > 0 {
      FlattenLength(xs[..|p| - 1], p[..|p| - 1], group);
    }
  }

  /** Item `m` of the group of column `j` follows the groups of the columns
      before `j`. */
  lemma {:induction false} FlattenAt<T, U>(xs: seq<T>, p: seq<Encoding>, group: (T, Encoding) -> seq<U>, j: nat, m: nat)
    requires |xs| == |p| && j < |p| && m < |group(xs[j], p[j])|
    ensures |Flatten(xs[..j], p[..j], group)| + m < |Flatten(xs, p, group)|
    ensures Flatten(xs, p, group)[|Flatten(xs[..j], p[..j], group)| + m] == group(xs[j], p[j])[m]
  {
    var n := |p| - 1;
    if j == n {
      assert xs[..n] == xs[..j] && p[..n] == p[..j];
    } else {
      assert xs[..n][..j] == xs[..j] && p[..n][..j] == p[..j];
      FlattenAt(xs[..n], p[..n], group, j, m);
    }
  }

  /** Everything in the result comes from the group of one column. */
  lemma {:induction false} FlattenMembers<T, U>(xs: seq<T>, p: seq<Encoding>, group: (T, Encoding) -> seq<U>, y: U)
    requires |xs| == |p|
    ensures y in Flatten(xs, p, group) <==> exists j :: 0 <= j < |p| && y in group(xs[j], p[j])
  {
    if |p| > 0 {
      var n := |p| - 1;
      FlattenMembers(xs[..n], p[..n], group, y);
      if y in Flatten(xs[..n], p[..n], group) {
        var j :| 0 <= j < n && y in group(xs[..n][j], p[..n][j]);
        assert xs[..n][j] == xs[j] && p[..n][j] == p[j];
      }
      if exists j :: 0 <= j < |p| && y in group(xs[j], p[j]) {
        var j :| 0 <= j < |p| && y in group(xs[j], p[j]);
        if j < n {
          assert xs[..n][j] == xs[j] && p[..n][j] == p[j];
        }
      }
    }
  }

  /** A passed-through column keeps its name and values. */
  lemma PassThrough(x: Table, p: seq<Encoding>, j: nat)
    requires WellFormed(x) && |p| == |x.cols| && j < |p| && p[j].Pass?
    ensures Rectangular(Expand(x, p))
    ensures x.cols[j] in Expand(x, p).cols
    ensures Column(Expand(x, p), x.cols[j]) == ColumnAt(x, j)
  {
    var r := Expand(x, p);
    var mask := PassMask(p);
    var passCols := Pick(x.cols, mask);
    var pp := CountTrue(mask[..j]);
    PickAt(x.cols, mask, j);
    PickDistinct(x.cols, mask);
    IndexOfDistinct(passCols, pp);
    IndexOfPrefix(passCols, Flatten(x.cols, p, NameGroup), x.cols[j]);
    assert IndexOf(r.cols, x.cols[j]) == pp;
    forall k | 0 <= k < |x.rows|
      ensures r.rows[k][pp] == x.rows[k][j]
    {
      PickAt(x.rows[k], mask, j);
    }
  }

  /** Where the indicator of level number `m` of column `j` sits among the
      names. */
  lemma IndicatorName(cols: seq<string>, p: seq<Encoding>, j: nat, m: nat)
    requires |cols| == |p| && j < |p| && p[j].Dummies? && m < |Kept(p[j].levels)|
    ensures Slot(p, j, m) < |ExpandNames(cols, p)|
    ensures ExpandNames(cols, p)[Slot(p, j, m)] == cols[j] + "_" + Kept(p[j].levels)[m]
  {
    NameGroupFits();
    FlattenLength(cols[..j], p[..j], NameGroup);
    FlattenAt(cols, p, NameGroup, j, m);
    assert IndicatorNames(cols[j], p[j].levels)[m] == cols[j] + "_" + Kept(p[j].levels)[m];
  }

  /** What the same position holds in an encoded row. */
  lemma IndicatorValue(row: Row, p: seq<Encoding>, j: nat, m: nat)
    requires |row| == |p| && j < |p| && p[j].Dummies? && m < |Kept(p[j].levels)|
    ensures Slot(p, j, m) < |ExpandRow(row, p)|
    ensures ExpandRow(row, p)[Slot(p, j, m)] == Hot(row[j], Kept(p[j].levels)[m])
  {
    CellGroupFits();
    FlattenLength(row[..j], p[..j], CellGroup);
    FlattenAt(row, p, CellGroup, j, m);
    assert Indicators(row[j], p[j].levels)[m] == Hot(row[j], Kept(p[j].levels)[m]);
  }

  /** Every name of the result is a passed-through column or an indicator of
      an encoded column. */
  lemma ExpandNamesMembers(x: Table, p: seq<Encoding>, n: string)
    requires Rectangular(x) && |p| == |x.cols|
    ensures n in Expand(x, p).cols <==>
      || (exists j :: 0 <= j < |p| && p[j].Pass? && x.cols[j] == n)
      || (exists j :: 0 <= j < |p| && p[j].Dummies? && n in IndicatorNames(x.cols[j], p[j].levels))
  {
    PickMembers(x.cols, PassMask(p), n);
    FlattenMembers(x.cols, p, NameGroup, n);
    if exists j :: 0 <= j < |p| && n in NameGroup(x.cols[j], p[j]) {
      var j :| 0 <= j < |p| && n in NameGroup(x.cols[j], p[j]);
      assert p[j].Dummies? && n in IndicatorNames(x.cols[j], p[j].levels);
    }
    if exists j :: 0 <= j < |p| && p[j].Dummies? && n in IndicatorNames(x.cols[j], p[j].levels) {
      var j :| 0 <= j < |p| && p[j].Dummies? && n in IndicatorNames(x.cols[j], p[j].levels);
      assert n in NameGroup(x.cols[j], p[j]);
    }
  }

  /** Indicator names carry the separator right after the column name, so
      none of them is a plain name such as `y` or `age`. */
  lemma IndicatorNameShape(c: string, levels: seq<string>, n: string)
    requires n in IndicatorNames(c, levels)
    ensures |n| > |c| && n[|c|] == '_' && n[..|c|] == c
  {
    var m :| 0 <= m < |IndicatorNames(c, levels)| && IndicatorNames(c, levels)[m] == n;
    assert n == c + "_" + Kept(levels)[m];
  }

  /** A passed-through column of the plan holds no string. */
  lemma PassHoldsNoString(x: Table, d: Dtypes, i: nat, k: nat)
    requires Rectangular(x) && Describes(d, x) && i < |x.cols| && k < |x.rows| && Plan(x, d)[i].Pass?
    ensures !x.rows[k][i].Str?
  {
    assert ColumnAt(x, i)[k] == x.rows[k][i];
  }

  /** A row whose passed-through cells are not strings encodes to a row
      without strings. */
  lemma ExpandRowNumeric(row: Row, p: seq<Encoding>)
    requires |row| == |p|
    requires forall i :: 0 <= i < |p| && p[i].Pass? ==> !row[i].Str?
    ensures forall j :: 0 <= j < |ExpandRow(row, p)| ==> !ExpandRow(row, p)[j].Str?
  {
    var mask := PassMask(p);
    forall j | 0 <= j < |ExpandRow(row, p)|
      ensures !ExpandRow(row, p)[j].Str?
    {
      var v := ExpandRow(row, p)[j];
      if j < |Pick(row, mask)| {
        assert v in Pick(row, mask);
        PickMembers(row, mask, v);
      } else {
        assert v in Flatten(row, p, CellGroup);
        FlattenMembers(row, p, CellGroup, v);
        var i :| 0 <= i < |p| && v in CellGroup(row[i], p[i]);
      }
    }
  }

  /** No string survives the encoding: the matrix is numeric. */
  lemma ExpandNumeric(x: Table, d: Dtypes)
    requires Rectangular(x) && Describes(d, x)
    ensures forall k :: 0 <= k < |x.rows| ==>
      forall j :: 0 <= j < |ExpandRow(x.rows[k], Plan(x, d))| ==>
        !ExpandRow(x.rows[k], Plan(x, d))[j].Str?
  {
    var p := Plan(x, d);
    forall k | 0 <= k < |x.rows|
      ensures forall j :: 0 <= j < |ExpandRow(x.rows[k], p)| ==> !ExpandRow(x.rows[k], p)[j].Str?
    {
      forall i | 0 <= i < |p| && p[i].Pass?
        ensures !x.rows[k][i].Str?
      {
        PassHoldsNoString(x, d, i, k);
      }
      ExpandRowNumeric(x.rows[k], p);
    }
  }

  /** Shape of the encoding: rows kept one for one, no string left. */
  lemma ExpandShape(x: Table, d: Dtypes)
    requires Rectangular(x) && Describes(d, x)
    ensures var r := Expand(x, Plan(x, d));
      && Rectangular(r) && |r.rows| == |x.rows|
      && forall k, j :: 0 <= k < |r.rows| && 0 <= j < |r.cols| ==> !r.rows[k][j].Str?
  {
    ExpandNumeric(x, d);
  }

  /** Numeric columns pass through with their values. */
  lemma ExpandPasses(x: Table, d: Dtypes)
    requires WellFormed(x)
    ensures var r := Expand(x, Plan(x, d));
      && Rectangular(r)
      && forall c :: c in x.cols && EncodingFor(x, d, c).Pass? ==>
           c in r.cols && Column(r, c) == Column(x, c)
  {
    var p := Plan(x, d);
    forall c | c in x.cols && EncodingFor(x, d, c).Pass?
      ensures c in Expand(x, p).cols && Column(Expand(x, p), c) == Column(x, c)
    {
      PassThrough(x, p, IndexOf(x.cols, c));
    }
  }

  /** Every kept level of an encoded column gets its indicator column. */
  lemma ExpandIndicators(x: Table, d: Dtypes)
    requires WellFormed(x)
    ensures forall c, l ::
      (c in x.cols && EncodingFor(x, d, c).Dummies? && l in Kept(EncodingFor(x, d, c).levels))
      ==> c + "_" + l in Expand(x, Plan(x, d)).cols
  {
    var p := Plan(x, d);
    forall c, l | c in x.cols && EncodingFor(x, d, c).Dummies? && l in Kept(EncodingFor(x, d, c).levels)
      ensures c + "_" + l in Expand(x, p).cols
    {
      var j := IndexOf(x.cols, c);
      var m :| 0 <= m < |Kept(p[j].levels)| && Kept(p[j].levels)[m] == l;
      assert IndicatorNames(c, p[j].levels)[m] == c + "_" + l;
      ExpandNamesMembers(x, p, c + "_" + l);
    }
  }

  /** Nothing else appears. */
  lemma ExpandOrigins(x: Table, d: Dtypes)
    requires WellFormed(x)
    ensures forall n :: n in Expand(x, Plan(x, d)).cols ==>
      || (n in x.cols && EncodingFor(x, d, n).Pass?)
      || (exists c :: c in x.cols && EncodingFor(x, d, c).Dummies? &&
            n in IndicatorNames(c, EncodingFor(x, d, c).levels))
  {
    var p := Plan(x, d);
    forall n | n in Expand(x, p).cols
      ensures || (n in x.cols && EncodingFor(x, d, n).Pass?)
              || (exists c :: c in x.cols && EncodingFor(x, d, c).Dummies? &&
                    n in IndicatorNames(c, EncodingFor(x, d, c).levels))
    {
      ExpandNamesMembers(x, p, n);
      if exists j :: 0 <= j < |p| && p[j].Pass? && x.cols[j] == n {
        var j :| 0 <= j < |p| && p[j].Pass? && x.cols[j] == n;
        IndexOfDistinct(x.cols, j);
      } else {
        var j :| 0 <= j < |p| && p[j].Dummies? && n in IndicatorNames(x.cols[j], p[j].levels);
        IndexOfDistinct(x.cols, j);
        assert EncodingFor(x, d, x.cols[j]) == p[j];
      }
    }
  }

  /** `pd.get_dummies(x, drop_first=True)` on a table whose columns have the
      dtypes `d`. Which columns the result has is stated by
      `GetDummiesColumns`. */
  function GetDummies(x: Table, d: Dtypes): (r: Table)
    requires WellFormed(x) && Describes(d, x)
    ensures Rectangular(r) && |r.rows| == |x.rows|
    ensures forall k, j :: 0 <= k < |r.rows| && 0 <= j < |r.cols| ==> !r.rows[k][j].Str?
  {
    ExpandShape(x, d);
    Expand(x, Plan(x, d))
  }

  /** The columns of the encoded table: numeric columns pass through with
      their values, every kept level of an encoded column gets its indicator
      `<col>_<level>`, and nothing else appears. */
  lemma GetDummiesColumns(x: Table, d: Dtypes)
    requires WellFormed(x) && Describes(d, x)
    ensures var r := GetDummies(x, d);
      && (forall c :: c in x.cols && EncodingFor(x, d, c).Pass? ==>
            c in r.cols && Column(r, c) == Column(x, c))
      && (forall c, l ::
            (c in x.cols && EncodingFor(x, d, c).Dummies? && l in Kept(EncodingFor(x, d, c).levels))
            ==> c + "_" + l in r.cols)
      && (forall n :: n in r.cols ==>
            || (n in x.cols && EncodingFor(x, d, n).Pass?)
            || (exists c :: c in x.cols && EncodingFor(x, d, c).Dummies? &&
                  n in IndicatorNames(c, EncodingFor(x, d, c).levels)))
  {
    ExpandPasses(x, d);
    ExpandIndicators(x, d);
    ExpandOrigins(x, d);
  }

  /** The indicator of level number `m` of column `j`, read as a column of
      the encoded table whose names are distinct. */
  lemma ExpandIndicatorColumn(x: Table, p: seq<Encoding>, j: nat, m: nat)
    requires Rectangular(x) && |p| == |x.cols| && j < |p| && p[j].Dummies? && m < |Kept(p[j].levels)|
    requires Distinct(ExpandNames(x.cols, p))
    ensures Rectangular(Expand(x, p))
    ensures x.cols[j] + "_" + Kept(p[j].levels)[m] in Expand(x, p).cols
    ensures forall k :: 0 <= k < |x.rows| ==>
      Column(Expand(x, p), x.cols[j] + "_" + Kept(p[j].levels)[m])[k] == Hot(x.rows[k][j], Kept(p[j].levels)[m])
  {
    IndicatorCells(x, p, j, m);
    IndicatorName(x.cols, p, j, m);
    ColumnNamedAt(Expand(x, p), Slot(p, j, m));
  }

  /** The cells at the position of the indicator of level number `m` of
      column `j`. */
  lemma IndicatorCells(x: Table, p: seq<Encoding>, j: nat, m: nat)
    requires Rectangular(x) && |p| == |x.cols| && j < |p| && p[j].Dummies? && m < |Kept(p[j].levels)|
    ensures Rectangular(Expand(x, p))
    ensures Slot(p, j, m) < |Expand(x, p).cols|
    ensures forall k :: 0 <= k < |x.rows| ==>
      ColumnAt(Expand(x, p), Slot(p, j, m))[k] == Hot(x.rows[k][j], Kept(p[j].levels)[m])
  {
    var r := Expand(x, p);
    IndicatorName(x.cols, p, j, m);
    forall k | 0 <= k < |x.rows|
      ensures ColumnAt(r, Slot(p, j, m))[k] == Hot(x.rows[k][j], Kept(p[j].levels)[m])
    {
      IndicatorValue(x.rows[k], p, j, m);
    }
  }

  /** When the result's names are distinct, the indicator column of level `l`
      of column `c` holds 1 exactly in the rows whose `c` is `l`. */
  lemma IndicatorColumn(x: Table, d: Dtypes, c: string, l: string)
    requires WellFormed(x) && Describes(d, x) && c in x.cols
    requires EncodingFor(x, d, c).Dummies? && l in Kept(EncodingFor(x, d, c).levels)
    requires Distinct(GetDummies(x, d).cols)
    ensures c + "_" + l in GetDummies(x, d).cols
    ensures forall k :: 0 <= k < |x.rows| ==>
      Column(GetDummies(x, d), c + "_" + l)[k] ==
        (if Column(x, c)[k] == Str(l) then Num(1.0) else Num(0.0))
  {
    var p := Plan(x, d);
    var j := IndexOf(x.cols, c);
    var ls := p[j].levels;
    var m :| 0 <= m < |Kept(ls)| && Kept(ls)[m] == l;
    ExpandIndicatorColumn(x, p, j, m);
    assert forall k :: 0 <= k < |x.rows| ==> Column(x, c)[k] == x.rows[k][j];
  }

  /** Within one group a row has at most one indicator set; it has one exactly
      when its value is a kept level, and none for the reference level. */
  lemma AtMostOneHot(v: Value, levels: seq<string>)
    requires Distinct(levels)
    ensures forall m, m' :: 0 <= m < m' < |Kept(levels)| ==>
      !(Indicators(v, levels)[m] == Num(1.0) && Indicators(v, levels)[m'] == Num(1.0))
    ensures (exists m :: 0 <= m < |Kept(levels)| && Indicators(v, levels)[m] == Num(1.0)) <==>
      (v.Str? && v.s in Kept(levels))
    ensures |levels| > 0 && v == Str(levels[0]) ==>
      forall m :: 0 <= m < |Kept(levels)| ==> Indicators(v, levels)[m] == Num(0.0)
  {
    if v.Str? && v.s in Kept(levels) {
      var m :| 0 <= m < |Kept(levels)| && Kept(levels)[m] == v.s;
      assert Indicators(v, levels)[m] == Num(1.0);
    }
  }

  /** The levels of an object column are distinct, so its group is one-hot. */
  lemma ObjectGroupOneHot(vs: seq<Value>, v: Value)
    ensures forall m, m' :: 0 <= m < m' < |Kept(Levels(vs))| ==>
      !(Indicators(v, Levels(vs))[m] == Num(1.0) && Indicators(v, Levels(vs))[m'] == Num(1.0))
    ensures (exists m :: 0 <= m < |Kept(Levels(vs))| && Indicators(v, Levels(vs))[m] == Num(1.0)) <==>
      (v.Str? && v.s in Kept(Levels(vs)))
  {
    StrictlySortedIsDistinct(Levels(vs));
    AtMostOneHot(v, Levels(vs));
  }
}
