/** Stage 4 of the pipeline: when enabled and an `age` column exists, keep
    only the rows whose age lies inside the inclusive Tukey fences
    [Q1 - 1.5 IQR, Q3 + 1.5 IQR] computed from that column. */
module Outliers {
  import opened Seqs
  import opened Frames
  import opened Quantile

  /** The numbers of a column in row order, missing and non-numeric cells
      skipped, as `Series.quantile` sees them. */
  function Numbers(vs: seq<Value>): (xs: seq<real>)
    ensures forall j :: 0 <= j < |xs| ==> Num(xs[j]) in vs
    ensures forall k :: 0 <= k < |vs| && vs[k].Num? ==> vs[k].x in xs
    ensures forall x :: multiset(xs)[x] == multiset(vs)[Num(x)]
  {
    if |vs| == 0 then []
    else
      var n := |vs| - 1;
      var xs := Numbers(vs[..n]);
      assert vs == vs[..n] + [vs[n]];
      assert multiset(vs) == multiset(vs[..n]) + multiset{vs[n]};
      if vs[n].Num? then
        assert multiset(xs + [vs[n].x]) == multiset(xs) + multiset{vs[n].x};
        xs + [vs[n].x]
      else
        xs
  }

  /** The quartiles of a column and the fences derived from them. */
  datatype Fence = Fence(q1: real, q3: real) {
    function Iqr(): real { q3 - q1 }
    function Lo(): real { q1 - 1.5 * Iqr() }
    function Hi(): real { q3 + 1.5 * Iqr() }

    /** `(age >= lo) & (age <= hi)`: comparisons with NaN are false. */
    predicate Admits(v: Value)
    {
      v.Num? && Lo() <= v.x && v.x <= Hi()
    }
  }

  /** The fences of a column. Without any number the quartiles are NaN in the
      source; the placeholder chosen here is harmless since `Admits` rejects
      every non-number. */
  function AgeFence(ages: seq<Value>): (f: Fence)
    ensures f.q1 <= f.q3
    ensures f.Lo() <= f.q1 && f.q3 <= f.Hi()
    ensures Numbers(ages) != [] ==>
      && (exists k :: 0 <= k < |ages| && ages[k].Num? && ages[k].x <= f.q1)
      && (exists k :: 0 <= k < |ages| && ages[k].Num? && f.q3 <= ages[k].x)
  {
    var xs := Sort(Numbers(ages));
    var f := if |xs| == 0 then Fence(0.0, 0.0) else Fence(Quarter(xs, 1), Quarter(xs, 3));
    FenceOrdered(xs, f);
    FenceWithinData(ages, xs, f);
    f
  }

  /** The fences of sorted data: Q1 <= Q3, and the fences lie outside the
      quartiles. */
  lemma FenceOrdered(xs: seq<real>, f: Fence)
    requires Sorted(xs)
    requires f == if |xs| == 0 then Fence(0.0, 0.0) else Fence(Quarter(xs, 1), Quarter(xs, 3))
    ensures f.q1 <= f.q3
    ensures f.Lo() <= f.q1 && f.q3 <= f.Hi()
  {
    if |xs| > 0 {
      QuarterMonotone(xs, 1, 3);
    }
  }

  /** When the column holds a number, some age is at or below Q1 and some
      age is at or above Q3. */
  lemma FenceWithinData(ages: seq<Value>, xs: seq<real>, f: Fence)
    requires Sorted(xs) && multiset(xs) == multiset(Numbers(ages))
    requires f == if |xs| == 0 then Fence(0.0, 0.0) else Fence(Quarter(xs, 1), Quarter(xs, 3))
    ensures Numbers(ages) != [] ==>
      && (exists k :: 0 <= k < |ages| && ages[k].Num? && ages[k].x <= f.q1)
      && (exists k :: 0 <= k < |ages| && ages[k].Num? && f.q3 <= ages[k].x)
  {
    if |xs| == 0 {
      assert |multiset(Numbers(ages))| == 0;
    } else {
      QuartilesAreBracketed(ages, xs);
    }
  }

  /** Q1 <= Q3, and both quartiles lie within the range of the data. */
  lemma QuartilesAreBracketed(ages: seq<Value>, xs: seq<real>)
    requires |xs| > 0 && Sorted(xs) && multiset(xs) == multiset(Numbers(ages))
    ensures Numbers(ages) != []
    ensures Quarter(xs, 1) <= Quarter(xs, 3)
    ensures exists k :: 0 <= k < |ages| && ages[k].Num? && ages[k].x <= Quarter(xs, 1)
    ensures exists k :: 0 <= k < |ages| && ages[k].Num? && Quarter(xs, 3) <= ages[k].x
  {
    QuarterMonotone(xs, 1, 3);
    SortedExtremesAreData(ages, xs);
    var k :| 0 <= k < |ages| && ages[k] == Num(xs[0]);
    var k' :| 0 <= k' < |ages| && ages[k'] == Num(xs[|xs| - 1]);
    assert ages[k].x <= Quarter(xs, 1);
    assert Quarter(xs, 3) <= ages[k'].x;
  }

  /** The smallest and largest sorted numbers are cells of the column. */
  lemma SortedExtremesAreData(ages: seq<Value>, xs: seq<real>)
    requires |xs| > 0 && multiset(xs) == multiset(Numbers(ages))
    ensures exists k :: 0 <= k < |ages| && ages[k] == Num(xs[0])
    ensures exists k :: 0 <= k < |ages| && ages[k] == Num(xs[|xs| - 1])
  {
    var nums := Numbers(ages);
    assert xs[0] in multiset(nums) && xs[|xs| - 1] in multiset(nums);
    var j :| 0 <= j < |nums| && nums[j] == xs[0];
    var j' :| 0 <= j' < |nums| && nums[j'] == xs[|xs| - 1];
    assert Num(nums[j]) in ages && Num(nums[j']) in ages;
  }

  /** The mask of rows whose value in column `i` lies within the fences. */
  function AdmitMask(t: Table, i: nat, f: Fence): (m: seq<bool>)
    requires Rectangular(t) && i < |t.cols|
    ensures |m| == |t.rows|
  {
    seq(|t.rows|, k requires 0 <= k < |t.rows| => f.Admits(t.rows[k][i]))
  }

  /** Whether the fence admits a row by its cell in column `i`. */
  predicate AdmitsRow(f: Fence, i: nat, row: Row)
  {
    i < |row| && f.Admits(row[i])
  }

  /** `r` holds, in their original order, exactly the rows of `t` whose
      cell in column `i` the fence admits, every copy of each. */
  predicate KeepsAdmitted(t: Table, r: Table, i: nat, f: Fence)
    requires Rectangular(t) && Rectangular(r) && i < |t.cols| && i < |r.cols|
  {
    && IsSubseq(r.rows, t.rows)
    && (forall k :: 0 <= k < |r.rows| ==> r.rows[k] in t.rows && f.Admits(r.rows[k][i]))
    && (forall k :: 0 <= k < |t.rows| && f.Admits(t.rows[k][i]) ==> t.rows[k] in r.rows)
    && (forall row :: row in t.rows ==> multiset(r.rows)[row] == if AdmitsRow(f, i, row) then multiset(t.rows)[row] else 0)
  }

  /** What selecting by the fence mask keeps: an order-preserving
      subsequence holding exactly the admitted rows, each column thinned
      alike. */
  lemma AdmitSelection(t: Table, i: nat, f: Fence)
    requires Rectangular(t) && i < |t.cols|
    ensures KeepsAdmitted(t, SelectRows(t, AdmitMask(t, i, f)), i, f)
    ensures var r := SelectRows(t, AdmitMask(t, i, f));
      forall j :: 0 <= j < |t.cols| ==> IsSubseq(ColumnAt(r, j), ColumnAt(t, j))
  {
    var keep := AdmitMask(t, i, f);
    var r := SelectRows(t, keep);
    PickIsSubseq(t.rows, keep);
    forall k | 0 <= k < |r.rows|
      ensures r.rows[k] in t.rows && f.Admits(r.rows[k][i])
    {
      PickMembers(t.rows, keep, r.rows[k]);
    }
    forall k | 0 <= k < |t.rows| && f.Admits(t.rows[k][i])
      ensures t.rows[k] in r.rows
    {
      PickMembers(t.rows, keep, t.rows[k]);
    }
    forall row | row in t.rows
      ensures multiset(r.rows)[row] == if AdmitsRow(f, i, row) then multiset(t.rows)[row] else 0
    {
      PickByPredicate(t.rows, keep, row => AdmitsRow(f, i, row), row);
    }
    forall j | 0 <= j < |t.cols|
      ensures IsSubseq(ColumnAt(r, j), ColumnAt(t, j))
    {
      SelectRowsColumn(t, keep, j);
      PickIsSubseq(ColumnAt(t, j), keep);
    }
  }

  /** The outlier stage. */
  function FilterAgeOutliers(t: Table, enabled: bool): (r: Table)
    requires WellFormed(t)
    ensures WellFormed(r) && r.cols == t.cols && |r.rows| <= |t.rows|
    ensures !enabled || AgeColumn !in t.cols ==> r == t
    ensures enabled && AgeColumn in t.cols ==>
      KeepsAdmitted(t, r, IndexOf(t.cols, AgeColumn), AgeFence(Column(t, AgeColumn)))
    ensures ThinsColumns(r, t)
  {
    if enabled && AgeColumn in t.cols then
      var i := IndexOf(t.cols, AgeColumn);
      var f := AgeFence(Column(t, AgeColumn));
      AdmitSelection(t, i, f);
      SelectedColumns(t, i, f);
      SelectRows(t, AdmitMask(t, i, f))
    else
      UnchangedColumns(t);
      t
  }

  /** Selection by the fence mask thins every named column alike. */
  lemma SelectedColumns(t: Table, i: nat, f: Fence)
    requires WellFormed(t) && i < |t.cols|
    ensures ThinsColumns(SelectRows(t, AdmitMask(t, i, f)), t)
  {
    AdmitSelection(t, i, f);
  }

  /** Every column is a subsequence of itself. */
  lemma UnchangedColumns(t: Table)
    requires WellFormed(t)
    ensures ThinsColumns(t, t)
  {
    forall c | c in t.cols
      ensures IsSubseq(Column(t, c), Column(t, c))
    {
      SubseqReflexive(Column(t, c));
    }
  }
}
