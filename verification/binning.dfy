/** Stage 5 of the pipeline: when enabled and an `age` column exists, the age
    is cut into four fixed bands (0, 30], (30, 45], (45, 60], (60, 100] with
    the lowest edge included, labelled Young, Adult, Senior and Elder, stored
    as a categorical column `age_group`; the raw `age` column is then
    dropped. */
module Binning {
  import opened Seqs
  import opened Frames

  /** The bin edges and labels given to `pd.cut`. */
  const AgeEdges: seq<real> := [0.0, 30.0, 45.0, 60.0, 100.0]
  const AgeLabels: seq<string> := ["Young", "Adult", "Senior", "Elder"]

  predicate StrictlyIncreasing(e: seq<real>)
  {
    forall i, j :: 0 <= i < j < |e| ==> e[i] < e[j]
  }

  /** `searchsorted(x, side="left")` on increasing edges: the number of edges
      strictly below `x`, which is the first position where `x` could be
      inserted keeping the order. */
  function SearchLeft(edges: seq<real>, x: real): (c: nat)
    requires StrictlyIncreasing(edges)
    ensures c <= |edges|
    ensures forall k :: 0 <= k < c ==> edges[k] < x
    ensures forall k :: c <= k < |edges| ==> x <= edges[k]
  {
    if |edges| == 0 || x <= edges[0] then 0
    else 1 + SearchLeft(edges[1..], x)
  }

  /** The bin `pd.cut(..., right=True, include_lowest=True)` assigns to `x`:
      the search position, moved to the first bin when `x` equals the lowest
      edge; positions before the first or after the last edge are NaN. */
  function CutIndex(edges: seq<real>, x: real): (b: Option<nat>)
    requires |edges| >= 2 && StrictlyIncreasing(edges)
    ensures b.Some? <==> edges[0] <= x <= edges[|edges| - 1]
    ensures b.Some? ==>
      && b.value + 1 < |edges|
      && x <= edges[b.value + 1]
      && (edges[b.value] < x || (b.value == 0 && x == edges[0]))
  {
    var ids := if x == edges[0] then 1 else SearchLeft(edges, x);
    if ids == 0 || ids == |edges| then None else Some(ids - 1)
  }

  /** The label of one age cell; NaN for a missing or out-of-range age. */
  function AgeGroup(v: Value): (g: Value)
    ensures g == Null || exists b :: 0 <= b < |AgeLabels| && g == Str(AgeLabels[b])
  {
    match v
    case Num(x) =>
      (match CutIndex(AgeEdges, x)
       case Some(b) => Str(AgeLabels[b])
       case None => Null)
    case _ => Null
  }

  /** The four bands, closed on the right, with age 0 in the first. */
  lemma AgeGroupBands(x: real)
    ensures AgeGroup(Num(x)) == Str("Young") <==> 0.0 <= x <= 30.0
    ensures AgeGroup(Num(x)) == Str("Adult") <==> 30.0 < x <= 45.0
    ensures AgeGroup(Num(x)) == Str("Senior") <==> 45.0 < x <= 60.0
    ensures AgeGroup(Num(x)) == Str("Elder") <==> 60.0 < x <= 100.0
    ensures AgeGroup(Num(x)) == Null <==> x < 0.0 || 100.0 < x
  {
    var b := CutIndex(AgeEdges, x);
    if b.Some? {
      assert b.value < 4;
      assert AgeLabels[0] == "Young" && AgeLabels[1] == "Adult";
      assert AgeLabels[2] == "Senior" && AgeLabels[3] == "Elder";
    }
  }

  /** `pd.cut` over a whole column. */
  function AgeGroups(ages: seq<Value>): (gs: seq<Value>)
    ensures |gs| == |ages|
    ensures forall k :: 0 <= k < |ages| ==> gs[k] == AgeGroup(ages[k])
  {
    if |ages| == 0 then [] else AgeGroups(ages[..|ages| - 1]) + [AgeGroup(ages[|ages| - 1])]
  }

  /** `df["age_group"] = pd.cut(df["age"], ...)` followed by
      `df.drop(columns=["age"])`. */
  function ReplaceAge(t: Table): (r: Table)
    requires WellFormed(t) && AgeColumn in t.cols
    ensures WellFormed(r) && |r.rows| == |t.rows|
    ensures AgeColumn !in r.cols && GroupColumn in r.cols
    ensures forall k :: 0 <= k < |t.rows| ==> Column(r, GroupColumn)[k] == AgeGroup(Column(t, AgeColumn)[k])
    ensures forall c :: c in r.cols <==> c == GroupColumn || (c in t.cols && c != AgeColumn)
    ensures forall c :: c in t.cols && c != AgeColumn && c != GroupColumn ==> Column(r, c) == Column(t, c)
    ensures GroupColumn in t.cols ==> r.cols == RemoveAt(t.cols, IndexOf(t.cols, AgeColumn))
    ensures GroupColumn !in t.cols ==> r.cols == RemoveAt(t.cols, IndexOf(t.cols, AgeColumn)) + [GroupColumn]
  {
    var ages := Column(t, AgeColumn);
    var withGroup := SetColumn(t, GroupColumn, AgeGroups(ages));
    assert Column(withGroup, AgeColumn) == ages;
    assert GroupColumn !in t.cols ==>
      RemoveAt(withGroup.cols, IndexOf(withGroup.cols, AgeColumn)) == RemoveAt(t.cols, IndexOf(t.cols, AgeColumn)) + [GroupColumn]
    by {
      if GroupColumn !in t.cols {
        IndexOfPrefix(t.cols, [GroupColumn], AgeColumn);
      }
    }
    DropColumn(withGroup, AgeColumn)
  }

  /** The binning stage: a no-op unless enabled and an age column exists. */
  function BinAge(t: Table, enabled: bool): (r: Table)
    requires WellFormed(t)
    ensures WellFormed(r) && |r.rows| == |t.rows|
    ensures !enabled || AgeColumn !in t.cols ==> r == t
    ensures enabled && AgeColumn in t.cols ==> r == ReplaceAge(t)
  {
    if enabled && AgeColumn in t.cols then ReplaceAge(t) else t
  }
}
