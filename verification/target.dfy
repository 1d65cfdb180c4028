/** Stage 3 of the pipeline: the target column `y` must exist, its labels are
    mapped "yes" to 1 and "no" to 0 with `Series.map`, and any other label
    (which the map turns into NaN) aborts the run. */
module Target {
  import opened Seqs
  import opened Frames

  /** A raw label the encoding accepts. */
  predicate ValidLabel(v: Value)
  {
    v == Str("yes") || v == Str("no")
  }

  /** An encoded label. */
  predicate IsBinary(v: Value)
  {
    v == Num(1.0) || v == Num(0.0)
  }

  /** `Series.map({"yes": 1, "no": 0})` on one cell: unmatched values become NaN. */
  function EncodeLabel(v: Value): (e: Value)
    ensures ValidLabel(v) <==> e != Null
    ensures e != Null ==> IsBinary(e)
    ensures e == Num(1.0) <==> v == Str("yes")
  {
    match v
    case Str(s) => if s == "yes" then Num(1.0) else if s == "no" then Num(0.0) else Null
    case _ => Null
  }

  /** `Series.isnull().any()`. */
  predicate HasNull(vs: seq<Value>)
  {
    exists k :: 0 <= k < |vs| && vs[k] == Null
  }

  /** Presence check, then the mapping, then the invalid-value check, in the
      order the pipeline performs them. */
  function EncodeTarget(t: Table): (r: Result<Table>)
    requires WellFormed(t)
    ensures TargetColumn !in t.cols <==> r == Err(MissingTarget)
    ensures r == Err(InvalidTarget) <==>
      TargetColumn in t.cols && exists k :: 0 <= k < |t.rows| && !ValidLabel(Column(t, TargetColumn)[k])
    ensures r.Ok? || r == Err(MissingTarget) || r == Err(InvalidTarget)
    ensures r.Ok? ==> WellFormed(r.value) && r.value.cols == t.cols && |r.value.rows| == |t.rows|
    ensures r.Ok? ==> forall k :: 0 <= k < |t.rows| ==>
      && IsBinary(Column(r.value, TargetColumn)[k])
      && (Column(r.value, TargetColumn)[k] == Num(1.0) <==> Column(t, TargetColumn)[k] == Str("yes"))
    ensures r.Ok? ==> forall c :: c in t.cols && c != TargetColumn ==> Column(r.value, c) == Column(t, c)
  {
    if TargetColumn !in t.cols then Err(MissingTarget)
    else
      var labels := Column(t, TargetColumn);
      var mapped := SetColumn(t, TargetColumn, seq(|labels|, k requires 0 <= k < |labels| => EncodeLabel(labels[k])));
      var encoded := Column(mapped, TargetColumn);
      assert forall k :: 0 <= k < |t.rows| ==> (encoded[k] == Null <==> !ValidLabel(labels[k]));
      if HasNull(encoded) then Err(InvalidTarget) else Ok(mapped)
  }
}
