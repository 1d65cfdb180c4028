/** Stage 2 of the pipeline: `df.drop_duplicates()`, which removes every row
    equal in all columns to an earlier row and keeps the first occurrence. */
module Dedup {
  import opened Seqs
  import opened Frames

  /** The mask `~df.duplicated(keep="first")`: set where the element has not
      been seen before. */
  function FirstOccurrences<T(==)>(s: seq<T>): (m: seq<bool>)
    ensures |m| == |s|
  {
    seq(|s|, i requires 0 <= i < |s| => s[i] !in s[..i])
  }

  /** Reference definition: scan left to right, appending each element not
      already collected. */
  function Unique<T(==)>(s: seq<T>): (r: seq<T>)
    ensures Distinct(r)
    ensures forall i :: 0 <= i < |r| ==> r[i] in s
    ensures forall i :: 0 <= i < |s| ==> s[i] in r
  {
    if |s| == 0 then []
    else
      var p := Unique(s[..|s| - 1]);
      assert forall i :: 0 <= i < |s| - 1 ==> s[i] == s[..|s| - 1][i];
      if s[|s| - 1] in p then p else p + [s[|s| - 1]]
  }

  /** Selecting by the first-occurrence mask is the same as the left-to-right
      scan. */
  lemma {:induction false} FirstOccurrencesAreUnique<T>(s: seq<T>)
    ensures Pick(s, FirstOccurrences(s)) == Unique(s)
  {
    if |s| > 0 {
      var n := |s| - 1;
      assert FirstOccurrences(s)[..n] == FirstOccurrences(s[..n]) by {
        forall i | 0 <= i < n
          ensures FirstOccurrences(s)[..n][i] == FirstOccurrences(s[..n])[i]
        {
          assert s[..n][..i] == s[..i];
        }
      }
      FirstOccurrencesAreUnique(s[..n]);
    }
  }

  /** A sequence without repetitions is its own deduplication. */
  lemma {:induction false} UniqueOfDistinct<T>(s: seq<T>)
    requires Distinct(s)
    ensures Unique(s) == s
  {
    if |s| > 0 {
      var n := |s| - 1;
      UniqueOfDistinct(s[..n]);
      assert s[n] !in s[..n];
      assert s == s[..n] + [s[n]];
    }
  }

  /** Deduplicating twice is deduplicating once. */
  lemma UniqueIdempotent<T>(s: seq<T>)
    ensures Unique(Unique(s)) == Unique(s)
  {
    UniqueOfDistinct(Unique(s));
  }

  /** The rows kept by `drop_duplicates`, when the flag is on. */
  function Deduplicate(t: Table, enabled: bool): (r: Table)
    requires WellFormed(t)
    ensures WellFormed(r) && r.cols == t.cols && |r.rows| <= |t.rows|
    ensures !enabled ==> r == t
    ensures enabled ==> r.rows == Unique(t.rows)
    ensures enabled ==> Distinct(r.rows)
    ensures enabled ==> IsSubseq(r.rows, t.rows)
    ensures forall row :: row in r.rows <==> row in t.rows
  {
    if enabled then
      var kept := Pick(t.rows, FirstOccurrences(t.rows));
      FirstOccurrencesAreUnique(t.rows);
      PickIsSubseq(t.rows, FirstOccurrences(t.rows));
      Table(t.cols, kept)
    else t
  }

  /** Running the stage a second time changes nothing. */
  lemma DeduplicateIdempotent(t: Table, enabled: bool)
    requires WellFormed(t)
    ensures Deduplicate(Deduplicate(t, enabled), enabled) == Deduplicate(t, enabled)
  {
    if enabled {
      UniqueIdempotent(t.rows);
    }
  }

  /** Each column of the deduplicated table holds only values of the same
      column of the input; in particular a bad label survives deduplication
      exactly when the input holds one. */
  lemma DeduplicateKeepsColumnValues(t: Table, enabled: bool, c: string, v: Value)
    requires WellFormed(t) && c in t.cols
    ensures v in Column(Deduplicate(t, enabled), c) <==> v in Column(t, c)
  {
    var r := Deduplicate(t, enabled);
    var i := IndexOf(t.cols, c);
    if v in Column(t, c) {
      var k :| 0 <= k < |t.rows| && Column(t, c)[k] == v;
      assert t.rows[k] in r.rows;
      var k' :| 0 <= k' < |r.rows| && r.rows[k'] == t.rows[k];
      assert Column(r, c)[k'] == v;
    }
    if v in Column(r, c) {
      var k :| 0 <= k < |r.rows| && Column(r, c)[k] == v;
      assert r.rows[k] in t.rows;
      var k' :| 0 <= k' < |t.rows| && t.rows[k'] == r.rows[k];
      assert Column(t, c)[k'] == v;
    }
  }
}
