/** The categories `get_dummies` finds in a string column: its distinct
    strings in sorted order, where strings compare lexicographically by code
    point (Python's `<` on `str`). */
module Categories {
  import opened Seqs
  import opened Frames

  /** Python's `a < b` on strings. */
  predicate LexLess(a: string, b: string)
  {
    |b| > 0 && (|a| == 0 || a[0] < b[0] || (a[0] == b[0] && LexLess(a[1..], b[1..])))
  }

  lemma {:induction false} LexIrreflexive(a: string)
    ensures !LexLess(a, a)
  {
    if |a| > 0 {
      LexIrreflexive(a[1..]);
    }
  }

  lemma {:induction false} LexTransitive(a: string, b: string, c: string)
    requires LexLess(a, b) && LexLess(b, c)
    ensures LexLess(a, c)
  {
    if |a| > 0 && a[0] == b[0] && b[0] == c[0] {
      LexTransitive(a[1..], b[1..], c[1..]);
    }
  }

  lemma {:induction false} LexTotal(a: string, b: string)
    ensures a == b || LexLess(a, b) || LexLess(b, a)
  {
    if |a| > 0 && |b| > 0 && a[0] == b[0] {
      LexTotal(a[1..], b[1..]);
      if a[1..] == b[1..] {
        assert a == [a[0]] + a[1..] && b == [b[0]] + b[1..];
      }
    }
  }

  /** Strictly increasing, hence without repetitions. */
  predicate StrictlySorted(s: seq<string>)
  {
    forall i, j :: 0 <= i < j < |s| ==> LexLess(s[i], s[j])
  }

  lemma StrictlySortedIsDistinct(s: seq<string>)
    requires StrictlySorted(s)
    ensures Distinct(s)
  {
    forall i, j | 0 <= i < j < |s|
      ensures s[i] != s[j]
    {
      LexIrreflexive(s[i]);
    }
  }

  /** Add `x` to a strictly sorted sequence, unless it is already there. */
  function InsertLevel(x: string, s: seq<string>): (r: seq<string>)
    requires StrictlySorted(s)
    ensures StrictlySorted(r)
    ensures forall y :: y in r <==> y in s || y == x
  {
    if |s| == 0 then [x]
    else if x == s[0] then s
    else if LexLess(x, s[0]) then
      assert forall j :: 0 <= j < |s| ==> LexLess(x, s[j]) by {
        forall j | 0 <= j < |s| ensures LexLess(x, s[j]) {
          if j > 0 { LexTransitive(x, s[0], s[j]); }
        }
      }
      [x] + s
    else
      LexTotal(x, s[0]);
      var rest := InsertLevel(x, s[1..]);
      assert s == [s[0]] + s[1..];
      assert forall j :: 0 <= j < |rest| ==> LexLess(s[0], rest[j]) by {
        forall j | 0 <= j < |rest| ensures LexLess(s[0], rest[j]) {
          assert rest[j] in s[1..] || rest[j] == x;
        }
      }
      [s[0]] + rest
  }

  /** The sorted distinct strings of a column; numbers and missing cells are
      not categories. */
  function Levels(vs: seq<Value>): (r: seq<string>)
    ensures StrictlySorted(r)
    ensures forall y :: y in r <==> Str(y) in vs
  {
    if |vs| == 0 then []
    else
      var n := |vs| - 1;
      var p := Levels(vs[..n]);
      assert vs == vs[..n] + [vs[n]];
      match vs[n]
      case Str(x) => InsertLevel(x, p)
      case _ => p
  }

  /** A column without strings has no levels. */
  lemma NoStringsNoLevels(vs: seq<Value>)
    requires forall k :: 0 <= k < |vs| ==> !vs[k].Str?
    ensures Levels(vs) == []
  {
  }

  /** The dropped reference level is the smallest string of the column. */
  lemma ReferenceIsSmallest(vs: seq<Value>, y: string)
    requires Levels(vs) != [] && Str(y) in vs && y != Levels(vs)[0]
    ensures LexLess(Levels(vs)[0], y)
  {
    var l := Levels(vs);
    var j :| 0 <= j < |l| && l[j] == y;
  }
}
