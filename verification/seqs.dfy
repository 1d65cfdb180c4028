/** Sequence facts shared by the pipeline stages: boolean-mask selection (the way
    a data frame keeps a subset of its rows or columns), subsequences,
    distinctness, lookup by first occurrence and removal of one position. */
module Seqs {

  /** No element occurs twice. */
  predicate Distinct<T(==)>(s: seq<T>)
  {
    forall i, j :: 0 <= i < j < |s| ==> s[i] != s[j]
  }

  /** Number of set flags in a mask. */
  function CountTrue(m: seq<bool>): (n: nat)
    ensures n <= |m|
  {
    if |m| == 0 then 0 else CountTrue(m[..|m| - 1]) + (if m[|m| - 1] then 1 else 0)
  }

  /** The elements of `s` whose flag in `keep` is set, in their original order:
      boolean-mask selection, `frame[mask]`. */
  function Pick<T>(s: seq<T>, keep: seq<bool>): (r: seq<T>)
    requires |keep| == |s|
    ensures |r| == CountTrue(keep)
  {
    if |s| == 0 then []
    else Pick(s[..|s| - 1], keep[..|s| - 1]) + (if keep[|s| - 1] then [s[|s| - 1]] else [])
  }

  /** `a` can be obtained from `b` by deleting elements, without reordering. */
  predicate IsSubseq<T(==)>(a: seq<T>, b: seq<T>)
    decreases |b|
  {
    if |a| == 0 then true
    else if |b| == 0 then false
    else (a[|a| - 1] == b[|b| - 1] && IsSubseq(a[..|a| - 1], b[..|b| - 1]))
         || IsSubseq(a, b[..|b| - 1])
  }

  /** Position of the first occurrence of `x` in `s`. */
  function IndexOf<T(==)>(s: seq<T>, x: T): (i: nat)
    requires x in s
    ensures i < |s| && s[i] == x && x !in s[..i]
  {
    if s[0] == x then 0 else
      assert s == [s[0]] + s[1..];
      1 + IndexOf(s[1..], x)
  }

  /** `s` without its element at position `i`. */
  function RemoveAt<T>(s: seq<T>, i: nat): (r: seq<T>)
    requires i < |s|
    ensures |r| == |s| - 1
    ensures forall j :: 0 <= j < i ==> r[j] == s[j]
    ensures forall j :: i <= j < |r| ==> r[j] == s[j + 1]
  {
    s[..i] + s[i + 1..]
  }

  /** Selection keeps exactly the elements whose flag is set. */
  lemma {:induction false} PickMembers<T>(s: seq<T>, keep: seq<bool>, x: T)
    requires |keep| == |s|
    ensures x in Pick(s, keep) <==> exists i :: 0 <= i < |s| && keep[i] && s[i] == x
  {
    if |s| > 0 {
      var n := |s| - 1;
      PickMembers(s[..n], keep[..n], x);
      if x in Pick(s[..n], keep[..n]) {
        var i :| 0 <= i < n && keep[..n][i] && s[..n][i] == x;
        assert keep[i] && s[i] == x;
      }
      if exists i :: 0 <= i < |s| && keep[i] && s[i] == x {
        var i :| 0 <= i < |s| && keep[i] && s[i] == x;
        if i < n {
          assert keep[..n][i] && s[..n][i] == x;
        }
      }
    }
  }

  /** Selection by a mask computed from the elements themselves keeps every
      copy of an element satisfying the predicate and no copy of any other. */
  lemma {:induction false} PickByPredicate<T>(s: seq<T>, keep: seq<bool>, p: T -> bool, x: T)
    requires |keep| == |s|
    requires forall i :: 0 <= i < |s| ==> keep[i] == p(s[i])
    ensures multiset(Pick(s, keep))[x] == if p(x) then multiset(s)[x] else 0
  {
    if |s| > 0 {
      var n := |s| - 1;
      var front := Pick(s[..n], keep[..n]);
      PickByPredicate(s[..n], keep[..n], p, x);
      assert s == s[..n] + [s[n]];
      assert multiset(s) == multiset(s[..n]) + multiset{s[n]};
      if keep[n] {
        assert multiset(Pick(s, keep)) == multiset(front) + multiset{s[n]};
      } else {
        assert Pick(s, keep) == front;
      }
    }
  }

  /** The element kept from position `j` lands at position "number of kept
      elements before `j`". */
  lemma {:induction false} PickAt<T>(s: seq<T>, keep: seq<bool>, j: nat)
    requires |keep| == |s| && j < |s| && keep[j]
    ensures CountTrue(keep[..j]) < |Pick(s, keep)|
    ensures Pick(s, keep)[CountTrue(keep[..j])] == s[j]
  {
    var n := |s| - 1;
    if j == n {
      assert keep[..n] == keep[..j];
    } else {
      assert keep[..n][..j] == keep[..j];
      PickAt(s[..n], keep[..n], j);
    }
  }

  /** Selection from a sequence without repetitions has none. */
  lemma {:induction false} PickDistinct<T>(s: seq<T>, keep: seq<bool>)
    requires |keep| == |s| && Distinct(s)
    ensures Distinct(Pick(s, keep))
  {
    if |s| > 0 {
      var n := |s| - 1;
      PickDistinct(s[..n], keep[..n]);
      if keep[n] {
        PickMembers(s[..n], keep[..n], s[n]);
      }
    }
  }

  /** Selection is an order-preserving subsequence. */
  lemma {:induction false} PickIsSubseq<T>(s: seq<T>, keep: seq<bool>)
    requires |keep| == |s|
    ensures IsSubseq(Pick(s, keep), s)
  {
    if |s| > 0 {
      var n := |s| - 1;
      var p := Pick(s[..n], keep[..n]);
      PickIsSubseq(s[..n], keep[..n]);
      if keep[n] {
        var r := p + [s[n]];
        assert r[..|r| - 1] == p;
      } else {
        assert Pick(s, keep) == p;
        assert s[..|s| - 1] == s[..n];
      }
    }
  }

  /** In a sequence without repetitions the first occurrence is the only one. */
  lemma IndexOfDistinct<T>(s: seq<T>, p: nat)
    requires Distinct(s) && p < |s|
    ensures IndexOf(s, s[p]) == p
  {
  }

  /** Looking up an element of a prefix ignores what follows the prefix. */
  lemma IndexOfPrefix<T>(a: seq<T>, b: seq<T>, x: T)
    requires x in a
    ensures x in a + b && IndexOf(a + b, x) == IndexOf(a, x)
  {
    var i := IndexOf(a, x);
    assert (a + b)[i] == x;
  }

  /** Removing a position from a sequence without repetitions removes exactly
      that element and keeps the rest distinct. */
  lemma RemoveAtMembers<T>(s: seq<T>, i: nat)
    requires Distinct(s) && i < |s|
    ensures Distinct(RemoveAt(s, i))
    ensures forall x :: x in RemoveAt(s, i) <==> x in s && x != s[i]
  {
    var r := RemoveAt(s, i);
    forall x | x in s && x != s[i]
      ensures x in r
    {
      var j :| 0 <= j < |s| && s[j] == x;
      if j < i { assert r[j] == x; } else { assert r[j - 1] == x; }
    }
  }

  /** Every sequence is a subsequence of itself. */
  lemma {:induction false} SubseqReflexive<T>(s: seq<T>)
    ensures IsSubseq(s, s)
  {
    if |s| > 0 {
      SubseqReflexive(s[..|s| - 1]);
    }
  }

  /** A subsequence holds only elements of the sequence it comes from and is
      no longer. */
  lemma {:induction false} SubseqMembers<T>(a: seq<T>, b: seq<T>)
    requires IsSubseq(a, b)
    ensures |a| <= |b|
    ensures forall x :: x in a ==> x in b
    decreases |b|
  {
    if |a| > 0 {
      var n := |b| - 1;
      if a[|a| - 1] == b[n] && IsSubseq(a[..|a| - 1], b[..n]) {
        SubseqMembers(a[..|a| - 1], b[..n]);
        assert a == a[..|a| - 1] + [b[n]];
      } else {
        SubseqMembers(a, b[..n]);
      }
    }
  }
}
