/** Quartiles as `Series.quantile` computes them with its default linear
    interpolation: sort the values, take the virtual position (n - 1) * p and
    interpolate between its two neighbours. Exact real arithmetic stands in
    for floating point. */
module Quantile {

  /** Non-decreasing order. */
  predicate Sorted(xs: seq<real>)
  {
    forall i, j :: 0 <= i < j < |xs| ==> xs[i] <= xs[j]
  }

  /** Insert `x` into a sorted sequence before the first larger element. */
  function Insert(x: real, xs: seq<real>): (r: seq<real>)
    requires Sorted(xs)
    ensures Sorted(r)
    ensures multiset(r) == multiset(xs) + multiset{x}
    ensures |r| == |xs| + 1
  {
    if |xs| == 0 then [x]
    else if x <= xs[0] then [x] + xs
    else
      var rest := Insert(x, xs[1..]);
      assert xs == [xs[0]] + xs[1..];
      LowerBound(xs[0], x, xs[1..], rest);
      SortedCons(xs[0], rest);
      [xs[0]] + rest
  }

  /** A sorted sequence stays sorted behind a lower bound of its elements. */
  lemma SortedCons(a: real, rest: seq<real>)
    requires Sorted(rest) && forall j :: 0 <= j < |rest| ==> a <= rest[j]
    ensures Sorted([a] + rest)
  {
    var r := [a] + rest;
    forall i, j | 0 <= i < j < |r|
      ensures r[i] <= r[j]
    {
      assert r[j] == rest[j - 1];
      if i > 0 {
        assert r[i] == rest[i - 1];
      }
    }
  }

  /** A bound below `x` and below every element of `tail` is below every
      element of a permutation of `tail` plus `x`. */
  lemma LowerBound(a: real, x: real, tail: seq<real>, rest: seq<real>)
    requires a <= x && multiset(rest) == multiset(tail) + multiset{x}
    requires forall j :: 0 <= j < |tail| ==> a <= tail[j]
    ensures forall j :: 0 <= j < |rest| ==> a <= rest[j]
  {
    forall j | 0 <= j < |rest|
      ensures a <= rest[j]
    {
      assert rest[j] in multiset(rest);
      if rest[j] != x {
        assert rest[j] in multiset(tail);
      }
    }
  }

  /** Insertion sort. */
  function Sort(xs: seq<real>): (r: seq<real>)
    ensures Sorted(r)
    ensures multiset(r) == multiset(xs)
    ensures |r| == |xs|
  {
    if |xs| == 0 then []
    else
      assert xs == xs[..|xs| - 1] + [xs[|xs| - 1]];
      Insert(xs[|xs| - 1], Sort(xs[..|xs| - 1]))
  }

  /** Where the virtual position (n - 1) * q / 4 falls: the index below it and
      the remainder in quarters. A non-zero remainder leaves room for the
      index above. */
  lemma QuarterPosition(n: nat, q: nat)
    requires n > 0 && q <= 4
    ensures ((n - 1) * q) / 4 < n
    ensures ((n - 1) * q) % 4 != 0 ==> ((n - 1) * q) / 4 + 1 < n
  {
    ScaleMonotone(n - 1, q, 4);
  }

  /** Multiplying by a natural number keeps the order. */
  lemma ScaleMonotone(a: nat, b: nat, c: nat)
    requires b <= c
    ensures a * b <= a * c
  {
  }

  /** Quotient and remainder by 4 grow together. */
  lemma QuarterSplit(h: nat, h': nat)
    requires h <= h'
    ensures h / 4 <= h' / 4
    ensures h / 4 == h' / 4 ==> h % 4 <= h' % 4
  {
  }

  /** Linear interpolation from `a` towards `b`, `r` quarters of the way. */
  function Lerp(a: real, b: real, r: nat): real
  {
    a + (b - a) * (r as real) / 4.0
  }

  /** Between two ordered neighbours, interpolation stays between them and
      grows with the fraction. */
  lemma LerpWithin(a: real, b: real, r: nat, r': nat)
    requires a <= b && r <= r' <= 4
    ensures a <= Lerp(a, b, r) <= Lerp(a, b, r') <= b
  {
    var d, x, x' := b - a, r as real, r' as real;
    ProductNonnegative(d, x);
    ProductNonnegative(d, x' - x);
    ProductNonnegative(d, 4.0 - x');
    assert d * x' - d * x == d * (x' - x);
    assert d * 4.0 - d * x' == d * (4.0 - x');
  }

  lemma ProductNonnegative(u: real, v: real)
    requires 0.0 <= u && 0.0 <= v
    ensures 0.0 <= u * v
  {
  }

  /** The q-th quartile (q quarters, 0 <= q <= 4) of sorted data, by linear
      interpolation between the neighbours of position (n - 1) * q / 4. */
  function Quarter(xs: seq<real>, q: nat): (v: real)
    requires |xs| > 0 && q <= 4 && Sorted(xs)
    ensures xs[0] <= v <= xs[|xs| - 1]
  {
    QuarterPosition(|xs|, q);
    var h := (|xs| - 1) * q;
    var i := h / 4;
    if h % 4 == 0 then xs[i]
    else
      LerpWithin(xs[i], xs[i + 1], h % 4, h % 4);
      assert xs[i + 1] <= xs[|xs| - 1];
      Lerp(xs[i], xs[i + 1], h % 4)
  }

  /** The interpolated value lies between the two neighbours of its position. */
  lemma QuarterBetween(xs: seq<real>, q: nat)
    requires |xs| > 0 && q <= 4 && Sorted(xs)
    ensures var i := ((|xs| - 1) * q) / 4;
      && xs[i] <= Quarter(xs, q)
      && (((|xs| - 1) * q) % 4 == 0 ==> Quarter(xs, q) == xs[i])
      && (((|xs| - 1) * q) % 4 != 0 ==> i + 1 < |xs| && Quarter(xs, q) <= xs[i + 1])
  {
    QuarterPosition(|xs|, q);
    var h := (|xs| - 1) * q;
    var i := h / 4;
    if h % 4 != 0 {
      LerpWithin(xs[i], xs[i + 1], h % 4, h % 4);
    }
  }

  /** Quantiles grow with the fraction: the first quartile never exceeds the
      third. */
  lemma QuarterMonotone(xs: seq<real>, q: nat, q': nat)
    requires |xs| > 0 && q <= q' <= 4 && Sorted(xs)
    ensures Quarter(xs, q) <= Quarter(xs, q')
  {
    var n := |xs|;
    ScaleMonotone(n - 1, q, q');
    var h, h' := (n - 1) * q, (n - 1) * q';
    QuarterSplit(h, h');
    var i, i' := h / 4, h' / 4;
    QuarterBetween(xs, q);
    QuarterBetween(xs, q');
    QuarterPosition(n, q);
    QuarterPosition(n, q');
    if i < i' {
      if h % 4 != 0 {
        assert xs[i + 1] <= xs[i'];
      }
    } else if h' % 4 != 0 {
      LerpWithin(xs[i], xs[i + 1], h % 4, h' % 4);
    }
  }
}
