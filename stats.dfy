/** Stand-ins for the numpy statistics the pipeline uses on one-dimensional
    data: minimum, maximum, sum, sort, median and linear-interpolation
    percentile, on exact reals. */
module Stats {

  /** Smallest element (np.amin on a vector). */
  function SeqMin(s: seq<real>): (m: real)
    requires |s| > 0
    ensures m in s
    ensures forall x :: x in s ==> m <= x
  {
    if |s| == 1 then s[0]
    else
      var t := SeqMin(s[1..]);
      assert forall x :: x in s ==> x == s[0] || x in s[1..];
      if s[0] <= t then s[0] else t
  }

  /** Largest element (np.amax on a vector). */
  function SeqMax(s: seq<real>): (m: real)
    requires |s| > 0
    ensures m in s
    ensures forall x :: x in s ==> x <= m
  {
    if |s| == 1 then s[0]
    else
      var t := SeqMax(s[1..]);
      assert forall x :: x in s ==> x == s[0] || x in s[1..];
      if s[0] >= t then s[0] else t
  }

  predicate Sorted(s: seq<real>)
  {
    forall i, j :: 0 <= i < j < |s| ==> s[i] <= s[j]
  }

  /** Inserts `x` before the first element of `s` that is not smaller. */
  function Insert(x: real, s: seq<real>): (r: seq<real>)
    ensures |r| == |s| + 1
  {
    if |s| == 0 || x <= s[0] then [x] + s else [s[0]] + Insert(x, s[1..])
  }

  /** np.sort, as an insertion sort. */
  function Sort(s: seq<real>): (r: seq<real>)
    ensures |r| == |s|
  {
    if |s| == 0 then [] else Insert(s[0], Sort(s[1..]))
  }

  /** Putting a value no larger than any element in front of a sorted
      sequence keeps it sorted. */
  lemma SortedCons(a: real, t: seq<real>)
    requires Sorted(t)
    requires forall k :: 0 <= k < |t| ==> a <= t[k]
    ensures Sorted([a] + t)
  {
    var r := [a] + t;
    forall i, j | 0 <= i < j < |r| ensures r[i] <= r[j] {
      if i > 0 { assert r[i] == t[i - 1] && r[j] == t[j - 1]; } else { assert r[j] == t[j - 1]; }
    }
  }

  /** A lower bound of `x` and of every element of `s` bounds the result of
      inserting `x` into `s`. */
  lemma {:induction false} InsertLowerBound(x: real, s: seq<real>, lo: real)
    requires lo <= x
    requires forall k :: 0 <= k < |s| ==> lo <= s[k]
    ensures forall k :: 0 <= k < |Insert(x, s)| ==> lo <= Insert(x, s)[k]
  {
    if |s| > 0 && x > s[0] {
      InsertLowerBound(x, s[1..], lo);
      assert Insert(x, s) == [s[0]] + Insert(x, s[1..]);
    }
  }

  /** Inserting adds exactly `x` to the elements. */
  lemma {:induction false} InsertAdds(x: real, s: seq<real>)
    ensures multiset(Insert(x, s)) == multiset(s) + multiset{x}
  {
    if |s| > 0 && x > s[0] {
      InsertAdds(x, s[1..]);
      assert s == [s[0]] + s[1..];
      assert Insert(x, s) == [s[0]] + Insert(x, s[1..]);
    }
  }

  /** Inserting into a sorted sequence keeps it sorted and adds exactly `x`. */
  lemma {:induction false} InsertSorted(x: real, s: seq<real>)
    requires Sorted(s)
    ensures Sorted(Insert(x, s))
    ensures multiset(Insert(x, s)) == multiset(s) + multiset{x}
  {
    InsertAdds(x, s);
    if |s| == 0 {
    } else if x <= s[0] {
      SortedCons(x, s);
    } else {
      var t := Insert(x, s[1..]);
      InsertSorted(x, s[1..]);
      assert Sorted(s[1..]);
      InsertLowerBound(x, s[1..], s[0]);
      SortedCons(s[0], t);
      assert Insert(x, s) == [s[0]] + t;
    }
  }

  /** Sort returns an ascending rearrangement of its input. */
  lemma {:induction false} SortSorted(s: seq<real>)
    ensures Sorted(Sort(s))
    ensures multiset(Sort(s)) == multiset(s)
  {
    if |s| > 0 {
      SortSorted(s[1..]);
      InsertSorted(s[0], Sort(s[1..]));
      assert s == [s[0]] + s[1..];
    }
  }

  /** np.median: the middle element of the sorted data, or the mean of the
      two middle elements when the length is even. */
  function Median(s: seq<real>): real
    requires |s| > 0
  {
    var t := Sort(s);
    var n := |t|;
    if n % 2 == 1 then t[n / 2] else (t[n / 2 - 1] + t[n / 2]) / 2.0
  }

  /** Position of the `q`-th percentile among `n` sorted values, as numpy's
      default "linear" method places it: q / 100 * (n - 1). */
  function Rank(q: real, n: nat): (pos: real)
    requires 0.0 <= q <= 100.0 && n > 0
    ensures 0.0 <= pos <= (n - 1) as real
  {
    var f := q / 100.0;
    assert 0.0 <= f <= 1.0;
    var m := (n - 1) as real;
    var pos := f * m;
    ScaledBetween(m, f);
    assert f * m == m * f;
    pos
  }

  /** Linear interpolation at real position `pos` of the sorted sequence `t`. */
  function Interpolate(t: seq<real>, pos: real): real
    requires |t| > 0 && 0.0 <= pos <= (|t| - 1) as real
  {
    var lower := pos.Floor;
    var upper := if lower + 1 < |t| then lower + 1 else lower;
    var gamma := pos - lower as real;
    Lerp(t[lower], t[upper], gamma)
  }

  /** The point a fraction `g` of the way from `a` to `b`. */
  function Lerp(a: real, b: real, g: real): real
  {
    a + Mul(b - a, g)
  }

  /** x * y, named so that facts about a product of differences are stated
      once, about the product's parameters. */
  function Mul(x: real, y: real): real
  {
    x * y
  }

  /** np.percentile(s, q) with the default linear interpolation. */
  function Percentile(s: seq<real>, q: real): real
    requires |s| > 0 && 0.0 <= q <= 100.0
  {
    Interpolate(Sort(s), Rank(q, |s|))
  }

  // ----- properties -----

  /** Every element of a sorted rearrangement of `s` is an element of `s`. */
  lemma SortedElementsFrom(s: seq<real>, k: int)
    requires 0 <= k < |s|
    ensures Sort(s)[k] in s
  {
    SortSorted(s);
    var t := Sort(s);
    assert t[k] in multiset(t);
  }

  /** The median lies between the smallest and the largest element. */
  lemma MedianBetween(s: seq<real>)
    requires |s| > 0
    ensures SeqMin(s) <= Median(s) <= SeqMax(s)
  {
    var t := Sort(s);
    var n := |t|;
    SortedElementsFrom(s, n / 2);
    if n % 2 == 0 {
      SortedElementsFrom(s, n / 2 - 1);
      assert Median(s) == (t[n / 2 - 1] + t[n / 2]) / 2.0;
    } else {
      assert Median(s) == t[n / 2];
    }
  }

  /** 0 <= x * g <= x for x >= 0 and 0 <= g <= 1. */
  lemma ScaledBetween(x: real, g: real)
    requires x >= 0.0 && 0.0 <= g <= 1.0
    ensures 0.0 <= x * g <= x
  {
    assert x - x * g == x * (1.0 - g);
  }

  /** A point on the segment from `a` to `b` lies between any bounds of both ends. */
  lemma LerpBetween(a: real, b: real, g: real, lo: real, hi: real)
    requires lo <= a <= hi && lo <= b <= hi && 0.0 <= g <= 1.0
    ensures lo <= Lerp(a, b, g) <= hi
  {
    if a <= b {
      MulBetween(b - a, g);
    } else {
      MulBetweenNegative(b - a, g);
    }
  }

  /** 0 <= x * g <= x for x >= 0 and 0 <= g <= 1. */
  lemma MulBetween(x: real, g: real)
    requires x >= 0.0 && 0.0 <= g <= 1.0
    ensures 0.0 <= Mul(x, g) <= x
  {
    ScaledBetween(x, g);
  }

  /** x <= x * g <= 0 for x <= 0 and 0 <= g <= 1. */
  lemma MulBetweenNegative(x: real, g: real)
    requires x <= 0.0 && 0.0 <= g <= 1.0
    ensures x <= Mul(x, g) <= 0.0
  {
    MulBetween(-x, g);
    MulNegate(x, g);
  }

  /** x * g == -((-x) * g). */
  lemma MulNegate(x: real, g: real)
    ensures Mul(x, g) == -Mul(-x, g)
  {
  }

  /** x * g < x for x > 0 and 0 <= g < 1. */
  lemma MulBelow(x: real, g: real)
    requires x > 0.0 && 0.0 <= g < 1.0
    ensures Mul(x, g) < x
  {
    assert x - x * g == x * (1.0 - g);
  }

  /** x * g > 0 for x > 0 and g > 0. */
  lemma MulPositive(x: real, g: real)
    requires x > 0.0 && g > 0.0
    ensures Mul(x, g) > 0.0
  {
  }

  /** The integer part of a rank and the fraction that remains. */
  lemma FloorFacts(pos: real)
    ensures pos.Floor as real <= pos < pos.Floor as real + 1.0
  {
  }

  /** The interpolated value is bounded by any bounds of `t`. */
  lemma InterpolateBetween(t: seq<real>, pos: real, lo: real, hi: real)
    requires |t| > 0 && 0.0 <= pos <= (|t| - 1) as real
    requires forall k :: 0 <= k < |t| ==> lo <= t[k] <= hi
    ensures lo <= Interpolate(t, pos) <= hi
  {
    FloorFacts(pos);
    var lower := pos.Floor;
    var upper := if lower + 1 < |t| then lower + 1 else lower;
    LerpBetween(t[lower], t[upper], pos - lower as real, lo, hi);
  }

  /** A percentile lies between the smallest and the largest element. */
  lemma PercentileBetween(s: seq<real>, q: real)
    requires |s| > 0 && 0.0 <= q <= 100.0
    ensures SeqMin(s) <= Percentile(s, q) <= SeqMax(s)
  {
    var t := Sort(s);
    forall k | 0 <= k < |t| ensures SeqMin(s) <= t[k] <= SeqMax(s) {
      SortedElementsFrom(s, k);
    }
    InterpolateBetween(t, Rank(q, |s|), SeqMin(s), SeqMax(s));
  }

  /** On sorted data, interpolation is monotone in the position. */
  lemma InterpolateMonotone(t: seq<real>, p1: real, p2: real)
    requires |t| > 0 && Sorted(t)
    requires 0.0 <= p1 <= p2 <= (|t| - 1) as real
    ensures Interpolate(t, p1) <= Interpolate(t, p2)
  {
    FloorFacts(p1);
    FloorFacts(p2);
    var l1, l2 := p1.Floor, p2.Floor;
    var u1 := if l1 + 1 < |t| then l1 + 1 else l1;
    var u2 := if l2 + 1 < |t| then l2 + 1 else l2;
    var g1, g2 := p1 - l1 as real, p2 - l2 as real;
    assert Interpolate(t, p1) == Lerp(t[l1], t[u1], g1);
    assert Interpolate(t, p2) == Lerp(t[l2], t[u2], g2);
    if l1 == l2 {
      LerpMonotone(t[l1], t[u1], g1, g2);
    } else {
      assert u1 <= l2;
      LerpAtMostEnd(t[l1], t[u1], g1);
      LerpAtLeastStart(t[l2], t[u2], g2);
    }
  }

  /** On a rising segment, a larger fraction gives a point at least as far. */
  lemma LerpMonotone(a: real, b: real, g1: real, g2: real)
    requires a <= b && 0.0 <= g1 <= g2 <= 1.0
    ensures Lerp(a, b, g1) <= Lerp(a, b, g2)
  {
    MulBetween(b - a, g2 - g1);
    MulDifference(b - a, g1, g2);
  }

  /** x * g2 - x * g1 == x * (g2 - g1). */
  lemma MulDifference(x: real, g1: real, g2: real)
    ensures Mul(x, g2) - Mul(x, g1) == Mul(x, g2 - g1)
  {
  }

  /** A higher percentile is never smaller than a lower one. */
  lemma PercentileMonotone(s: seq<real>, q1: real, q2: real)
    requires |s| > 0 && 0.0 <= q1 <= q2 <= 100.0
    ensures Percentile(s, q1) <= Percentile(s, q2)
  {
    var n := |s|;
    var f1, f2 := q1 / 100.0, q2 / 100.0;
    assert f1 <= f2;
    assert f2 * (n - 1) as real - f1 * (n - 1) as real == (f2 - f1) * (n - 1) as real;
    ScaledBetween((n - 1) as real, f2 - f1);
    SortSorted(s);
    InterpolateMonotone(Sort(s), Rank(q1, n), Rank(q2, n));
  }

  /** An element different from every other element occurs exactly once. */
  lemma OccursOnce(s: seq<real>, c: int)
    requires 0 <= c < |s|
    requires forall j :: 0 <= j < |s| && j != c ==> s[j] != s[c]
    ensures multiset(s)[s[c]] == 1
  {
    var a, b := s[..c], s[c + 1..];
    assert s == a + [s[c]] + b;
    assert forall j :: 0 <= j < |a| ==> a[j] == s[j];
    assert forall j :: 0 <= j < |b| ==> b[j] == s[c + 1 + j];
    assert s[c] !in a && s[c] !in b;
  }

  /** Two positions holding the same value give it at least two copies. */
  lemma TwoCopies(t: seq<real>, i: int, j: int)
    requires 0 <= i < j < |t|
    ensures t[i] == t[j] ==> multiset(t)[t[i]] >= 2
  {
    if t[i] == t[j] {
      assert t == t[..i] + [t[i]] + t[i + 1..j] + [t[j]] + t[j + 1..];
    }
  }

  /** In an ascending rearrangement `t` of `s`, an element of `s` that is
      larger than every other comes last and alone. */
  lemma RearrangedUniqueMax(s: seq<real>, t: seq<real>, c: int)
    requires |s| >= 2 && 0 <= c < |s|
    requires forall j :: 0 <= j < |s| && j != c ==> s[j] < s[c]
    requires Sorted(t) && multiset(t) == multiset(s)
    ensures |t| == |s| && t[|t| - 1] == s[c] && t[|t| - 2] < s[c]
  {
    assert |t| == |multiset(t)| == |s|;
    var n := |t|;
    forall k | 0 <= k < n ensures t[k] <= s[c] {
      assert t[k] in multiset(s);
      var j :| 0 <= j < |s| && s[j] == t[k];
    }
    assert s[c] in multiset(t);
    var m :| 0 <= m < n && t[m] == s[c];
    assert t[m] <= t[n - 1];
    OccursOnce(s, c);
    TwoCopies(t, n - 2, n - 1);
  }

  /** In an ascending rearrangement `t` of `s`, an element of `s` that is
      smaller than every other comes first and alone. */
  lemma RearrangedUniqueMin(s: seq<real>, t: seq<real>, c: int)
    requires |s| >= 2 && 0 <= c < |s|
    requires forall j :: 0 <= j < |s| && j != c ==> s[j] > s[c]
    requires Sorted(t) && multiset(t) == multiset(s)
    ensures |t| == |s| && t[0] == s[c] && t[1] > s[c]
  {
    assert |t| == |multiset(t)| == |s|;
    var n := |t|;
    forall k | 0 <= k < n ensures t[k] >= s[c] {
      assert t[k] in multiset(s);
      var j :| 0 <= j < |s| && s[j] == t[k];
    }
    assert s[c] in multiset(t);
    var m :| 0 <= m < n && t[m] == s[c];
    assert t[0] <= t[m];
    OccursOnce(s, c);
    TwoCopies(t, 0, 1);
  }

  /** Below the 100th percentile the rank falls short of the last position. */
  lemma RankBelowTop(q: real, n: nat)
    requires 0.0 <= q < 100.0 && n >= 2
    ensures Rank(q, n) < (n - 1) as real
  {
    var f, m := q / 100.0, (n - 1) as real;
    var h := 1.0 - f;
    assert h > 0.0 && m > 0.0;
    assert h * m > 0.0;
    assert f * m + h * m == m;
  }

  /** Above the 0th percentile the rank is past the first position. */
  lemma RankAboveBottom(q: real, n: nat)
    requires 0.0 < q <= 100.0 && n >= 2
    ensures Rank(q, n) > 0.0
  {
    var f, m := q / 100.0, (n - 1) as real;
    assert f > 0.0 && m > 0.0;
    assert f * m > 0.0;
  }

  /** On sorted data whose last element is larger than the one before it,
      interpolating short of the last position stays below the last element. */
  lemma InterpolateBelowLast(t: seq<real>, pos: real)
    requires |t| >= 2 && Sorted(t) && t[|t| - 2] < t[|t| - 1]
    requires 0.0 <= pos < (|t| - 1) as real
    ensures Interpolate(t, pos) < t[|t| - 1]
  {
    var n := |t|;
    FloorFacts(pos);
    var lower := pos.Floor;
    var gamma := pos - lower as real;
    assert 0 <= lower <= n - 2 && 0.0 <= gamma < 1.0;
    var upper := if lower + 1 < n then lower + 1 else lower;
    assert upper == lower + 1;
    var a, b := t[lower], t[upper];
    assert a <= b;
    assert Interpolate(t, pos) == Lerp(a, b, gamma);
    if lower + 1 <= n - 2 {
      LerpAtMostEnd(a, b, gamma);
      assert b <= t[n - 2];
    } else {
      LerpBelowEnd(a, b, gamma);
    }
  }

  /** A point on the segment from a to b, short of b, is below b. */
  lemma LerpBelowEnd(a: real, b: real, g: real)
    requires a < b && 0.0 <= g < 1.0
    ensures Lerp(a, b, g) < b
  {
    MulBelow(b - a, g);
  }

  /** A point on the segment from a to b, past a, is above a. */
  lemma LerpAboveStart(a: real, b: real, g: real)
    requires a < b && 0.0 < g
    ensures Lerp(a, b, g) > a
  {
    MulPositive(b - a, g);
  }

  /** A point on the segment from a to b, at or past a, is at least a. */
  lemma LerpAtLeastStart(a: real, b: real, g: real)
    requires a <= b && 0.0 <= g <= 1.0
    ensures Lerp(a, b, g) >= a
  {
    MulBetween(b - a, g);
  }

  /** A point on the segment from a to b is at most b. */
  lemma LerpAtMostEnd(a: real, b: real, g: real)
    requires a <= b && 0.0 <= g <= 1.0
    ensures Lerp(a, b, g) <= b
  {
    MulBetween(b - a, g);
  }

  /** On sorted data whose first element is smaller than the one after it,
      interpolating past the first position stays above the first element. */
  lemma InterpolateAboveFirst(t: seq<real>, pos: real)
    requires |t| >= 2 && Sorted(t) && t[0] < t[1]
    requires 0.0 < pos <= (|t| - 1) as real
    ensures Interpolate(t, pos) > t[0]
  {
    var n := |t|;
    FloorFacts(pos);
    var lower := pos.Floor;
    var upper := if lower + 1 < n then lower + 1 else lower;
    var gamma := pos - lower as real;
    var a, b := t[lower], t[upper];
    assert Interpolate(t, pos) == Lerp(a, b, gamma);
    if lower >= 1 {
      assert t[0] < t[1] <= a <= b;
      LerpAtLeastStart(a, b, gamma);
    } else {
      assert upper == 1 && gamma == pos && a == t[0] && b == t[1];
      LerpAboveStart(a, b, gamma);
    }
  }

  /** Any percentile below the 100th lies strictly below an element that is
      larger than every other. */
  lemma PercentileBelowUniqueMax(s: seq<real>, q: real, c: int)
    requires |s| >= 2 && 0.0 <= q < 100.0 && 0 <= c < |s|
    requires forall j :: 0 <= j < |s| && j != c ==> s[j] < s[c]
    ensures Percentile(s, q) < s[c]
  {
    var n, t := |s|, Sort(s);
    SortSorted(s);
    RearrangedUniqueMax(s, t, c);
    RankBelowTop(q, n);
    InterpolateBelowLast(t, Rank(q, n));
  }

  /** Any percentile above the 0th lies strictly above an element that is
      smaller than every other. */
  lemma PercentileAboveUniqueMin(s: seq<real>, q: real, c: int)
    requires |s| >= 2 && 0.0 < q <= 100.0 && 0 <= c < |s|
    requires forall j :: 0 <= j < |s| && j != c ==> s[j] > s[c]
    ensures Percentile(s, q) > s[c]
  {
    var n, t := |s|, Sort(s);
    SortSorted(s);
    RearrangedUniqueMin(s, t, c);
    RankAboveBottom(q, n);
    InterpolateAboveFirst(t, Rank(q, n));
  }
}
