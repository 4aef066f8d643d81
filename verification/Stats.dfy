/** Benchmark statistics over the reals: interpolated percentiles and a bootstrap interval of the median. */
module Stats {

  ghost predicate Sorted(s: seq<real>) {
    forall i, j :: 0 <= i <= j < |s| ==> s[i] <= s[j]
  }

  // ---------------------------------------------------------------- percentiles

  function Ceil(r: real): int {
    if r.Floor as real == r then r.Floor else r.Floor + 1
  }

  function Times(x: real, y: real): real {
    x * y
  }

  /** The value at a fractional position: on the straight line between its two neighbours. */
  function At(s: seq<real>, rank: real): real
    requires 0.0 <= rank <= (|s| - 1) as real
  {
    var lo, hi := rank.Floor, Ceil(rank);
    s[lo] + Times(s[hi] - s[lo], rank - lo as real)
  }

  function Rank(n: nat, p: real): (r: real)
    requires n >= 1 && 0.0 <= p <= 100.0
    ensures 0.0 <= r <= (n - 1) as real
  {
    var f, m := p / 100.0, (n - 1) as real;
    Shrink(m, f);
    Times(m, f)
  }

  /** A share of a non-negative number. */
  lemma Shrink(d: real, f: real)
    requires d >= 0.0 && 0.0 <= f <= 1.0
    ensures 0.0 <= Times(d, f) <= d
  {
    Grow(d, 0.0, f);
    Grow(d, f, 1.0);
  }

  lemma Grow(d: real, f: real, g: real)
    requires d >= 0.0 && f <= g
    ensures Times(d, f) <= Times(d, g)
  {
    var x := g - f;
    assert d * x >= 0.0;
    assert d * g == d * f + d * x;
  }

  function Percentile(sorted: seq<real>, p: real): real
    requires 0.0 <= p <= 100.0
  {
    if |sorted| == 0 then 0.0
    else if |sorted| == 1 then sorted[0]
    else At(sorted, Rank(|sorted|, p))
  }

  lemma AtIsBetween(s: seq<real>, r: real)
    requires Sorted(s) && 0.0 <= r <= (|s| - 1) as real
    ensures s[r.Floor] <= At(s, r) <= s[Ceil(r)]
  {
    var d, f := s[Ceil(r)] - s[r.Floor], r - r.Floor as real;
    Shrink(d, f);
    assert At(s, r) == s[r.Floor] + Times(d, f);
  }

  /** Between two ranks the value is their weighted mean, both ends included. */
  lemma AtIsWeightedMean(s: seq<real>, k: nat, f: real)
    requires k + 1 < |s| && 0.0 <= f <= 1.0
    ensures At(s, k as real + f) == Times(s[k], 1.0 - f) + Times(s[k + 1], f)
  {
    var rank := k as real + f;
    if f == 1.0 {
      assert rank.Floor == k + 1;
    } else {
      assert rank.Floor == k;
      WeightedMean(s[k], s[k + 1], f);
    }
  }

  lemma WeightedMean(a: real, b: real, f: real)
    ensures a + Times(b - a, f) == Times(a, 1.0 - f) + Times(b, f)
  {
    assert (b - a) * f == b * f - a * f;
    assert a * (1.0 - f) == a - a * f;
  }

  lemma AtIsMonotone(s: seq<real>, q: real, r: real)
    requires Sorted(s) && 0.0 <= q <= r <= (|s| - 1) as real
    ensures At(s, q) <= At(s, r)
  {
    AtIsBetween(s, q);
    AtIsBetween(s, r);
    if Ceil(q) <= r.Floor {
      assert s[Ceil(q)] <= s[r.Floor];
    } else {
      assert q.Floor == r.Floor;
      var lo := r.Floor;
      if q != lo as real {
        assert Ceil(q) == Ceil(r) == lo + 1;
        var d, f, g := s[lo + 1] - s[lo], q - lo as real, r - lo as real;
        Grow(d, f, g);
        assert At(s, q) == s[lo] + Times(d, f) && At(s, r) == s[lo] + Times(d, g);
      }
    }
  }

  /** A percentile never decreases with p and stays between the smallest and the largest value. */
  lemma PercentileIsMonotone(s: seq<real>, p: real, q: real)
    requires Sorted(s) && s != [] && 0.0 <= p <= q <= 100.0
    ensures s[0] <= Percentile(s, p) <= Percentile(s, q) <= s[|s| - 1]
  {
    if |s| > 1 {
      var m := (|s| - 1) as real;
      var f, g := p / 100.0, q / 100.0;
      Grow(m, f, g);
      assert Rank(|s|, p) == Times(m, f) && Rank(|s|, q) == Times(m, g);
      AtIsMonotone(s, Rank(|s|, p), Rank(|s|, q));
      AtIsBetween(s, Rank(|s|, p));
      AtIsBetween(s, Rank(|s|, q));
    }
  }

  /** The percentile at the share of a rank is the value of that rank. */
  lemma PercentileOfRank(s: seq<real>, k: nat)
    requires |s| > 1 && k < |s|
    ensures var p := 100.0 * k as real / (|s| - 1) as real; 0.0 <= p <= 100.0 && Percentile(s, p) == s[k]
  {
    var m, x := (|s| - 1) as real, k as real;
    var p := 100.0 * x / m;
    var f := x / m;
    assert m * f == x;
    assert p == 100.0 * f;
    assert 0.0 <= f <= 1.0 by {
      if f > 1.0 { Grow(m, 1.0, f); }
    }
    assert p / 100.0 == f;
    assert Rank(|s|, p) == x;
    assert x.Floor == k;
  }

  /** Between the shares of two neighbouring ranks the percentile is the weighted mean of their values. */
  lemma PercentileIsWeightedMean(s: seq<real>, k: nat, f: real)
    requires k + 1 < |s| && 0.0 <= f <= 1.0
    ensures var p := 100.0 * (k as real + f) / (|s| - 1) as real;
            0.0 <= p <= 100.0 && Percentile(s, p) == Times(s[k], 1.0 - f) + Times(s[k + 1], f)
  {
    var m, x := (|s| - 1) as real, k as real + f;
    var p := 100.0 * x / m;
    ShareOfRank(m, x);
    assert Rank(|s|, p) == x;
    AtIsWeightedMean(s, k, f);
  }

  lemma ShareOfRank(m: real, x: real)
    requires m > 0.0 && 0.0 <= x <= m
    ensures var p := 100.0 * x / m; 0.0 <= p <= 100.0 && Times(m, p / 100.0) == x
  {
    var f := x / m;
    assert m * f == x;
    assert 0.0 <= f <= 1.0 by {
      assert f > 1.0 ==> m * f > m * 1.0;
      assert f < 0.0 ==> m * f < m * 0.0;
    }
    assert 100.0 * x / m == 100.0 * f;
    assert 100.0 * f / 100.0 == f;
  }

  /**
   The median of an even sample lies halfway between the two middle values, that of an odd one is the middle value.
   */
  lemma MedianIsInTheMiddle(s: seq<real>, m: nat)
    requires m > 0
    ensures |s| == 2 * m ==> Percentile(s, 50.0) == Times(s[m - 1], 0.5) + Times(s[m], 0.5)
    ensures |s| == 2 * m + 1 ==> Percentile(s, 50.0) == s[m]
  {
    if |s| == 2 * m {
      PercentileIsWeightedMean(s, m - 1, 0.5);
      Halfway(m as real - 0.5);
      assert (m - 1) as real + 0.5 == m as real - 0.5 && (|s| - 1) as real == 2.0 * (m as real - 0.5);
    } else if |s| == 2 * m + 1 {
      PercentileIsWeightedMean(s, m - 1, 1.0);
      Halfway(m as real);
      assert (m - 1) as real + 1.0 == m as real && (|s| - 1) as real == 2.0 * m as real;
    }
  }

  lemma Halfway(x: real)
    requires x > 0.0
    ensures 100.0 * x / (2.0 * x) == 50.0
  {
    assert 100.0 * x == 50.0 * (2.0 * x);
  }

  // ---------------------------------------------------------------- sorting

  lemma SortedCons(x: real, s: seq<real>)
    requires Sorted(s) && forall y :: y in s ==> x <= y
    ensures Sorted([x] + s)
  {
    assert forall k :: 0 <= k < |s| ==> s[k] in s;
  }

  function Insert(x: real, s: seq<real>): (r: seq<real>)
    requires Sorted(s)
    ensures Sorted(r) && multiset(r) == multiset(s) + multiset{x}
  {
    if s == [] || x <= s[0] then
      [x] + s
    else
      var rest := Insert(x, s[1..]);
      assert s == [s[0]] + s[1..];
      assert forall y :: y in rest ==> y in multiset(rest);
      SortedCons(s[0], rest);
      [s[0]] + rest
  }

  /** The values in ascending order. */
  function Sort(s: seq<real>): (r: seq<real>)
    ensures Sorted(r) && multiset(r) == multiset(s)
    ensures |r| == |s| && forall y :: y in r <==> y in s
  {
    if s == [] then []
    else
      assert s == [s[0]] + s[1..];
      var r := Insert(s[0], Sort(s[1..]));
      assert |multiset(r)| == |multiset(s)|;
      assert forall y :: y in r <==> y in multiset(r);
      assert forall y :: y in s <==> y in multiset(s);
      r
  }

  // ---------------------------------------------------------------- the summary

  datatype Summary =
    | Empty
    | Summary(n: nat, mean: real, min: real, median: real, p90: real, p99: real, max: real, low: real, high: real)

  const RESAMPLES: nat := 2000

  /** Sample i: draw(i, j) is the index drawn for its place j. */
  function Resample(values: seq<real>, draw: (nat, nat) -> nat, i: nat): (r: seq<real>)
    requires forall i, j :: draw(i, j) < |values|
    ensures |r| == |values|
  {
    seq(|values|, j requires 0 <= j < |values| => values[draw(i, j)])
  }

  function Median(s: seq<real>): real {
    Percentile(Sort(s), 50.0)
  }

  /** A statistic of each of the first n samples. */
  function Statistics(values: seq<real>, draw: (nat, nat) -> nat, f: seq<real> -> real, n: nat): (r: seq<real>)
    requires forall i, j :: draw(i, j) < |values|
    ensures |r| == n
  {
    if n == 0 then [] else Statistics(values, draw, f, n - 1) + [f(Resample(values, draw, n - 1))]
  }

  method DrawSample(values: seq<real>, draw: (nat, nat) -> nat, i: nat) returns (r: seq<real>)
    requires forall i, j :: draw(i, j) < |values|
    ensures r == Resample(values, draw, i)
  {
    var sample := new real[|values|];
    for j := 0 to |values|
      invariant forall k :: 0 <= k < j ==> sample[k] == values[draw(i, k)]
    {
      sample[j] := values[draw(i, j)];
    }
    r := sample[..];
  }

  method ResampledStatistics(values: seq<real>, draw: (nat, nat) -> nat, f: seq<real> -> real, n: nat)
    returns (r: seq<real>)
    requires forall i, j :: draw(i, j) < |values|
    ensures r == Statistics(values, draw, f, n)
  {
    var a := new real[n];
    for i := 0 to n
      invariant a[..i] == Statistics(values, draw, f, i)
    {
      var sample := DrawSample(values, draw, i);
      a[i] := f(sample);
      assert a[..i + 1] == a[..i] + [a[i]];
    }
    r := a[..];
  }

  /** The percentile-bootstrap interval of the median: of the resampled medians, the 2.5th and the 97.5th percentile. */
  ghost predicate IsInterval(values: seq<real>, draw: (nat, nat) -> nat, low: real, high: real)
    requires values != [] && forall i, j :: draw(i, j) < |values|
  {
    if |values| == 1 then low == high == values[0]
    else
      var sorted := Sort(Statistics(values, draw, Median, 2000));
      low == Percentile(sorted, 2.5) && high == Percentile(sorted, 97.5)
  }

  method BootstrapMedianCI(values: seq<real>, draw: (nat, nat) -> nat) returns (low: real, high: real)
    requires values != []
    requires forall i, j :: draw(i, j) < |values|
    ensures IsInterval(values, draw, low, high)
  {
    if |values| < 2 { return values[0], values[0]; }
    var medians := ResampledStatistics(values, draw, Median, RESAMPLES);
    var sorted := Sort(medians);
    low, high := Percentile(sorted, 2.5), Percentile(sorted, 97.5);
  }

  ghost predicate AllWithin(s: seq<real>, a: real, b: real) {
    forall k :: 0 <= k < |s| ==> a <= s[k] <= b
  }

  lemma AppendWithin(s: seq<real>, x: real, a: real, b: real)
    requires AllWithin(s, a, b) && a <= x <= b
    ensures AllWithin(s + [x], a, b)
  {
  }

  lemma WithinRange(s: seq<real>, a: real, b: real)
    requires AllWithin(s, a, b)
    ensures AllWithin(Sort(s), a, b)
  {
    forall k | 0 <= k < |Sort(s)| ensures a <= Sort(s)[k] <= b {
      assert Sort(s)[k] in Sort(s);
    }
  }

  lemma MedianInRange(s: seq<real>, a: real, b: real)
    requires s != [] && AllWithin(s, a, b)
    ensures a <= Median(s) <= b
  {
    WithinRange(s, a, b);
    PercentileIsMonotone(Sort(s), 50.0, 50.0);
  }

  /** A statistic that stays inside the range of its sample does so for every sample drawn. */
  lemma {:induction false} StatisticsInRange(values: seq<real>, draw: (nat, nat) -> nat, f: seq<real> -> real, n: nat,
                                             a: real, b: real)
    requires AllWithin(values, a, b) && forall i, j :: draw(i, j) < |values|
    requires forall s :: |s| == |values| && AllWithin(s, a, b) ==> a <= f(s) <= b
    ensures AllWithin(Statistics(values, draw, f, n), a, b)
    decreases n
  {
    if n > 0 {
      StatisticsInRange(values, draw, f, n - 1, a, b);
      assert AllWithin(Resample(values, draw, n - 1), a, b);
      AppendWithin(Statistics(values, draw, f, n - 1), f(Resample(values, draw, n - 1)), a, b);
    }
  }

  /**
   For every sample, sorted or not, and every resampling the interval is ordered and inside any range of the sample.
   */
  lemma IntervalIsOrdered(values: seq<real>, draw: (nat, nat) -> nat, low: real, high: real, a: real, b: real)
    requires values != [] && AllWithin(values, a, b) && forall i, j :: draw(i, j) < |values|
    ensures IsInterval(values, draw, low, high) ==> a <= low <= high <= b
  {
    if |values| > 1 {
      var medians := Statistics(values, draw, Median, RESAMPLES);
      forall s: seq<real> | |s| == |values| && AllWithin(s, a, b) ensures a <= Median(s) <= b {
        MedianInRange(s, a, b);
      }
      StatisticsInRange(values, draw, Median, RESAMPLES, a, b);
      WithinRange(medians, a, b);
      PercentileIsMonotone(Sort(medians), 2.5, 97.5);
    }
  }

  /** Each figure of a summary is what its name says. */
  ghost predicate IsSummary(s: Summary, values: seq<real>, draw: (nat, nat) -> nat)
    requires values != [] && forall i, j :: draw(i, j) < |values|
  {
    && s.Summary? && s.n == |values| && Times(s.mean, s.n as real) == Sum(values)
    && HasPercentiles(s, Sort(values)) && IsInterval(Sort(values), draw, s.low, s.high)
  }

  ghost predicate HasPercentiles(s: Summary, sorted: seq<real>)
    requires s.Summary? && sorted != []
  {
    && s.min == sorted[0] && s.max == sorted[|sorted| - 1]
    && s.median == Percentile(sorted, 50.0) && s.p90 == Percentile(sorted, 90.0) && s.p99 == Percentile(sorted, 99.0)
  }

  method Summarize(values: seq<real>, draw: (nat, nat) -> nat) returns (s: Summary)
    requires forall i, j :: values != [] ==> draw(i, j) < |values|
    ensures s.Empty? <==> values == []
    ensures values != [] ==> IsSummary(s, values, draw)
  {
    if |values| == 0 { return Empty; }
    var sorted := Sort(values);
    var n := |sorted|;
    var mean := Mean(sorted);
    SumOfSorted(values);
    var low, high := BootstrapMedianCI(sorted, draw);
    s := Summary(n, mean, sorted[0], Percentile(sorted, 50.0), Percentile(sorted, 90.0), Percentile(sorted, 99.0),
                 sorted[n - 1], low, high);
  }

  /** The order the reader of a report relies on. */
  ghost predicate Ordered(s: Summary)
    requires s.Summary?
  {
    && s.min <= s.median <= s.p90 <= s.p99 <= s.max
    && s.min <= s.low <= s.high <= s.max
    && s.min <= s.mean <= s.max
  }

  /**
   Whatever was measured and however it was resampled, the figures are ordered and the extremes are those measured.
   */
  lemma SummaryIsOrdered(s: Summary, values: seq<real>, draw: (nat, nat) -> nat)
    requires values != [] && (forall i, j :: draw(i, j) < |values|) && IsSummary(s, values, draw)
    ensures Ordered(s)
    ensures s.min in values && s.max in values && AllWithin(values, s.min, s.max)
  {
    RangeOfSorted(values);
    PercentilesAreOrdered(s, Sort(values));
    IntervalIsOrdered(Sort(values), draw, s.low, s.high, s.min, s.max);
    MeanIsBetween(values, s.mean, s.min, s.max);
  }

  lemma PercentilesAreOrdered(s: Summary, sorted: seq<real>)
    requires s.Summary? && sorted != [] && Sorted(sorted)
    ensures HasPercentiles(s, sorted) ==> s.min <= s.median <= s.p90 <= s.p99 <= s.max
  {
    PercentileIsMonotone(sorted, 50.0, 90.0);
    PercentileIsMonotone(sorted, 90.0, 99.0);
  }

  lemma RangeOfSorted(values: seq<real>)
    requires values != []
    ensures var sorted := Sort(values);
            && sorted[0] in values && sorted[|sorted| - 1] in values
            && AllWithin(values, sorted[0], sorted[|sorted| - 1]) && AllWithin(sorted, sorted[0], sorted[|sorted| - 1])
  {
    var sorted := Sort(values);
    forall k | 0 <= k < |values| ensures sorted[0] <= values[k] <= sorted[|sorted| - 1] {
      assert values[k] in sorted;
    }
    assert sorted[0] in sorted && sorted[|sorted| - 1] in sorted;
  }

  function Sum(s: seq<real>): real {
    if s == [] then 0.0 else s[0] + Sum(s[1..])
  }

  lemma {:induction false} SumOfInsert(x: real, s: seq<real>)
    requires Sorted(s)
    ensures Sum(Insert(x, s)) == x + Sum(s)
    decreases |s|
  {
    if s == [] || x <= s[0] {
      assert ([x] + s)[1..] == s;
    } else {
      SumOfInsert(x, s[1..]);
      assert ([s[0]] + Insert(x, s[1..]))[1..] == Insert(x, s[1..]);
    }
  }

  /** Sorting keeps the sum. */
  lemma {:induction false} SumOfSorted(s: seq<real>)
    ensures Sum(Sort(s)) == Sum(s)
    decreases |s|
  {
    if s != [] {
      SumOfSorted(s[1..]);
      SumOfInsert(s[0], Sort(s[1..]));
    }
  }

  lemma {:induction false} SumOneMore(s: seq<real>, i: nat)
    requires i < |s|
    ensures Sum(s[..i + 1]) == Sum(s[..i]) + s[i]
    decreases i
  {
    assert s[..i + 1][1..] == s[1..][..i];
    if i > 0 {
      SumOneMore(s[1..], i - 1);
      assert s[..i][1..] == s[1..][..i - 1];
    }
  }

  lemma {:induction false} SumWithin(s: seq<real>, a: real, b: real)
    requires AllWithin(s, a, b)
    ensures Times(a, |s| as real) <= Sum(s) <= Times(b, |s| as real)
    decreases |s|
  {
    if s != [] {
      SumWithin(s[1..], a, b);
      OneMore(a, |s|);
      OneMore(b, |s|);
    }
  }

  lemma OneMore(x: real, n: nat)
    requires n > 0
    ensures Times(x, n as real) == Times(x, (n - 1) as real) + x
  {
  }

  method Mean(sorted: seq<real>) returns (mean: real)
    requires sorted != []
    ensures Times(mean, |sorted| as real) == Sum(sorted)
  {
    var sum := 0.0;
    for i := 0 to |sorted|
      invariant sum == Sum(sorted[..i])
    {
      SumOneMore(sorted, i);
      sum := sum + sorted[i];
    }
    assert sorted[..|sorted|] == sorted;
    mean := sum / |sorted| as real;
  }

  lemma MeanIsBetween(values: seq<real>, mean: real, a: real, b: real)
    requires values != [] && AllWithin(values, a, b) && Times(mean, |values| as real) == Sum(values)
    ensures a <= mean <= b
  {
    var n := |values| as real;
    SumWithin(values, a, b);
    if mean < a {
      TimesGrows(mean, a, n);
    } else if mean > b {
      TimesGrows(b, mean, n);
    }
  }

  lemma TimesGrows(x: real, y: real, n: real)
    requires x < y && n > 0.0
    ensures Times(x, n) < Times(y, n)
  {
    var d := y - x;
    assert d * n > 0.0;
    assert y * n == x * n + d * n;
  }
}
