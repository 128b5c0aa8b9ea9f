/** Percentiles of cumulative histograms by linear interpolation inside a bucket. */
module Histogram {
  import opened Options
  import opened PromParser

  /** An upper bound: a number or +Inf. */
  datatype Bound = Finite(x: real) | Inf

  datatype Bucket = Bucket(le: Bound, count: real)

  predicate Below(a: Bound, b: Bound) {
    a.Finite? && (b.Inf? || a.x < b.x)
  }

  // ------------------------------------------------------------ percentile

  /** The bound of the last finite bucket, or 0. */
  function LastFinite(buckets: seq<Bucket>): real {
    if buckets == [] then 0.0
    else if buckets[|buckets| - 1].le.Finite? then buckets[|buckets| - 1].le.x
    else LastFinite(buckets[..|buckets| - 1])
  }

  /** The rank asked for: a share of the total count. */
  function Share(percentile: real, total: real): real {
    percentile * total
  }

  /** The point a fraction of the way from one bound to the next. */
  function Along(from: real, to: real, fraction: real): real {
    from + (to - from) * fraction
  }

  function Fraction(target: real, prevCount: real, count: real): real {
    if count - prevCount > 0.0 then (target - prevCount) / (count - prevCount) else 0.0
  }

  function PercentileFrom(buckets: seq<Bucket>, i: nat, target: real, prevCount: real, prevBound: real): real
    requires i <= |buckets|
    decreases |buckets| - i
  {
    if i == |buckets| then LastFinite(buckets)
    else
      var b := buckets[i];
      if b.le.Inf? then PercentileFrom(buckets, i + 1, target, prevCount, prevBound)
      else if b.count >= target then Along(prevBound, b.le.x, Fraction(target, prevCount, b.count))
      else PercentileFrom(buckets, i + 1, target, b.count, b.le.x)
  }

  function Percentile(buckets: seq<Bucket>, percentile: real): real {
    if buckets == [] || buckets[|buckets| - 1].count == 0.0 then 0.0
    else PercentileFrom(buckets, 0, Share(percentile, buckets[|buckets| - 1].count), 0.0, 0.0)
  }

  method HistogramPercentile(buckets: seq<Bucket>, percentile: real) returns (r: real)
    ensures r == Percentile(buckets, percentile)
  {
    if |buckets| == 0 {
      return 0.0;
    }
    var total := buckets[|buckets| - 1].count;
    if total == 0.0 {
      return 0.0;
    }
    var target := Share(percentile, total);
    var prevCount, prevBound := 0.0, 0.0;
    for n := 0 to |buckets|
      invariant PercentileFrom(buckets, 0, target, 0.0, 0.0) == PercentileFrom(buckets, n, target, prevCount, prevBound)
    {
      var b := buckets[n];
      if b.le.Inf? {
        continue;
      }
      if b.count >= target {
        var fraction := 0.0;
        if b.count - prevCount > 0.0 {
          fraction := (target - prevCount) / (b.count - prevCount);
        }
        return Along(prevBound, b.le.x, fraction);
      }
      prevCount := b.count;
      prevBound := b.le.x;
    }
    assert buckets[..|buckets|] == buckets;
    for n := |buckets| downto 0
      invariant LastFinite(buckets) == LastFinite(buckets[..n])
    {
      assert buckets[..n + 1][..n] == buckets[..n];
      if buckets[n].le.Finite? {
        return buckets[n].le.x;
      }
    }
    r := 0.0;
  }

  // ---------------------------------------------------- the distribution

  /** Sorted, distinct, positive bounds with counts that never fall: at most the last is +Inf. */
  ghost predicate Proper(buckets: seq<Bucket>) {
    && (forall i, j :: 0 <= i < j < |buckets| ==> Below(buckets[i].le, buckets[j].le))
    && (forall i, j :: 0 <= i <= j < |buckets| ==> buckets[i].count <= buckets[j].count)
    && (forall i :: 0 <= i < |buckets| ==> buckets[i].count >= 0.0 && (buckets[i].le.Finite? ==> buckets[i].le.x > 0.0))
  }

  /** How many buckets are finite. */
  function Size(buckets: seq<Bucket>): nat {
    if buckets == [] then 0
    else if buckets[|buckets| - 1].le.Inf? then |buckets| - 1 else |buckets|
  }

  /** The points of the cumulative distribution: the origin, then bound and count of each finite bucket. */
  function X(buckets: seq<Bucket>, i: nat): real
    requires Proper(buckets) && i <= Size(buckets)
  {
    if i == 0 then 0.0 else buckets[i - 1].le.x
  }

  function C(buckets: seq<Bucket>, i: nat): real
    requires Proper(buckets) && i <= Size(buckets)
  {
    if i == 0 then 0.0 else buckets[i - 1].count
  }

  /** Linear interpolation between points i - 1 and i. */
  function Between(buckets: seq<Bucket>, i: nat, x: real): real
    requires Proper(buckets) && 1 <= i <= Size(buckets)
  {
    assert X(buckets, i - 1) < X(buckets, i);
    C(buckets, i - 1) + (C(buckets, i) - C(buckets, i - 1))
                        * ((x - X(buckets, i - 1)) / (X(buckets, i) - X(buckets, i - 1)))
  }

  /** The interpolated cumulative count at x, looking from point i on. */
  function CdfFrom(buckets: seq<Bucket>, i: nat, x: real): real
    requires Proper(buckets) && 1 <= i <= Size(buckets) + 1
    decreases Size(buckets) + 1 - i
  {
    if i > Size(buckets) then C(buckets, Size(buckets))
    else if x <= X(buckets, i) then Between(buckets, i, x)
    else CdfFrom(buckets, i + 1, x)
  }

  function Cdf(buckets: seq<Bucket>, x: real): real
    requires Proper(buckets)
  {
    CdfFrom(buckets, 1, x)
  }

  lemma ProductSign(a: real, b: real)
    requires b > 0.0
    ensures a > 0.0 ==> a * b > 0.0
    ensures a < 0.0 ==> a * b < 0.0
  {
  }

  lemma QuotientTimes(x: real, w: real)
    requires w > 0.0
    ensures x / w * w == x
  {
  }

  /** A quotient is the only number that gives the dividend back. */
  lemma QuotientIs(x: real, w: real, f: real)
    requires w > 0.0 && f * w == x
    ensures x / w == f
  {
    var q := x / w;
    QuotientTimes(x, w);
    assert (q - f) * w == q * w - f * w == 0.0;
    ProductSign(q - f, w);
  }

  lemma Interpolation(b0: real, b1: real, c0: real, c1: real, t: real)
    requires b0 < b1 && c0 < t <= c1
    ensures var r := Along(b0, b1, Fraction(t, c0, c1));
            b0 < r <= b1 && c0 + (c1 - c0) * ((r - b0) / (b1 - b0)) == t
  {
    var f := (t - c0) / (c1 - c0);
    Shares(0.0, t - c0, c1 - c0);
    assert (c1 - c0) / (c1 - c0) == 1.0;
    if t < c1 {
      Shares(t - c0, c1 - c0, c1 - c0);
    }
    assert 0.0 < f <= 1.0;
    var r := b0 + (b1 - b0) * f;
    assert f == Fraction(t, c0, c1) && r == Along(b0, b1, f);
    assert (b1 - b0) * f > 0.0;
    assert (b1 - b0) * f <= b1 - b0;
    QuotientIs(r - b0, b1 - b0, f);
    assert (c1 - c0) * f == t - c0;
  }

  lemma StrictlyBetween(b0: real, b1: real, c0: real, c1: real, x: real, y: real)
    requires b0 < b1 && c0 < c1 && x < y
    ensures c0 + (c1 - c0) * ((x - b0) / (b1 - b0)) < c0 + (c1 - c0) * ((y - b0) / (b1 - b0))
  {
    var w := b1 - b0;
    Shares(x - b0, y - b0, w);
    var u, v := (x - b0) / w, (y - b0) / w;
    assert (c1 - c0) * (v - u) > 0.0;
    assert (c1 - c0) * (v - u) == (c1 - c0) * v - (c1 - c0) * u;
  }

  lemma Shares(a: real, b: real, w: real)
    requires a < b && w > 0.0
    ensures a / w < b / w
  {
    assert b / w - a / w == (b - a) / w;
  }

  lemma AtMostRight(b0: real, b1: real, c0: real, c1: real, x: real)
    requires b0 < b1 && c0 <= c1 && x <= b1
    ensures c0 + (c1 - c0) * ((x - b0) / (b1 - b0)) <= c1
  {
    var u := (x - b0) / (b1 - b0);
    assert u <= 1.0;
    assert (c1 - c0) * (1.0 - u) >= 0.0;
    assert (c1 - c0) * (1.0 - u) == (c1 - c0) - (c1 - c0) * u;
  }

  /** Inside a cell the distribution is the cell's interpolation. */
  lemma {:induction false} CdfInCell(buckets: seq<Bucket>, j: nat, i: nat, x: real)
    requires Proper(buckets) && 1 <= j <= i <= Size(buckets)
    requires X(buckets, i - 1) < x <= X(buckets, i)
    ensures CdfFrom(buckets, j, x) == Between(buckets, i, x)
    decreases i - j
  {
    if j < i {
      assert X(buckets, j) <= X(buckets, i - 1);
      CdfInCell(buckets, j + 1, i, x);
    }
  }

  lemma CdfAtZero(buckets: seq<Bucket>)
    requires Proper(buckets) && 1 <= Size(buckets)
    ensures CdfFrom(buckets, 1, 0.0) == 0.0
  {
    assert (0.0 - 0.0) / X(buckets, 1) == 0.0;
    assert C(buckets, 1) * 0.0 == 0.0;
  }

  /** Up to a point the distribution stays at or below the point's count. */
  lemma {:induction false} CdfUpTo(buckets: seq<Bucket>, j: nat, i: nat, x: real)
    requires Proper(buckets) && 1 <= j && 1 <= Size(buckets) && i <= Size(buckets) && j <= i + 1
    requires x <= X(buckets, i) && (i == 0 ==> x == 0.0)
    requires j == i + 1 ==> i == 0
    ensures CdfFrom(buckets, j, x) <= C(buckets, i)
    decreases i - j + 1
  {
    if x > X(buckets, j) {
      CdfUpTo(buckets, j + 1, i, x);
    } else if i == 0 {
      CdfAtZero(buckets);
    } else {
      AtMostRight(X(buckets, j - 1), X(buckets, j), C(buckets, j - 1), C(buckets, j), x);
      assert CdfFrom(buckets, j, x) == Between(buckets, j, x) <= C(buckets, j) <= C(buckets, i);
    }
  }

  // ------------------------------------------------------ what percentile is

  /** r is the least point at which the distribution reaches the target. */
  ghost predicate IsInverse(buckets: seq<Bucket>, target: real, r: real)
    requires Proper(buckets)
  {
    && 0.0 < r <= X(buckets, Size(buckets)) && Cdf(buckets, r) == target
    && forall x :: 0.0 <= x < r ==> Cdf(buckets, x) < target
  }

  lemma {:induction false} LastFiniteIsLastPoint(buckets: seq<Bucket>)
    requires Proper(buckets)
    ensures LastFinite(buckets) == X(buckets, Size(buckets))
  {
    if buckets != [] && buckets[|buckets| - 1].le.Inf? && |buckets| > 1 {
      assert Below(buckets[|buckets| - 2].le, buckets[|buckets| - 1].le);
    }
  }

  lemma CellInverse(buckets: seq<Bucket>, i: nat, target: real)
    requires Proper(buckets) && i < Size(buckets)
    requires C(buckets, i) < target <= C(buckets, i + 1)
    ensures IsInverse(buckets, target, Along(X(buckets, i), X(buckets, i + 1),
                                             Fraction(target, C(buckets, i), C(buckets, i + 1))))
  {
    var b0, b1, c0, c1 := X(buckets, i), X(buckets, i + 1), C(buckets, i), C(buckets, i + 1);
    var r := Along(b0, b1, Fraction(target, c0, c1));
    Interpolation(b0, b1, c0, c1, target);
    CdfInCell(buckets, 1, i + 1, r);
    forall x | 0.0 <= x < r ensures Cdf(buckets, x) < target {
      if x <= b0 {
        CdfUpTo(buckets, 1, i, x);
      } else {
        CdfInCell(buckets, 1, i + 1, x);
        StrictlyBetween(b0, b1, c0, c1, x, r);
      }
    }
  }

  lemma {:induction false} FromPoint(buckets: seq<Bucket>, i: nat, target: real)
    requires Proper(buckets) && i <= Size(buckets) && C(buckets, i) < target
    ensures var r := PercentileFrom(buckets, i, target, C(buckets, i), X(buckets, i));
            if target <= C(buckets, Size(buckets)) then IsInverse(buckets, target, r)
            else r == X(buckets, Size(buckets))
    decreases Size(buckets) - i
  {
    if i == Size(buckets) {
      LastFiniteIsLastPoint(buckets);
    } else {
      assert buckets[i].le.Finite?;
      if buckets[i].count >= target {
        CellInverse(buckets, i, target);
        assert C(buckets, i + 1) <= C(buckets, Size(buckets));
      } else {
        FromPoint(buckets, i + 1, target);
      }
    }
  }

  lemma ShareGrows(p: real, q: real, total: real)
    requires p < q && total > 0.0
    ensures Share(p, total) < Share(q, total) && Share(0.0, total) == 0.0
  {
    assert (q - p) * total > 0.0;
    assert (q - p) * total == q * total - p * total;
  }

  /** The percentile inverts the interpolated distribution: where the share of the total lies within
      the finite buckets it is the least point at which the distribution reaches that share;
      beyond them it is the largest finite bound. */
  lemma PercentileInverts(buckets: seq<Bucket>, q: real)
    requires Proper(buckets) && buckets != [] && buckets[|buckets| - 1].count > 0.0 && q > 0.0
    ensures var target := Share(q, buckets[|buckets| - 1].count);
            if target <= C(buckets, Size(buckets)) then IsInverse(buckets, target, Percentile(buckets, q))
            else Percentile(buckets, q) == X(buckets, Size(buckets))
  {
    var total := buckets[|buckets| - 1].count;
    ShareGrows(0.0, q, total);
    FromPoint(buckets, 0, Share(q, total));
  }

  lemma PercentileOfNothing(buckets: seq<Bucket>)
    requires Proper(buckets)
    ensures Percentile(buckets, 0.0) == 0.0
  {
    if buckets != [] && buckets[|buckets| - 1].count != 0.0 {
      assert Share(0.0, buckets[|buckets| - 1].count) == 0.0;
      if |buckets| == 1 && buckets[0].le.Inf? {
        LastFiniteIsLastPoint(buckets);
        assert PercentileFrom(buckets, 1, 0.0, 0.0, 0.0) == LastFinite(buckets);
      } else {
        assert buckets[0].le.Finite?;
        assert Fraction(0.0, 0.0, buckets[0].count) == 0.0;
        assert Along(0.0, buckets[0].le.x, 0.0) == 0.0;
      }
    }
  }

  /** Percentiles lie between 0 and the largest finite bound. */
  lemma PercentileInRange(buckets: seq<Bucket>, q: real)
    requires Proper(buckets) && q >= 0.0
    ensures 0.0 <= Percentile(buckets, q) <= X(buckets, Size(buckets))
  {
    PercentileOfNothing(buckets);
    if q > 0.0 && buckets != [] && buckets[|buckets| - 1].count > 0.0 {
      PercentileInverts(buckets, q);
    }
  }

  /** A larger share never has a smaller percentile. */
  lemma PercentileMonotone(buckets: seq<Bucket>, p: real, q: real)
    requires Proper(buckets) && 0.0 <= p <= q
    ensures Percentile(buckets, p) <= Percentile(buckets, q)
  {
    PercentileOfNothing(buckets);
    PercentileInRange(buckets, p);
    PercentileInRange(buckets, q);
    if p > 0.0 && buckets != [] && buckets[|buckets| - 1].count > 0.0 {
      var total := buckets[|buckets| - 1].count;
      PercentileInverts(buckets, p);
      PercentileInverts(buckets, q);
      if p < q {
        ShareGrows(p, q, total);
      }
      if Share(q, total) <= C(buckets, Size(buckets)) {
        InverseIsLeast(buckets, Share(p, total), Percentile(buckets, p), Percentile(buckets, q));
      }
    }
  }

  lemma InverseIsLeast(buckets: seq<Bucket>, target: real, r: real, x: real)
    requires Proper(buckets) && IsInverse(buckets, target, r)
    requires x >= 0.0 && Cdf(buckets, x) >= target
    ensures r <= x
  {
  }

  // -------------------------------------------------- extraction from a family

  /** How the bound of a bucket is read from its label. */
  type BoundParser = string -> Option<Bound>

  function BucketOf(m: Metric<real>, parse: BoundParser): Bucket
    requires "le" in m.labels
  {
    Bucket(if m.labels["le"] == "+Inf" then Inf else parse(m.labels["le"]).GetOr(Finite(0.0)), m.value)
  }

  function BucketsOf(metrics: seq<Metric<real>>, parse: BoundParser): seq<Bucket> {
    if metrics == [] then []
    else
      var last := metrics[|metrics| - 1];
      BucketsOf(metrics[..|metrics| - 1], parse) + if "le" in last.labels then [BucketOf(last, parse)] else []
  }

  // What the buckets are, without the fold: one for each sample with a bound, in order.

  predicate Increasing(at: seq<nat>, limit: nat) {
    && (forall i :: 0 <= i < |at| ==> at[i] < limit)
    && (forall i, j :: 0 <= i < j < |at| ==> at[i] < at[j])
  }

  predicate HasBound(m: Metric<real>) {
    "le" in m.labels
  }

  function BoundedAt(metrics: seq<Metric<real>>): (at: seq<nat>)
    ensures Increasing(at, |metrics|)
  {
    if metrics == [] then []
    else
      var n := |metrics| - 1;
      BoundedAt(metrics[..n]) + if HasBound(metrics[n]) then [n] else []
  }

  /** Where the samples with a bound are, in order and all of them. */
  predicate AreBounded(at: seq<nat>, metrics: seq<Metric<real>>) {
    && Increasing(at, |metrics|)
    && forall j :: 0 <= j < |metrics| ==> (j in at <==> HasBound(metrics[j]))
  }

  lemma BoundedAtSnoc(init: seq<Metric<real>>, last: Metric<real>)
    ensures BoundedAt(init + [last]) == if HasBound(last) then BoundedAt(init) + [|init|] else BoundedAt(init)
  {
    assert (init + [last])[..|init|] == init;
  }

  lemma AreBoundedSnoc(at: seq<nat>, init: seq<Metric<real>>, last: Metric<real>)
    requires AreBounded(at, init)
    ensures AreBounded(if HasBound(last) then at + [|init|] else at, init + [last])
  {
    var metrics, at' := init + [last], if HasBound(last) then at + [|init|] else at;
    forall j | 0 <= j < |metrics| ensures j in at' <==> HasBound(metrics[j]) {
      assert j < |init| ==> metrics[j] == init[j];
    }
  }

  lemma {:induction false} BoundedAtExactly(metrics: seq<Metric<real>>)
    ensures AreBounded(BoundedAt(metrics), metrics)
  {
    if metrics != [] {
      var init, last := metrics[..|metrics| - 1], metrics[|metrics| - 1];
      assert metrics == init + [last];
      BoundedAtExactly(init);
      BoundedAtSnoc(init, last);
      AreBoundedSnoc(BoundedAt(init), init, last);
    }
  }

  /** The bucket counts what the sample says up to its bound: infinite for +Inf, 0 when unreadable. */
  predicate IsBucketOf(b: Bucket, m: Metric<real>, parse: BoundParser) {
    && HasBound(m) && b.count == m.value
    && (m.labels["le"] == "+Inf" ==> b.le == Inf)
    && (m.labels["le"] != "+Inf" && parse(m.labels["le"]).Some? ==> b.le == parse(m.labels["le"]).value)
    && (m.labels["le"] != "+Inf" && parse(m.labels["le"]).None? ==> b.le == Finite(0.0))
  }

  predicate AreBucketsOf(buckets: seq<Bucket>, metrics: seq<Metric<real>>, at: seq<nat>, parse: BoundParser)
    requires Increasing(at, |metrics|)
  {
    |buckets| == |at| && forall k :: 0 <= k < |at| ==> IsBucketOf(buckets[k], metrics[at[k]], parse)
  }

  lemma AreBucketsSnoc(buckets: seq<Bucket>, init: seq<Metric<real>>, last: Metric<real>, at: seq<nat>, parse: BoundParser)
    requires Increasing(at, |init|) && AreBucketsOf(buckets, init, at, parse)
    ensures AreBucketsOf(buckets, init + [last], at, parse)
    ensures HasBound(last) ==> AreBucketsOf(buckets + [BucketOf(last, parse)], init + [last], at + [|init|], parse)
  {
  }

  lemma {:induction false} BucketsAt(metrics: seq<Metric<real>>, parse: BoundParser)
    ensures AreBucketsOf(BucketsOf(metrics, parse), metrics, BoundedAt(metrics), parse)
  {
    if metrics != [] {
      var init, last := metrics[..|metrics| - 1], metrics[|metrics| - 1];
      assert metrics == init + [last];
      BucketsAt(init, parse);
      BoundedAtSnoc(init, last);
      AreBucketsSnoc(BucketsOf(init, parse), init, last, BoundedAt(init), parse);
    }
  }

  /** The buckets are exactly those of the samples with a bound, in the order of the samples. */
  lemma BucketsExactly(metrics: seq<Metric<real>>, parse: BoundParser) returns (at: seq<nat>)
    ensures AreBounded(at, metrics) && AreBucketsOf(BucketsOf(metrics, parse), metrics, at, parse)
  {
    at := BoundedAt(metrics);
    BoundedAtExactly(metrics);
    BucketsAt(metrics, parse);
  }

  ghost predicate SortingOf(buckets: seq<Bucket>, sorted: seq<Bucket>) {
    && multiset(buckets) == multiset(sorted)
    && forall i, j :: 0 <= i < j < |sorted| ==> !Below(sorted[j].le, sorted[i].le)
  }

  /** Three percentiles, when anything was counted, and the count, under four names. */
  function Put(snapshot: map<string, real>, p50: string, p90: string, p99: string, count: string, sorted: seq<Bucket>): map<string, real> {
    if sorted == [] then snapshot
    else
      var total := sorted[|sorted| - 1].count;
      (if total > 0.0 then
         Put3(snapshot, p50, p90, p99, Percentile(sorted, 0.5), Percentile(sorted, 0.9), Percentile(sorted, 0.99))
       else snapshot)[count := total]
  }

  function Put3(snapshot: map<string, real>, p50: string, p90: string, p99: string, a: real, b: real, c: real): map<string, real> {
    snapshot[p50 := a][p90 := b][p99 := c]
  }

  /** What extraction leaves in the snapshot. */
  function WithHistogram(snapshot: map<string, real>, prefix: string, sorted: seq<Bucket>): map<string, real> {
    Put(snapshot, prefix + "_p50", prefix + "_p90", prefix + "_p99", prefix + "_count", sorted)
  }

  /** v is where the interpolated distribution first reaches the target, or the largest finite bound
      when the finite buckets do not reach it. */
  ghost predicate Reaches(buckets: seq<Bucket>, target: real, v: real)
    requires Proper(buckets)
  {
    if target <= C(buckets, Size(buckets)) then IsInverse(buckets, target, v) else v == X(buckets, Size(buckets))
  }

  /** An entry was written where the distribution reaches a share of the observations. */
  ghost predicate HasShare(after: map<string, real>, key: string, sorted: seq<Bucket>, target: real)
    requires Proper(sorted)
  {
    key in after && Reaches(sorted, target, after[key])
  }

  predicate SameAt(before: map<string, real>, after: map<string, real>, key: string) {
    (key in after <==> key in before) && (key in before ==> after[key] == before[key])
  }

  /** What extracting a histogram does to a snapshot. With buckets the count is written; with
      observations also the points where half, nine tenths and ninety-nine hundredths of them are
      reached, in that order; nothing else changes. */
  ghost predicate Extracted(before: map<string, real>, after: map<string, real>, prefix: string, sorted: seq<Bucket>) {
    var p50, p90, p99, count := prefix + "_p50", prefix + "_p90", prefix + "_p99", prefix + "_count";
    && (forall key :: key !in {p50, p90, p99, count} ==> SameAt(before, after, key))
    && (sorted == [] ==> after == before)
    && (sorted != [] ==>
          var total := sorted[|sorted| - 1].count;
          && count in after && after[count] == total
          && (total <= 0.0 ==> forall key :: key != count ==> SameAt(before, after, key))
          && (total > 0.0 ==> p50 in after && p90 in after && p99 in after)
          && (total > 0.0 && Proper(sorted) ==>
                && HasShare(after, p50, sorted, 0.5 * total)
                && HasShare(after, p90, sorted, 0.9 * total)
                && HasShare(after, p99, sorted, 0.99 * total)
                && after[p50] <= after[p90] <= after[p99]))
  }

  lemma PercentileReaches(buckets: seq<Bucket>, q: real, target: real)
    requires Proper(buckets) && buckets != [] && buckets[|buckets| - 1].count > 0.0 && q > 0.0
    requires target == q * buckets[|buckets| - 1].count
    ensures Reaches(buckets, target, Percentile(buckets, q))
  {
    PercentileInverts(buckets, q);
  }

  lemma ShareWritten(after: map<string, real>, key: string, sorted: seq<Bucket>, q: real, target: real)
    requires Proper(sorted) && sorted != [] && sorted[|sorted| - 1].count > 0.0 && q > 0.0
    requires target == q * sorted[|sorted| - 1].count && key in after && after[key] == Percentile(sorted, q)
    ensures HasShare(after, key, sorted, target)
  {
    PercentileReaches(sorted, q, target);
  }

  /** Extraction writes exactly the reached points and the count. */
  lemma WithHistogramExtracts(before: map<string, real>, prefix: string, sorted: seq<Bucket>)
    ensures Extracted(before, WithHistogram(before, prefix, sorted), prefix, sorted)
  {
    SuffixesDiffer(prefix);
    var after := WithHistogram(before, prefix, sorted);
    if sorted != [] && sorted[|sorted| - 1].count > 0.0 && Proper(sorted) {
      var total := sorted[|sorted| - 1].count;
      ShareWritten(after, prefix + "_p50", sorted, 0.5, 0.5 * total);
      ShareWritten(after, prefix + "_p90", sorted, 0.9, 0.9 * total);
      ShareWritten(after, prefix + "_p99", sorted, 0.99, 0.99 * total);
      PercentileMonotone(sorted, 0.5, 0.9);
      PercentileMonotone(sorted, 0.9, 0.99);
    }
  }

  /** Insertion keeps a sorted list sorted; buckets of equal bounds may end up either way round. */
  method SortBuckets(buckets: seq<Bucket>) returns (sorted: seq<Bucket>)
    ensures SortingOf(buckets, sorted)
  {
    sorted := [];
    for n := 0 to |buckets|
      invariant SortingOf(buckets[..n], sorted)
    {
      var b, k := buckets[n], 0;
      while k < |sorted| && !Below(b.le, sorted[k].le)
        invariant k <= |sorted|
        invariant forall i :: 0 <= i < k ==> !Below(b.le, sorted[i].le)
      {
        k := k + 1;
      }
      InsertKeepsSorted(buckets[..n], sorted, b, k);
      assert buckets[..n + 1] == buckets[..n] + [b];
      sorted := sorted[..k] + [b] + sorted[k..];
    }
    assert buckets[..|buckets|] == buckets;
  }

  lemma InsertKeepsSorted(buckets: seq<Bucket>, sorted: seq<Bucket>, b: Bucket, k: nat)
    requires SortingOf(buckets, sorted) && k <= |sorted|
    requires forall i :: 0 <= i < k ==> !Below(b.le, sorted[i].le)
    requires k < |sorted| ==> Below(b.le, sorted[k].le)
    ensures SortingOf(buckets + [b], sorted[..k] + [b] + sorted[k..])
  {
    assert sorted == sorted[..k] + sorted[k..];
    AboveTheRest(sorted, b, k);
    OrderedAround(sorted[..k], b, sorted[k..]);
  }

  lemma AboveTheRest(sorted: seq<Bucket>, b: Bucket, k: nat)
    requires forall i, j :: 0 <= i < j < |sorted| ==> !Below(sorted[j].le, sorted[i].le)
    requires k <= |sorted| && (k < |sorted| ==> Below(b.le, sorted[k].le))
    ensures forall i :: 0 <= i < |sorted[k..]| ==> Below(b.le, sorted[k..][i].le)
  {
    forall i | 0 <= i < |sorted[k..]| ensures Below(b.le, sorted[k..][i].le) {
      assert sorted[k..][i] == sorted[k + i];
    }
  }

  lemma OrderedAround(left: seq<Bucket>, b: Bucket, right: seq<Bucket>)
    requires forall i, j :: 0 <= i < j < |left + right| ==> !Below((left + right)[j].le, (left + right)[i].le)
    requires forall i :: 0 <= i < |left| ==> !Below(b.le, left[i].le)
    requires forall i :: 0 <= i < |right| ==> Below(b.le, right[i].le)
    ensures var r := left + [b] + right; forall i, j :: 0 <= i < j < |r| ==> !Below(r[j].le, r[i].le)
  {
    var r, s, k := left + [b] + right, left + right, |left|;
    assert forall i :: 0 <= i < |s| ==> s[i] == if i < k then left[i] else right[i - k];
    forall i, j | 0 <= i < j < |r| ensures !Below(r[j].le, r[i].le) {
      var i', j' := if i > k then i - 1 else i, if j > k then j - 1 else j;
      if i != k && j != k {
        assert s[i'] == r[i] && s[j'] == r[j];
      }
    }
  }

  lemma SortingSize(buckets: seq<Bucket>, sorted: seq<Bucket>)
    requires SortingOf(buckets, sorted)
    ensures |sorted| == |buckets|
  {
    assert |multiset(buckets)| == |buckets| && |multiset(sorted)| == |sorted|;
  }

  method CollectBuckets(metrics: seq<Metric<real>>, parse: BoundParser) returns (buckets: seq<Bucket>)
    ensures buckets == BucketsOf(metrics, parse)
    ensures exists at :: AreBounded(at, metrics) && AreBucketsOf(buckets, metrics, at, parse)
  {
    ghost var at := BucketsExactly(metrics, parse);
    buckets := [];
    for n := 0 to |metrics|
      invariant buckets == BucketsOf(metrics[..n], parse)
    {
      assert metrics[..n + 1][..n] == metrics[..n];
      if "le" in metrics[n].labels {
        buckets := buckets + [BucketOf(metrics[n], parse)];
      }
    }
    assert metrics[..|metrics|] == metrics;
  }

  method ExtractHistogram(family: Family<real>, prefix: string, before: map<string, real>, parse: BoundParser)
    returns (snapshot: map<string, real>, sorted: seq<Bucket>)
    ensures SortingOf(BucketsOf(family.metrics, parse), sorted)
    ensures Extracted(before, snapshot, prefix, sorted)
    ensures snapshot == WithHistogram(before, prefix, sorted)
  {
    snapshot := before;
    var buckets := CollectBuckets(family.metrics, parse);
    sorted := SortBuckets(buckets);
    WithHistogramExtracts(before, prefix, sorted);
    SortingSize(buckets, sorted);
    if |buckets| > 0 {
      var totalCount := sorted[|sorted| - 1].count;
      if totalCount > 0.0 {
        var p50 := HistogramPercentile(sorted, 0.5);
        var p90 := HistogramPercentile(sorted, 0.9);
        var p99 := HistogramPercentile(sorted, 0.99);
        snapshot := snapshot[prefix + "_p50" := p50];
        snapshot := snapshot[prefix + "_p90" := p90];
        snapshot := snapshot[prefix + "_p99" := p99];
      }
      snapshot := snapshot[prefix + "_count" := totalCount];
    }
  }

  const SUFFIXES := ["_p50", "_p90", "_p99"]

  function ToSeconds(snapshot: map<string, real>, key: string): map<string, real> {
    if key in snapshot then snapshot[key := snapshot[key] / 1000.0] else snapshot
  }

  /** The three percentiles divided by 1000, where they are present. */
  function AllToSeconds(snapshot: map<string, real>, p50: string, p90: string, p99: string): map<string, real> {
    ToSeconds(ToSeconds(ToSeconds(snapshot, p50), p90), p99)
  }

  /** The millisecond form: the three points are a thousandth of those, whatever else the snapshot holds
      stays, and so does the count. */
  ghost predicate ExtractedMs(before: map<string, real>, after: map<string, real>, prefix: string, sorted: seq<Bucket>) {
    exists between ::
      && Extracted(before, between, prefix, sorted)
      && after.Keys == between.Keys
      && forall key :: key in between ==>
           after[key] == if key in {prefix + "_p50", prefix + "_p90", prefix + "_p99"} then between[key] / 1000.0 else between[key]
  }

  lemma SecondsOfExtracted(before: map<string, real>, prefix: string, sorted: seq<Bucket>)
    ensures ExtractedMs(before, AllToSeconds(WithHistogram(before, prefix, sorted), prefix + "_p50", prefix + "_p90", prefix + "_p99"),
                        prefix, sorted)
  {
    WithHistogramExtracts(before, prefix, sorted);
    SuffixesDiffer(prefix);
    var between := WithHistogram(before, prefix, sorted);
    var after := AllToSeconds(between, prefix + "_p50", prefix + "_p90", prefix + "_p99");
    assert forall key :: key in between ==>
             after[key] == if key in {prefix + "_p50", prefix + "_p90", prefix + "_p99"} then between[key] / 1000.0 else between[key];
  }

  method DivideShares(extracted: map<string, real>, prefix: string) returns (snapshot: map<string, real>)
    ensures snapshot == AllToSeconds(extracted, prefix + "_p50", prefix + "_p90", prefix + "_p99")
  {
    snapshot := extracted;
    for n := 0 to |SUFFIXES|
      invariant n == 0 ==> snapshot == extracted
      invariant n == 1 ==> snapshot == ToSeconds(extracted, prefix + "_p50")
      invariant n == 2 ==> snapshot == ToSeconds(ToSeconds(extracted, prefix + "_p50"), prefix + "_p90")
      invariant n == 3 ==> snapshot == AllToSeconds(extracted, prefix + "_p50", prefix + "_p90", prefix + "_p99")
    {
      var key := prefix + SUFFIXES[n];
      if key in snapshot {
        snapshot := snapshot[key := snapshot[key] / 1000.0];
      }
    }
  }

  method ExtractHistogramMs(family: Family<real>, prefix: string, before: map<string, real>, parse: BoundParser)
    returns (snapshot: map<string, real>, sorted: seq<Bucket>)
    ensures SortingOf(BucketsOf(family.metrics, parse), sorted)
    ensures ExtractedMs(before, snapshot, prefix, sorted)
    ensures snapshot == AllToSeconds(WithHistogram(before, prefix, sorted), prefix + "_p50", prefix + "_p90", prefix + "_p99")
  {
    snapshot, sorted := ExtractHistogram(family, prefix, before, parse);
    SecondsOfExtracted(before, prefix, sorted);
    snapshot := DivideShares(snapshot, prefix);
  }

  // -------------------------------------------------------------- scaling

  function Times(x: real, c: real): real {
    x * c
  }

  function ScaleBound(b: Bound, c: real): Bound {
    if b.Inf? then Inf else Finite(Times(b.x, c))
  }

  function Scale(buckets: seq<Bucket>, c: real): (r: seq<Bucket>)
    ensures |r| == |buckets|
    ensures forall i :: 0 <= i < |r| ==> r[i] == Bucket(ScaleBound(buckets[i].le, c), buckets[i].count)
  {
    seq(|buckets|, i requires 0 <= i < |buckets| => Bucket(ScaleBound(buckets[i].le, c), buckets[i].count))
  }

  lemma AlongScaled(a: real, b: real, f: real, c: real)
    ensures Along(Times(a, c), Times(b, c), f) == Times(Along(a, b, f), c)
  {
    assert (b * c - a * c) * f == (b - a) * f * c;
  }

  lemma {:induction false} LastFiniteScaled(buckets: seq<Bucket>, c: real)
    ensures LastFinite(Scale(buckets, c)) == Times(LastFinite(buckets), c)
  {
    if buckets != [] {
      LastFiniteScaled(buckets[..|buckets| - 1], c);
      assert Scale(buckets, c)[..|buckets| - 1] == Scale(buckets[..|buckets| - 1], c);
    }
  }

  lemma {:induction false} FromScaled(buckets: seq<Bucket>, c: real, i: nat, target: real, prevCount: real, prevBound: real)
    requires i <= |buckets|
    ensures PercentileFrom(Scale(buckets, c), i, target, prevCount, Times(prevBound, c))
            == Times(PercentileFrom(buckets, i, target, prevCount, prevBound), c)
    decreases |buckets| - i
  {
    if i == |buckets| {
      LastFiniteScaled(buckets, c);
    } else {
      var b := buckets[i];
      if b.le.Inf? {
        FromScaled(buckets, c, i + 1, target, prevCount, prevBound);
      } else {
        AlongScaled(prevBound, b.le.x, Fraction(target, prevCount, b.count), c);
        FromScaled(buckets, c, i + 1, target, b.count, b.le.x);
      }
    }
  }

  /** Percentiles scale with the bounds, whatever the buckets. */
  lemma PercentileScales(buckets: seq<Bucket>, c: real, q: real)
    ensures Percentile(Scale(buckets, c), q) == Times(Percentile(buckets, q), c)
  {
    if buckets != [] {
      assert Times(0.0, c) == 0.0;
      FromScaled(buckets, c, 0, Share(q, buckets[|buckets| - 1].count), 0.0, 0.0);
    }
  }

  lemma TimesInverts(x: real, y: real, c: real)
    requires c > 0.0
    ensures Times(x, c) == y <==> x == Times(y, 1.0 / c)
    ensures forall z :: x < z <==> Times(x, c) < Times(z, c)
  {
    var d := 1.0 / c;
    assert d * c == 1.0;
    assert x * c * d == x * (c * d) && y * d * c == y * (d * c);
    forall z ensures x < z <==> Times(x, c) < Times(z, c) {
      ProductSign(z - x, c);
      ProductSign(x - z, c);
      assert (z - x) * c == z * c - x * c && (x - z) * c == x * c - z * c;
    }
  }

  lemma ScaledOrder(a: Bound, b: Bound, c: real)
    requires c > 0.0
    ensures Below(ScaleBound(a, c), ScaleBound(b, c)) <==> Below(a, b)
  {
    if a.Finite? && b.Finite? {
      TimesInverts(a.x, 0.0, c);
    }
  }

  /** How often a bucket occurs among scaled ones. */
  lemma {:induction false} ScaledCount(buckets: seq<Bucket>, c: real, b: Bucket)
    requires c > 0.0
    ensures multiset(Scale(buckets, c))[b] == multiset(buckets)[b.(le := ScaleBound(b.le, 1.0 / c))]
  {
    if buckets != [] {
      var init, last := buckets[..|buckets| - 1], buckets[|buckets| - 1];
      ScaledCount(init, c, b);
      assert buckets == init + [last];
      assert Scale(buckets, c) == Scale(init, c) + [last.(le := ScaleBound(last.le, c))];
      if last.le.Finite? && b.le.Finite? {
        TimesInverts(last.le.x, b.le.x, c);
      }
    }
  }

  /** Scaling the bounds first leads to the same sorted buckets, scaled. */
  lemma ScaledSorting(buckets: seq<Bucket>, sorted: seq<Bucket>, c: real)
    requires SortingOf(buckets, sorted) && c > 0.0
    ensures SortingOf(Scale(buckets, c), Scale(sorted, c))
  {
    forall b ensures multiset(Scale(buckets, c))[b] == multiset(Scale(sorted, c))[b] {
      ScaledCount(buckets, c, b);
      ScaledCount(sorted, c, b);
    }
    var scaled := Scale(sorted, c);
    forall i, j | 0 <= i < j < |scaled| ensures !Below(scaled[j].le, scaled[i].le) {
      ScaledOrder(sorted[j].le, sorted[i].le, c);
    }
  }

  lemma SuffixesDiffer(prefix: string)
    ensures prefix + "_p50" != prefix + "_p90" && prefix + "_p90" != prefix + "_p99" && prefix + "_p50" != prefix + "_p99"
    ensures prefix + "_count" !in {prefix + "_p50", prefix + "_p90", prefix + "_p99"}
  {
    var n := |prefix|;
    assert (prefix + "_p50")[n + 2] == '5' && (prefix + "_p90")[n + 2] == '9' && (prefix + "_p99")[n + 2] == '9';
    assert (prefix + "_p90")[n + 3] == '0' && (prefix + "_p99")[n + 3] == '9';
    assert |prefix + "_count"| == n + 6;
  }

  lemma WrittenScale(snapshot: map<string, real>, p50: string, p90: string, p99: string, count: string,
                     total: real, a: real, b: real, c: real)
    requires p50 != p90 && p90 != p99 && p50 != p99 && count !in {p50, p90, p99}
    ensures AllToSeconds(Put3(snapshot, p50, p90, p99, a, b, c)[count := total], p50, p90, p99)
            == Put3(snapshot, p50, p90, p99, a / 1000.0, b / 1000.0, c / 1000.0)[count := total]
  {
    var put, scaled := Put3(snapshot, p50, p90, p99, a, b, c)[count := total],
                       Put3(snapshot, p50, p90, p99, a / 1000.0, b / 1000.0, c / 1000.0)[count := total];
    var seconds := AllToSeconds(put, p50, p90, p99);
    forall k
      ensures k in seconds <==> k in scaled
      ensures k in seconds ==> seconds[k] == scaled[k]
    {
      PutAt(snapshot, p50, p90, p99, count, total, a, b, c, k);
      PutAt(snapshot, p50, p90, p99, count, total, a / 1000.0, b / 1000.0, c / 1000.0, k);
      SecondsAt(put, p50, p90, p99, k);
    }
    assert seconds == scaled;
  }

  lemma PutAt(snapshot: map<string, real>, p50: string, p90: string, p99: string, count: string,
              total: real, a: real, b: real, c: real, k: string)
    requires p50 != p90 && p90 != p99 && p50 != p99 && count !in {p50, p90, p99}
    ensures var put := Put3(snapshot, p50, p90, p99, a, b, c)[count := total];
            && (k in put <==> k in snapshot || k in {p50, p90, p99, count})
            && (k in put ==> put[k] == if k == count then total else if k == p50 then a else if k == p90 then b
                                       else if k == p99 then c else snapshot[k])
  {
  }

  lemma SecondsAt(snapshot: map<string, real>, p50: string, p90: string, p99: string, k: string)
    requires p50 != p90 && p90 != p99 && p50 != p99
    ensures k in AllToSeconds(snapshot, p50, p90, p99) <==> k in snapshot
    ensures k in snapshot ==> AllToSeconds(snapshot, p50, p90, p99)[k] == if k in {p50, p90, p99} then snapshot[k] / 1000.0 else snapshot[k]
  {
  }

  lemma ToSecondsFixesExactly(snapshot: map<string, real>, p50: string, p90: string, p99: string)
    requires p50 != p90 && p90 != p99 && p50 != p99
    ensures AllToSeconds(snapshot, p50, p90, p99) == snapshot
            <==> forall k :: k in {p50, p90, p99} && k in snapshot ==> snapshot[k] == 0.0
  {
    var a := AllToSeconds(snapshot, p50, p90, p99);
    forall k | k in {p50, p90, p99} && k in snapshot ensures a[k] == snapshot[k] / 1000.0 {
    }
    if forall k :: k in {p50, p90, p99} && k in snapshot ==> snapshot[k] == 0.0 {
      assert a == snapshot;
    }
  }

  lemma PutScalesExactly(snapshot: map<string, real>, p50: string, p90: string, p99: string, count: string, sorted: seq<Bucket>)
    requires p50 != p90 && p90 != p99 && p50 != p99 && count !in {p50, p90, p99}
    ensures AllToSeconds(Put(snapshot, p50, p90, p99, count, sorted), p50, p90, p99)
            == Put(snapshot, p50, p90, p99, count, Scale(sorted, 0.001))
            <==> (sorted != [] && sorted[|sorted| - 1].count > 0.0)
                 || (forall k :: k in {p50, p90, p99} && k in snapshot ==> snapshot[k] == 0.0)
  {
    if sorted != [] && sorted[|sorted| - 1].count > 0.0 {
      PercentileScales(sorted, 0.001, 0.5);
      PercentileScales(sorted, 0.001, 0.9);
      PercentileScales(sorted, 0.001, 0.99);
      WrittenScale(snapshot, p50, p90, p99, count, sorted[|sorted| - 1].count,
                   Percentile(sorted, 0.5), Percentile(sorted, 0.9), Percentile(sorted, 0.99));
    } else if sorted != [] {
      ToSecondsFixesExactly(snapshot[count := sorted[|sorted| - 1].count], p50, p90, p99);
    } else {
      ToSecondsFixesExactly(snapshot, p50, p90, p99);
    }
  }

  /** Dividing the percentiles afterwards is the same as dividing the bounds beforehand, exactly
      when percentiles were written or nothing but zeros stood in their places. */
  lemma MillisecondsScaleExactly(snapshot: map<string, real>, prefix: string, sorted: seq<Bucket>)
    ensures var p50, p90, p99 := prefix + "_p50", prefix + "_p90", prefix + "_p99";
            AllToSeconds(WithHistogram(snapshot, prefix, sorted), p50, p90, p99)
            == WithHistogram(snapshot, prefix, Scale(sorted, 0.001))
            <==> (sorted != [] && sorted[|sorted| - 1].count > 0.0)
                 || (forall k :: k in {p50, p90, p99} && k in snapshot ==> snapshot[k] == 0.0)
  {
    SuffixesDiffer(prefix);
    PutScalesExactly(snapshot, prefix + "_p50", prefix + "_p90", prefix + "_p99", prefix + "_count", sorted);
  }
}
