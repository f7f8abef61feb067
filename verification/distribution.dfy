/** Histograms with fixed boundaries, as functions of the measurements added, and how near their quantiles come. */
module Distributions {
  import opened Sequences
  import opened Sorting
  import opened OrderStatistics
  import opened Wrappers

  datatype Bucket = Bucket(atMost: int, count: nat)

  datatype Distribution = Distribution(count: nat, sum: int, min: int, max: int, buckets: seq<Bucket>)

  // ---------- What a histogram means: a function of the measurements ----------

  function Sum(xs: seq<int>): int { if xs == [] then 0 else Sum(xs[..|xs| - 1]) + xs[|xs| - 1] }

  function Least(xs: seq<int>): int {
    if xs == [] then 0
    else if |xs| == 1 || xs[|xs| - 1] < Least(xs[..|xs| - 1]) then xs[|xs| - 1]
    else Least(xs[..|xs| - 1])
  }

  /** Starts at zero, as the accumulator does. */
  function Largest(xs: seq<int>): int {
    if xs == [] then 0
    else if xs[|xs| - 1] > Largest(xs[..|xs| - 1]) then xs[|xs| - 1]
    else Largest(xs[..|xs| - 1])
  }

  function BucketsOf(boundaries: seq<int>, samples: seq<int>): seq<Bucket> {
    seq(|boundaries|, i requires 0 <= i < |boundaries| =>
      Bucket(boundaries[i], CountAtMost(samples, boundaries[i])))
  }

  function DistributionOf(boundaries: seq<int>, samples: seq<int>): Distribution {
    Distribution(|samples|, Sum(samples), Least(samples), Largest(samples), BucketsOf(boundaries, samples))
  }

  ghost predicate Positive(samples: seq<int>) { forall x :: x in samples ==> 0 < x }

  /** Min and Max are exact: they are measurements, and bound the others. */
  lemma {:induction false} ExtremesExact(samples: seq<int>)
    requires samples != [] && Positive(samples)
    ensures Least(samples) in samples && Largest(samples) in samples
    ensures forall x :: x in samples ==> Least(samples) <= x <= Largest(samples)
  {
    var last := |samples| - 1;
    assert samples == samples[..last] + [samples[last]];
    assert samples[last] in samples;
    forall x | x in samples[..last] ensures 0 < x { assert x in samples; }
    if last > 0 { ExtremesExact(samples[..last]); }
  }

  class Histogram {
    const boundaries: seq<int>
    const counts: array<nat>
    var count: nat
    var sum: int
    var least: int
    var largest: int
    ghost var samples: seq<int>

    ghost predicate Valid()
      reads this, counts
    {
      && counts.Length == |boundaries|
      && count == |samples| && sum == Sum(samples) && least == Least(samples) && largest == Largest(samples)
      && forall i :: 0 <= i < counts.Length ==> counts[i] == CountAtMost(samples, boundaries[i])
    }

    constructor (bounds: seq<int>)
      ensures Valid() && fresh(counts) && boundaries == bounds && samples == []
    {
      boundaries := bounds;
      counts := new nat[|bounds|](_ => 0);
      count, sum, least, largest, samples := 0, 0, 0, 0, [];
    }

    method Add(duration: int)
      requires Valid()
      modifies this, counts
      ensures Valid() && samples == old(samples) + [duration]
    {
      hide Filter;
      ghost var before := samples;
      samples := samples + [duration];
      assert samples[..|samples| - 1] == before;
      if count == 0 || duration < least { least := duration; }
      if duration > largest { largest := duration; }
      count := count + 1;
      sum := sum + duration;
      for index := 0 to |boundaries|
        invariant counts.Length == |boundaries|
        invariant forall i :: 0 <= i < index ==> counts[i] == CountAtMost(samples, boundaries[i])
        invariant forall i :: index <= i < counts.Length ==> counts[i] == CountAtMost(before, boundaries[i])
        modifies counts
      {
        FilterSnoc(before, duration, OrderStatistics.AtMost(boundaries[index]));
        if duration <= boundaries[index] {
          counts[index] := counts[index] + 1;
        }
      }
    }

    method Snapshot() returns (d: Distribution)
      requires Valid()
      ensures d == DistributionOf(boundaries, samples)
      ensures samples == [] ==> d.count == 0 && d.sum == 0 && d.min == 0 && d.max == 0
    {
      var buckets: seq<Bucket> := [];
      for index := 0 to |boundaries|
        invariant buckets == BucketsOf(boundaries, samples)[..index]
      {
        buckets := buckets + [Bucket(boundaries[index], counts[index])];
      }
      d := Distribution(count, sum, least, largest, buckets);
    }
  }

  // ---------- Quantiles ----------

  /** The bound of the first bucket that holds a rank. */
  function FirstReaching(buckets: seq<Bucket>, rank: int): Option<int> {
    if buckets == [] then None
    else if buckets[0].count >= rank then Some(buckets[0].atMost)
    else FirstReaching(buckets[1..], rank)
  }

  function BoundOf(d: Distribution, share: real): int {
    if d.count == 0 || d.buckets == [] then 0
    else
      var last := d.buckets[|d.buckets| - 1].atMost;
      if share <= 0.0 || share > 1.0 then last
      else
        match FirstReaching(d.buckets, RankFor(share, d.count))
        case Some(b) => b
        case None => last
  }

  function AtMostOf(d: Distribution, bound: int): int {
    if d.count > 0 && d.max < bound then d.max else bound
  }

  function QuantileOf(d: Distribution, share: real): int { AtMostOf(d, BoundOf(d, share)) }

  method Bound(d: Distribution, share: real) returns (bound: int)
    ensures bound == BoundOf(d, share)
  {
    if d.count == 0 || |d.buckets| == 0 { return 0; }
    if share <= 0.0 || share > 1.0 { return d.buckets[|d.buckets| - 1].atMost; }
    var rank: int := RankFor(share, d.count);
    if rank == 0 { rank := 1; }
    for k := 0 to |d.buckets|
      invariant FirstReaching(d.buckets, RankFor(share, d.count)) == FirstReaching(d.buckets[k..], rank)
    {
      if d.buckets[k].count >= rank { return d.buckets[k].atMost; }
      assert d.buckets[k..][1..] == d.buckets[k + 1..];
    }
    return d.buckets[|d.buckets| - 1].atMost;
  }

  method Quantile(d: Distribution, share: real) returns (q: int)
    ensures q == QuantileOf(d, share)
  {
    var bound := Bound(d, share);
    q := AtMostOf(d, bound);
  }

  /** Without measurements, or without boundaries, there is no bound to give. */
  lemma NothingToAnswer(d: Distribution, share: real)
    ensures d.count == 0 ==> QuantileOf(d, share) == 0
    ensures d.buckets == [] && 0 <= d.max ==> QuantileOf(d, share) == 0
  {
  }

  ghost predicate StrictlyAscending(xs: seq<int>) { forall i, j :: 0 <= i < j < |xs| ==> xs[i] < xs[j] }

  /** Bucket `i` is the first from `k` on to hold the rank. */
  ghost predicate FirstHolds(boundaries: seq<int>, samples: seq<int>, k: nat, rank: nat, i: int) {
    && k <= i < |boundaries| && CountAtMost(samples, boundaries[i]) >= rank
    && forall j :: k <= j < i ==> CountAtMost(samples, boundaries[j]) < rank
  }

  lemma {:induction false} FirstReachingIs(boundaries: seq<int>, samples: seq<int>, k: nat, rank: nat)
    requires k <= |boundaries|
    ensures var r := FirstReaching(BucketsOf(boundaries, samples)[k..], rank);
      match r
      case None => forall i :: k <= i < |boundaries| ==> CountAtMost(samples, boundaries[i]) < rank
      case Some(b) => exists i :: FirstHolds(boundaries, samples, k, rank, i) && b == boundaries[i]
    decreases |boundaries| - k
  {
    hide CountAtMost;
    if k < |boundaries| {
      var buckets := BucketsOf(boundaries, samples);
      assert buckets[k..][1..] == buckets[k + 1..];
      FirstReachingIs(boundaries, samples, k + 1, rank);
      assert buckets[k].count == CountAtMost(samples, boundaries[k]);
      if CountAtMost(samples, boundaries[k]) >= rank {
        assert FirstHolds(boundaries, samples, k, rank, k);
      } else if b :| FirstReaching(buckets[k + 1..], rank) == Some(b) {
        var i :| FirstHolds(boundaries, samples, k + 1, rank, i) && b == boundaries[i];
        assert FirstHolds(boundaries, samples, k, rank, i);
      }
    }
  }

  /**
   The quantile brackets the exact measurement at its rank: it is the tightest bound the boundaries
   and the largest measurement give, above the boundary before. Only when that measurement lies past
   the last boundary is the answer the last boundary, and then it is below the measurement.
   */
  lemma QuantileBrackets(boundaries: seq<int>, samples: seq<int>, share: real)
    requires boundaries != [] && StrictlyAscending(boundaries)
    requires samples != [] && Positive(samples) && 0.0 < share <= 1.0
    ensures var q, exact, last := QuantileOf(DistributionOf(boundaries, samples), share), Exact(samples, share),
        boundaries[|boundaries| - 1];
      if exact <= last then
        && exact <= q <= Largest(samples)
        && (exists i :: Brackets(boundaries, i, exact) && q == Min(boundaries[i], Largest(samples)))
      else q == last && q < exact
  {
    hide CountAtMost, Ranked, RankFor, Largest, Least, Sum;
    var exact, last := Exact(samples, share), boundaries[|boundaries| - 1];
    var rank, buckets := RankFor(share, |samples|), BucketsOf(boundaries, samples);
    RankedAtEach(boundaries, samples, rank);
    FirstReachingIs(boundaries, samples, 0, rank);
    assert buckets[0..] == buckets;
    RankedIsMeasured(samples, rank, rank);
    ExtremesExact(samples);
    if exact <= last {
      var i :| FirstHolds(boundaries, samples, 0, rank, i) && FirstReaching(buckets, rank) == Some(boundaries[i]);
      assert Brackets(boundaries, i, exact);
    }
  }

  lemma RankedAtEach(boundaries: seq<int>, samples: seq<int>, rank: nat)
    requires 1 <= rank <= |samples|
    ensures forall i :: 0 <= i < |boundaries| ==>
      (Ranked(samples, rank) <= boundaries[i] <==> CountAtMost(samples, boundaries[i]) >= rank)
  {
    hide CountAtMost, Ranked;
    forall i | 0 <= i < |boundaries|
      ensures Ranked(samples, rank) <= boundaries[i] <==> CountAtMost(samples, boundaries[i]) >= rank
    {
      RankedAtMost(samples, rank, boundaries[i]);
    }
  }

  function Min(a: int, b: int): int { if a < b then a else b }

  /** `x` falls in bucket `i`: above the boundary before it, and not above its own. */
  ghost predicate Brackets(boundaries: seq<int>, i: int, x: int) {
    0 <= i < |boundaries| && x <= boundaries[i] && (i > 0 ==> boundaries[i - 1] < x)
  }

  /** So a quantile is an upper bound of its measurement exactly when the last bucket holds the rank. */
  lemma QuantileIsUpperBoundIff(boundaries: seq<int>, samples: seq<int>, share: real)
    requires boundaries != [] && StrictlyAscending(boundaries)
    requires samples != [] && Positive(samples) && 0.0 < share <= 1.0
    ensures Exact(samples, share) <= QuantileOf(DistributionOf(boundaries, samples), share) <==>
      CountAtMost(samples, boundaries[|boundaries| - 1]) >= RankFor(share, |samples|)
  {
    hide CountAtMost, Ranked, RankFor, QuantileOf, DistributionOf, Largest;
    QuantileBrackets(boundaries, samples, share);
    RankedAtMost(samples, RankFor(share, |samples|), boundaries[|boundaries| - 1]);
  }

  /** Two minutes against the default bounds reads as one. */
  lemma QuantileCanFallShort()
    ensures QuantileOf(DistributionOf(DEFAULT_BOUNDARIES, [120 * SECOND]), 1.0) == 60 * SECOND
    ensures Exact([120 * SECOND], 1.0) == 120 * SECOND
  {
    hide QuantileOf, DistributionOf, Exact;
    DefaultsAscend();
    ExactOfOne(120 * SECOND);
    QuantileBrackets(DEFAULT_BOUNDARIES, [120 * SECOND], 1.0);
  }

  lemma ExactOfOne(x: int)
    ensures Exact([x], 1.0) == x
  {
    RankedIsMeasured([x], 1, 1);
  }

  /** Buckets are cumulative, but the last one holds every measurement only if none lies past its boundary. */
  lemma LastBucketHoldsAllIff(boundaries: seq<int>, samples: seq<int>)
    requires boundaries != [] && samples != [] && Positive(samples)
    ensures var last := |boundaries| - 1;
      DistributionOf(boundaries, samples).buckets[last].count == |samples| <==> Largest(samples) <= boundaries[last]
  {
    hide CountAtMost, Largest, Least, Sum;
    var last := boundaries[|boundaries| - 1];
    ExtremesExact(samples);
    if Largest(samples) <= last {
      CountFull(samples, last);
    } else {
      CountShort(samples, last, Largest(samples));
    }
  }

  /** Two minutes against the default bounds are in no bucket. */
  lemma LastBucketCanMiss()
    ensures DistributionOf(DEFAULT_BOUNDARIES, [120 * SECOND]).count == 1
    ensures forall i :: 0 <= i < |DEFAULT_BOUNDARIES| ==>
      DistributionOf(DEFAULT_BOUNDARIES, [120 * SECOND]).buckets[i].count == 0
  {
    hide CountAtMost;
    var last := |DEFAULT_BOUNDARIES| - 1;
    DefaultsAscend();
    forall i | 0 <= i <= last ensures CountAtMost([120 * SECOND], DEFAULT_BOUNDARIES[i]) == 0 {
      assert DEFAULT_BOUNDARIES[i] <= DEFAULT_BOUNDARIES[last];
      CountShort([120 * SECOND], DEFAULT_BOUNDARIES[i], 120 * SECOND);
    }
  }

  /** For any other share the answer covers the measurements exactly when the last boundary does. */
  lemma QuantileOutsideShares(boundaries: seq<int>, samples: seq<int>, share: real)
    requires boundaries != [] && samples != [] && Positive(samples) && !(0.0 < share <= 1.0)
    ensures var q := QuantileOf(DistributionOf(boundaries, samples), share);
      (forall x :: x in samples ==> x <= q) <==> Largest(samples) <= boundaries[|boundaries| - 1]
  {
    hide CountAtMost, Largest, Least, Sum;
    ExtremesExact(samples);
  }

  /** One measurement of two minutes against the default bounds: a share of zero, or of two, answers one minute. */
  lemma OutsideSharesCanFallShort(share: real)
    requires !(0.0 < share <= 1.0)
    ensures var q := QuantileOf(DistributionOf(DEFAULT_BOUNDARIES, [120 * SECOND]), share);
      q == 60 * SECOND && q < Largest([120 * SECOND])
  {
    hide CountAtMost;
    ExtremesExact([120 * SECOND]);
  }

  /** A larger share never answers a smaller bound. */
  lemma QuantileMonotone(boundaries: seq<int>, samples: seq<int>, share: real, more: real)
    requires boundaries != [] && StrictlyAscending(boundaries)
    requires samples != [] && Positive(samples) && 0.0 < share <= more <= 1.0
    ensures var d := DistributionOf(boundaries, samples); QuantileOf(d, share) <= QuantileOf(d, more)
  {
    hide CountAtMost, Ranked, RankFor, QuantileOf, DistributionOf, Largest;
    QuantileBrackets(boundaries, samples, share);
    QuantileBrackets(boundaries, samples, more);
    RankMonotone(share, more, |samples|);
    RankedIsMeasured(samples, RankFor(share, |samples|), RankFor(more, |samples|));
    BracketsMonotone(boundaries, Exact(samples, share), Exact(samples, more));
  }

  lemma BracketsMonotone(boundaries: seq<int>, low: int, high: int)
    requires boundaries != [] && StrictlyAscending(boundaries) && low <= high
    ensures forall i, j :: Brackets(boundaries, i, low) && Brackets(boundaries, j, high) ==> boundaries[i] <= boundaries[j]
    ensures forall i :: Brackets(boundaries, i, low) ==> boundaries[i] <= boundaries[|boundaries| - 1]
  {
  }

  // ---------- Boundaries ----------

  const MICROSECOND := 1000
  const MILLISECOND := 1000000
  const SECOND := 1000000000

  const DEFAULT_BOUNDARIES: seq<int> := [
    MICROSECOND, 2 * MICROSECOND, 5 * MICROSECOND, 10 * MICROSECOND, 20 * MICROSECOND, 50 * MICROSECOND,
    100 * MICROSECOND, 200 * MICROSECOND, 500 * MICROSECOND,
    MILLISECOND, 2 * MILLISECOND, 5 * MILLISECOND, 10 * MILLISECOND, 20 * MILLISECOND, 50 * MILLISECOND,
    100 * MILLISECOND, 200 * MILLISECOND, 500 * MILLISECOND,
    SECOND, 2 * SECOND, 5 * SECOND, 10 * SECOND, 20 * SECOND, 30 * SECOND, 60 * SECOND]

  /** Adjacent repeats removed. */
  function Compact(xs: seq<int>): seq<int> {
    if |xs| <= 1 then xs
    else if xs[|xs| - 2] == xs[|xs| - 1] then Compact(xs[..|xs| - 1])
    else Compact(xs[..|xs| - 1]) + [xs[|xs| - 1]]
  }

  function SortBoundaries(bounds: seq<int>): seq<int> {
    if bounds == [] then DEFAULT_BOUNDARIES else Compact(StableSort(bounds, IntKey))
  }

  lemma {:induction false} CompactAscends(xs: seq<int>)
    requires Sorted(xs, IntKey)
    ensures StrictlyAscending(Compact(xs))
    ensures forall x :: x in Compact(xs) <==> x in xs
    ensures xs != [] ==> Compact(xs) != [] && Compact(xs)[|Compact(xs)| - 1] == xs[|xs| - 1]
  {
    if |xs| > 1 {
      var last := |xs| - 1;
      assert xs == xs[..last] + [xs[last]];
      assert Leq(IntKey(xs[last - 1]), IntKey(xs[last]));
      CompactAscends(xs[..last]);
    }
  }

  lemma {:induction false} DefaultsAscend()
    ensures StrictlyAscending(DEFAULT_BOUNDARIES)
    ensures forall i :: 0 < i < |DEFAULT_BOUNDARIES| ==> 2 * DEFAULT_BOUNDARIES[i] <= 5 * DEFAULT_BOUNDARIES[i - 1]
  {
    forall i, j | 0 <= i < j < |DEFAULT_BOUNDARIES| ensures DEFAULT_BOUNDARIES[i] < DEFAULT_BOUNDARIES[j] {
      StepsUp(i, j);
    }
  }

  lemma {:induction false} StepsUp(i: nat, j: nat)
    requires i < j < |DEFAULT_BOUNDARIES|
    ensures DEFAULT_BOUNDARIES[i] < DEFAULT_BOUNDARIES[j]
    decreases j - i
  {
    if i + 1 < j { StepsUp(i, j - 1); }
    assert DEFAULT_BOUNDARIES[j - 1] < DEFAULT_BOUNDARIES[j];
  }

  /** The bounds a collector uses ascend without repeats, are never empty, and are those that were asked for. */
  lemma BoundariesAscend(bounds: seq<int>)
    ensures StrictlyAscending(SortBoundaries(bounds)) && SortBoundaries(bounds) != []
    ensures bounds != [] ==> forall x :: x in SortBoundaries(bounds) <==> x in bounds
    ensures bounds == [] ==> SortBoundaries(bounds) == [
      1000, 2000, 5000, 10000, 20000, 50000, 100000, 200000, 500000,
      1000000, 2000000, 5000000, 10000000, 20000000, 50000000, 100000000, 200000000, 500000000,
      1000000000, 2000000000, 5000000000, 10000000000, 20000000000, 30000000000, 60000000000]
  {
    hide StableSort, Compact;
    if bounds == [] {
      DefaultsAscend();
    } else {
      SortSorted(bounds, IntKey);
      SortMembers(bounds, IntKey);
      CompactAscends(StableSort(bounds, IntKey));
    }
  }

  /** No default boundary is more than two and a half times the one before, so within their range no answer is either. */
  lemma DefaultErrorBound(samples: seq<int>, share: real)
    requires samples != [] && Positive(samples) && 0.0 < share <= 1.0
    requires MICROSECOND <= Exact(samples, share) <= 60 * SECOND
    ensures var q := QuantileOf(DistributionOf(DEFAULT_BOUNDARIES, samples), share);
      Exact(samples, share) <= q && 2 * q <= 5 * Exact(samples, share)
  {
    hide QuantileOf, DistributionOf, Exact, Largest;
    DefaultsAscend();
    QuantileBrackets(DEFAULT_BOUNDARIES, samples, share);
    var exact := Exact(samples, share);
    var i :| Brackets(DEFAULT_BOUNDARIES, i, exact)
      && QuantileOf(DistributionOf(DEFAULT_BOUNDARIES, samples), share)
         == Min(DEFAULT_BOUNDARIES[i], Largest(samples));
  }
}
