/** Whether a quantile is the tightest bound its distribution allows: whether some measurements attain it. */
module Tightness {
  import opened Sequences
  import opened Sorting
  import opened OrderStatistics
  import opened Distributions
  import opened Wrappers

  // ---------- Where the measurement at a rank can lie ----------

  /** The first bucket that holds a rank; past the last one when none does. */
  function IndexFor(buckets: seq<Bucket>, rank: int): nat {
    if buckets == [] || buckets[0].count >= rank then 0 else 1 + IndexFor(buckets[1..], rank)
  }

  lemma {:induction false} IndexForIs(buckets: seq<Bucket>, rank: int)
    ensures var i := IndexFor(buckets, rank);
      && i <= |buckets|
      && (forall j :: 0 <= j < i ==> buckets[j].count < rank)
      && (i < |buckets| ==> buckets[i].count >= rank)
      && FirstReaching(buckets, rank) == if i < |buckets| then Some(buckets[i].atMost) else None
  {
    if buckets != [] && buckets[0].count < rank { IndexForIs(buckets[1..], rank); }
  }

  function Max(a: int, b: int): int { if a < b then b else a }

  /** The most the measurement at a rank can be: its bucket's boundary, or Max. */
  function Top(d: Distribution, rank: int): int {
    IndexForIs(d.buckets, rank);
    var i := IndexFor(d.buckets, rank);
    if i < |d.buckets| then Min(d.buckets[i].atMost, d.max) else d.max
  }

  /** The least it can be: just above the boundary before, or Min. */
  function Bottom(d: Distribution, rank: int): int {
    IndexForIs(d.buckets, rank);
    var i := IndexFor(d.buckets, rank);
    if i == 0 then d.min else Max(d.min, d.buckets[i - 1].atMost + 1)
  }

  /** Sorted measurements of a distribution. */
  ghost predicate Describes(d: Distribution, boundaries: seq<int>, t: seq<int>) {
    && boundaries != [] && StrictlyAscending(boundaries)
    && t != [] && Positive(t) && Sorted(t, IntKey) && d == DistributionOf(boundaries, t)
  }

  lemma {:induction false} LiesBetween(d: Distribution, boundaries: seq<int>, t: seq<int>, rank: nat)
    requires Describes(d, boundaries, t) && 1 <= rank <= |t|
    ensures Bottom(d, rank) <= t[rank - 1] <= Top(d, rank)
  {
    hide CountAtMost, Sum, Least, Largest;
    var i := IndexFor(d.buckets, rank);
    IndexForIs(d.buckets, rank);
    ExtremesExact(t);
    assert t[rank - 1] in t;
    if i < |boundaries| { SortedCount(t, boundaries[i], rank); }
    if i > 0 { SortedCount(t, boundaries[i - 1], rank); }
  }

  lemma SortedExtremes(d: Distribution, boundaries: seq<int>, t: seq<int>)
    requires Describes(d, boundaries, t)
    ensures t[0] == d.min && t[|t| - 1] == d.max
  {
    hide CountAtMost, Sum, Least, Largest;
    ExtremesExact(t);
    assert t[0] in t && t[|t| - 1] in t;
    var i :| 0 <= i < |t| && t[i] == Least(t);
    var j :| 0 <= j < |t| && t[j] == Largest(t);
    if i > 0 { assert Leq(IntKey(t[0]), IntKey(t[i])); }
    if j < |t| - 1 { assert Leq(IntKey(t[j]), IntKey(t[|t| - 1])); }
  }

  // ---------- Measurements moved within their buckets ----------

  lemma {:induction false} CountsSame(xs: seq<int>, ys: seq<int>, b: int)
    requires |xs| == |ys| && forall k :: 0 <= k < |xs| ==> (xs[k] <= b <==> ys[k] <= b)
    ensures CountAtMost(xs, b) == CountAtMost(ys, b)
  {
    if xs != [] { CountsSame(xs[..|xs| - 1], ys[..|ys| - 1], b); }
  }

  /** Between its bottom and its top a measurement stays in its bucket. */
  lemma {:induction false} StaysInBucket(d: Distribution, boundaries: seq<int>, t: seq<int>, rank: nat, x: int, j: nat)
    requires Describes(d, boundaries, t) && 1 <= rank <= |t| && j < |boundaries|
    requires Bottom(d, rank) <= x <= Top(d, rank)
    ensures t[rank - 1] <= boundaries[j] <==> x <= boundaries[j]
  {
    hide CountAtMost, Sum, Least, Largest;
    var i := IndexFor(d.buckets, rank);
    IndexForIs(d.buckets, rank);
    LiesBetween(d, boundaries, t, rank);
    if j < i - 1 { assert boundaries[j] < boundaries[i - 1]; }
    if i < j { assert boundaries[i] < boundaries[j]; }
  }

  lemma {:induction false} CountAtLeast(xs: seq<int>, b: int, n: nat)
    requires n <= |xs| && forall k :: 0 <= k < n ==> xs[k] <= b
    ensures CountAtMost(xs, b) >= n
  {
    if 0 < n <= |xs| - 1 {
      CountAtLeast(xs[..|xs| - 1], b, n);
    } else if 0 < n {
      CountAtLeast(xs[..|xs| - 1], b, n - 1);
    }
  }

  lemma {:induction false} CountBelow(xs: seq<int>, b: int, n: nat)
    requires n <= |xs| && forall k :: n <= k < |xs| ==> b < xs[k]
    ensures CountAtMost(xs, b) <= n
  {
    CountBound(xs, b);
    if n < |xs| { CountBelow(xs[..|xs| - 1], b, n); }
  }

  /** The value at a rank, from how the positions before and after it compare with it. */
  lemma RankedIs(xs: seq<int>, rank: nat, x: int)
    requires 1 <= rank <= |xs|
    requires forall k :: 0 <= k < rank ==> xs[k] <= x
    requires forall k :: rank - 1 <= k < |xs| ==> x <= xs[k]
    ensures Ranked(xs, rank) == x
  {
    hide CountAtMost, Ranked;
    CountAtLeast(xs, x, rank);
    CountBelow(xs, x - 1, rank - 1);
    RankedAtMost(xs, rank, x);
    RankedAtMost(xs, rank, x - 1);
  }

  lemma {:induction false} TopsAscend(d: Distribution, boundaries: seq<int>, t: seq<int>, j: nat, k: nat)
    requires Describes(d, boundaries, t) && 1 <= j <= k <= |t|
    ensures Top(d, j) <= Top(d, k)
    ensures IndexFor(d.buckets, j) <= IndexFor(d.buckets, k)
    ensures IndexFor(d.buckets, j) < IndexFor(d.buckets, k) ==> Top(d, j) < Bottom(d, k)
  {
    hide CountAtMost, Sum, Least, Largest;
    IndexForIs(d.buckets, j);
    IndexForIs(d.buckets, k);
    var a, b := IndexFor(d.buckets, j), IndexFor(d.buckets, k);
    if a < b - 1 { assert boundaries[a] < boundaries[b - 1]; }
    if a < b < |boundaries| { assert boundaries[a] < boundaries[b]; }
  }

  // ---------- Sorting keeps the distribution ----------

  lemma {:induction false} SumConcat(xs: seq<int>, ys: seq<int>)
    ensures Sum(xs + ys) == Sum(xs) + Sum(ys)
  {
    if ys == [] {
      assert xs + ys == xs;
    } else {
      SumConcat(xs, ys[..|ys| - 1]);
      assert (xs + ys)[..|xs + ys| - 1] == xs + ys[..|ys| - 1];
    }
  }

  lemma SumCons(x: int, xs: seq<int>)
    ensures Sum([x] + xs) == x + Sum(xs)
  {
    SumConcat([x], xs);
    assert [x][..0] == [] && Sum([x]) == x;
  }

  lemma {:induction false} SumInsert(x: int, xs: seq<int>)
    ensures Sum(Insert(x, xs, IntKey)) == x + Sum(xs)
  {
    hide Sum;
    SumCons(x, xs);
    if xs != [] && !Leq(IntKey(x), IntKey(xs[0])) {
      SumInsert(x, xs[1..]);
      SumCons(xs[0], Insert(x, xs[1..], IntKey));
      SumCons(xs[0], xs[1..]);
      assert xs == [xs[0]] + xs[1..];
    }
  }

  lemma {:induction false} SumSorted(xs: seq<int>)
    ensures Sum(StableSort(xs, IntKey)) == Sum(xs)
  {
    if xs != [] {
      hide Sum;
      SumSorted(xs[1..]);
      SumInsert(xs[0], StableSort(xs[1..], IntKey));
      SumCons(xs[0], xs[1..]);
      assert xs == [xs[0]] + xs[1..];
    }
  }

  /** Sorting changes nothing a distribution keeps, nor the measurement at a rank. */
  lemma SortedDescribes(boundaries: seq<int>, samples: seq<int>)
    requires boundaries != [] && StrictlyAscending(boundaries) && samples != [] && Positive(samples)
    ensures Describes(DistributionOf(boundaries, samples), boundaries, StableSort(samples, IntKey))
    ensures |StableSort(samples, IntKey)| == |samples|
  {
    hide StableSort, Sum, Least, Largest, Filter;
    var t := StableSort(samples, IntKey);
    SortMembers(samples, IntKey);
    SortSorted(samples, IntKey);
    SumSorted(samples);
    ExtremesExact(samples);
    ExtremesExact(t);
    SortMultiset(samples, IntKey);
    forall i | 0 <= i < |boundaries| ensures CountAtMost(t, boundaries[i]) == CountAtMost(samples, boundaries[i]) {
      FilterPermuted(t, samples, AtMost(boundaries[i]));
      assert |Filter(t, AtMost(boundaries[i]))| == |multiset(Filter(t, AtMost(boundaries[i])))|;
      assert |Filter(samples, AtMost(boundaries[i]))| == |multiset(Filter(samples, AtMost(boundaries[i])))|;
    }
    assert BucketsOf(boundaries, t) == BucketsOf(boundaries, samples);
  }

  /** What a bucket reaches is answered with its top. */
  lemma QuantileIsTop(boundaries: seq<int>, samples: seq<int>, share: real)
    requires boundaries != [] && samples != [] && 0.0 < share <= 1.0
    requires CountAtMost(samples, boundaries[|boundaries| - 1]) >= RankFor(share, |samples|)
    ensures var d := DistributionOf(boundaries, samples); QuantileOf(d, share) == Top(d, RankFor(share, d.count))
  {
    hide CountAtMost, RankFor, Sum, Least, Largest;
    IndexForIs(BucketsOf(boundaries, samples), RankFor(share, |samples|));
  }

  lemma {:induction false} WithinExtremes(d: Distribution, rank: int)
    ensures d.min <= Bottom(d, rank) && Top(d, rank) <= d.max
  {
  }

  /** Measurements between the bottoms and the tops have the same buckets, and the same Max if the last is at its top. */
  lemma Moved(d: Distribution, boundaries: seq<int>, t: seq<int>, others: seq<int>)
    requires Describes(d, boundaries, t) && |others| == |t|
    requires forall k :: 0 <= k < |t| ==> Bottom(d, k + 1) <= others[k] <= Top(d, k + 1)
    requires others[|t| - 1] == Top(d, |t|)
    ensures Positive(others) && BucketsOf(boundaries, others) == d.buckets && Largest(others) == d.max
  {
    hide CountAtMost, Sum, Least, Largest, Top, Bottom;
    ExtremesExact(t);
    forall k | 0 <= k < |t| ensures 0 < others[k] <= d.max { WithinExtremes(d, k + 1); }
    forall j | 0 <= j < |boundaries| ensures CountAtMost(t, boundaries[j]) == CountAtMost(others, boundaries[j]) {
      forall k | 0 <= k < |t| ensures t[k] <= boundaries[j] <==> others[k] <= boundaries[j] {
        StaysInBucket(d, boundaries, t, k + 1, others[k], j);
      }
      CountsSame(t, others, boundaries[j]);
    }
    assert BucketsOf(boundaries, others) == BucketsOf(boundaries, t);
    ExtremesExact(others);
    SortedExtremes(d, boundaries, t);
    LiesBetween(d, boundaries, t, |t|);
    assert others[|t| - 1] in others;
  }

  // ---------- The buckets and Max alone ----------

  /**
   A quantile that a bucket reaches is the tightest bound the buckets and Max allow: other measurements with the
   same buckets and the same Max have it as their value at that share.
   */
  lemma QuantileIsTight(boundaries: seq<int>, samples: seq<int>, share: real) returns (others: seq<int>)
    requires boundaries != [] && StrictlyAscending(boundaries)
    requires samples != [] && Positive(samples) && 0.0 < share <= 1.0
    requires CountAtMost(samples, boundaries[|boundaries| - 1]) >= RankFor(share, |samples|)
    ensures |others| == |samples| && Positive(others)
    ensures var d, e := DistributionOf(boundaries, samples), DistributionOf(boundaries, others);
      e.buckets == d.buckets && e.max == d.max && Exact(others, share) == QuantileOf(d, share)
  {
    hide CountAtMost, RankFor, Sum, Least, Largest, Top, Bottom, Ranked, QuantileOf;
    var d, t := DistributionOf(boundaries, samples), StableSort(samples, IntKey);
    var rank := RankFor(share, |samples|);
    SortedDescribes(boundaries, samples);
    QuantileIsTop(boundaries, samples, share);
    hide StableSort;
    others := seq(|t|, k requires 0 <= k < |t| => Top(d, k + 1));
    forall k | 0 <= k < |t| ensures Bottom(d, k + 1) <= others[k] <= Top(d, k + 1) {
      LiesBetween(d, boundaries, t, k + 1);
    }
    Moved(d, boundaries, t, others);
    forall k | 0 <= k < rank ensures others[k] <= Top(d, rank) { TopsAscend(d, boundaries, t, k + 1, rank); }
    forall k | rank - 1 <= k < |t| ensures Top(d, rank) <= others[k] { TopsAscend(d, boundaries, t, rank, k + 1); }
    RankedIs(others, rank, Top(d, rank));
  }

  // ---------- The whole distribution, Sum and Min included ----------

  /** The least the measurement at `k` can be when that at `rank` is at its top. */
  function Floor(d: Distribution, rank: int, k: int): int {
    if k == d.count then d.max
    else if k == 1 then d.min
    else if rank <= k && IndexFor(d.buckets, k) == IndexFor(d.buckets, rank) then Top(d, rank)
    else Bottom(d, k)
  }

  function Floors(d: Distribution, rank: int): seq<int> {
    seq(d.count, k requires 0 <= k < d.count => Floor(d, rank, k + 1))
  }

  lemma {:induction false} SumBelow(xs: seq<int>, ys: seq<int>)
    requires |xs| == |ys| && forall k :: 0 <= k < |xs| ==> xs[k] <= ys[k]
    ensures Sum(xs) <= Sum(ys)
  {
    if xs != [] { SumBelow(xs[..|xs| - 1], ys[..|ys| - 1]); }
  }

  /** Every sum between that of the lows and that of the highs is the sum of numbers between them. */
  lemma {:induction false} Between(low: seq<int>, high: seq<int>, total: int) returns (xs: seq<int>)
    requires |low| == |high| && forall k :: 0 <= k < |low| ==> low[k] <= high[k]
    requires Sum(low) <= total <= Sum(high)
    ensures |xs| == |low| && Sum(xs) == total && forall k :: 0 <= k < |xs| ==> low[k] <= xs[k] <= high[k]
  {
    if low == [] {
      xs := [];
    } else {
      var last := |low| - 1;
      var x := if total - high[last] >= Sum(low[..last]) then high[last] else total - Sum(low[..last]);
      SumBelow(low[..last], high[..last]);
      var front := Between(low[..last], high[..last], total - x);
      xs := front + [x];
      assert xs[..last] == front;
    }
  }

  lemma {:induction false} FloorHolds(d: Distribution, boundaries: seq<int>, t: seq<int>, rank: nat, k: nat)
    requires Describes(d, boundaries, t) && 1 <= rank <= |t| && 1 <= k <= |t| && t[rank - 1] == Top(d, rank)
    ensures Floor(d, rank, k) <= t[k - 1]
  {
    hide CountAtMost, Sum, Least, Largest, Top, Bottom;
    LiesBetween(d, boundaries, t, k);
    SortedExtremes(d, boundaries, t);
    if rank < k { assert Leq(IntKey(t[rank - 1]), IntKey(t[k - 1])); }
  }

  lemma {:induction false} FloorFits(d: Distribution, boundaries: seq<int>, t: seq<int>, rank: nat, k: nat)
    requires Describes(d, boundaries, t) && 1 <= rank <= |t| && 1 <= k <= |t|
    ensures Bottom(d, k) <= Floor(d, rank, k) <= Top(d, k)
    ensures rank <= k && (rank == 1 ==> Top(d, rank) == d.min) ==> Top(d, rank) <= Floor(d, rank, k)
  {
    hide CountAtMost, Sum, Least, Largest;
    LiesBetween(d, boundaries, t, k);
    SortedExtremes(d, boundaries, t);
    IndexForIs(d.buckets, k);
    if rank <= k { TopsAscend(d, boundaries, t, rank, k); }
  }

  /** Some measurements with this very distribution have the quantile as their value at that share. */
  ghost predicate Attains(d: Distribution, boundaries: seq<int>, share: real, others: seq<int>)
    requires 0.0 < share <= 1.0
  {
    && others != [] && Positive(others) && DistributionOf(boundaries, others) == d
    && Exact(others, share) == QuantileOf(d, share)
  }

  /** Sorted measurements that reach the top at a rank leave their floors room. */
  lemma FloorsBelow(d: Distribution, boundaries: seq<int>, t: seq<int>, rank: nat)
    requires Describes(d, boundaries, t) && 1 <= rank <= |t| && t[rank - 1] == Top(d, rank)
    ensures Sum(Floors(d, rank)) <= d.sum && (rank == 1 ==> Top(d, rank) == d.min)
  {
    hide CountAtMost, Sum, Least, Largest, Top, Bottom, Floor;
    SortedExtremes(d, boundaries, t);
    forall k | 0 <= k < |t| ensures Floors(d, rank)[k] <= t[k] { FloorHolds(d, boundaries, t, rank, k + 1); }
    SumBelow(Floors(d, rank), t);
  }

  lemma AttainedHasRoom(d: Distribution, boundaries: seq<int>, share: real, others: seq<int>)
    requires boundaries != [] && StrictlyAscending(boundaries) && 0.0 < share <= 1.0
    requires Attains(d, boundaries, share, others)
    requires CountAtMost(others, boundaries[|boundaries| - 1]) >= RankFor(share, |others|)
    ensures var rank := RankFor(share, d.count);
      Sum(Floors(d, rank)) <= d.sum && (rank == 1 ==> QuantileOf(d, share) == d.min)
  {
    hide CountAtMost, RankFor, DistributionOf, Describes, Floors, Top, QuantileOf, StableSort, Sum;
    assert |others| == d.count by { CountOf(boundaries, others); }
    SortedDescribes(boundaries, others);
    QuantileIsTop(boundaries, others, share);
    FloorsBelow(d, boundaries, StableSort(others, IntKey), RankFor(share, d.count));
  }

  lemma CountOf(boundaries: seq<int>, samples: seq<int>)
    ensures DistributionOf(boundaries, samples).count == |samples|
  {
  }

  lemma RoomIsAttained(d: Distribution, boundaries: seq<int>, samples: seq<int>, share: real)
    returns (others: seq<int>)
    requires boundaries != [] && StrictlyAscending(boundaries) && 0.0 < share <= 1.0
    requires samples != [] && Positive(samples) && d == DistributionOf(boundaries, samples)
    requires CountAtMost(samples, boundaries[|boundaries| - 1]) >= RankFor(share, |samples|)
    requires var rank := RankFor(share, d.count);
      Sum(Floors(d, rank)) <= d.sum && (rank == 1 ==> QuantileOf(d, share) == d.min)
    ensures Attains(d, boundaries, share, others)
  {
    hide CountAtMost, RankFor, Sum, Least, Largest, Top, Bottom, Floor, QuantileOf, Ranked, StableSort;
    var rank, t := RankFor(share, d.count), StableSort(samples, IntKey);
    SortedDescribes(boundaries, samples);
    QuantileIsTop(boundaries, samples, share);
    var high := seq(|t|, k requires 0 <= k < |t| => if k == 0 then d.min else Top(d, k + 1));
    SortedExtremes(d, boundaries, t);
    forall k | 0 <= k < |t| ensures t[k] <= high[k] && Floors(d, rank)[k] <= high[k] {
      LiesBetween(d, boundaries, t, k + 1);
      FloorFits(d, boundaries, t, rank, k + 1);
      FloorOfFirst(d, rank);
    }
    SumBelow(t, high);
    others := Between(Floors(d, rank), high, d.sum);
    LiesBetween(d, boundaries, t, 1);
    FloorOfFirst(d, rank);
    assert Floors(d, rank)[0] <= others[0] <= high[0];
    forall k | 0 <= k < |t| ensures Floor(d, rank, k + 1) <= others[k] <= Top(d, k + 1) {
      assert Floors(d, rank)[k] <= others[k] <= high[k];
    }
    Fills(d, boundaries, t, rank, others);
  }

  lemma FloorOfFirst(d: Distribution, rank: int)
    ensures d.count > 1 ==> Floor(d, rank, 1) == d.min
    ensures Floor(d, rank, d.count) == d.max
  {
  }

  lemma Fills(d: Distribution, boundaries: seq<int>, t: seq<int>, rank: nat, others: seq<int>)
    requires Describes(d, boundaries, t) && 1 <= rank <= |t| && |others| == |t|
    requires forall k :: 0 <= k < |t| ==> Floor(d, rank, k + 1) <= others[k] <= Top(d, k + 1)
    requires others[0] == d.min && Sum(others) == d.sum && (rank == 1 ==> Top(d, rank) == d.min)
    ensures Positive(others) && DistributionOf(boundaries, others) == d && Ranked(others, rank) == Top(d, rank)
  {
    hide CountAtMost, Sum, Least, Largest, Top, Bottom, Floor, Ranked;
    FloorOfFirst(d, rank);
    SortedExtremes(d, boundaries, t);
    forall k | 0 <= k < |t| ensures d.min <= Bottom(d, k + 1) <= others[k] {
      FloorFits(d, boundaries, t, rank, k + 1);
      WithinExtremes(d, k + 1);
    }
    WithinExtremes(d, |t|);
    Moved(d, boundaries, t, others);
    ExtremesExact(others);
    assert others[0] in others;
    forall k | 0 <= k < rank ensures others[k] <= Top(d, rank) { TopsAscend(d, boundaries, t, k + 1, rank); }
    forall k | rank - 1 <= k < |t| ensures Top(d, rank) <= others[k] { FloorFits(d, boundaries, t, rank, k + 1); }
    RankedIs(others, rank, Top(d, rank));
  }

  /**
   With Sum and Min kept too, it is the tightest bound exactly when the sum leaves room for the measurements from
   that rank on to reach the top of their bucket, and the first rank is not asked for something above Min.
   */
  lemma TightIff(boundaries: seq<int>, samples: seq<int>, share: real)
    requires boundaries != [] && StrictlyAscending(boundaries)
    requires samples != [] && Positive(samples) && 0.0 < share <= 1.0
    requires CountAtMost(samples, boundaries[|boundaries| - 1]) >= RankFor(share, |samples|)
    ensures var d := DistributionOf(boundaries, samples);
      var rank := RankFor(share, d.count);
      (exists others :: Attains(d, boundaries, share, others)) <==>
        Sum(Floors(d, rank)) <= d.sum && (rank == 1 ==> QuantileOf(d, share) == d.min)
  {
    hide CountAtMost, RankFor, Sum, Least, Largest, QuantileOf, Floors;
    var d := DistributionOf(boundaries, samples);
    var rank := RankFor(share, d.count);
    if others :| Attains(d, boundaries, share, others) {
      assert d.buckets[|boundaries| - 1].count == CountAtMost(others, boundaries[|boundaries| - 1]);
      AttainedHasRoom(d, boundaries, share, others);
    }
    if Sum(Floors(d, rank)) <= d.sum && (rank == 1 ==> QuantileOf(d, share) == d.min) {
      var others := RoomIsAttained(d, boundaries, samples, share);
    }
  }

  /** Of 2 and 100 in buckets up to 50 and 1000 the median reads as 50, and Min says it is 2. */
  lemma NotAlwaysTight()
    ensures var d := DistributionOf([50, 1000], [2, 100]);
      QuantileOf(d, 0.5) == 50 && forall others :: !Attains(d, [50, 1000], 0.5, others)
  {
    hide Ranked, StableSort;
    assert [2, 100][..1] == [2] && [2][..0] == [];
    assert CountAtMost([2, 100], 50) == 1 && CountAtMost([2, 100], 1000) == 2 by { CountOfTwo(); }
    assert RankFor(0.5, 2) == 1;
    TightIff([50, 1000], [2, 100], 0.5);
    QuantileIsTop([50, 1000], [2, 100], 0.5);
  }

  lemma CountOfTwo()
    ensures CountAtMost([2, 100], 50) == 1 && CountAtMost([2, 100], 1000) == 2
  {
    CountAtLeast([2, 100], 50, 1);
    CountBelow([2, 100], 50, 1);
    CountFull([2, 100], 1000);
  }
}
