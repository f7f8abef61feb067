/** Values by share over kept runs, and exactly when the index used is the nearest rank. */
module SpreadOfRuns {
  import opened Sorting
  import opened OrderStatistics
  import opened ProcessRuns

  function Each(runs: seq<Run>, of: Run -> int): seq<int> {
    seq(|runs|, i requires 0 <= i < |runs| => of(runs[i]))
  }

  /** The index the code computes: a ceiling taken by adding almost one and truncating. */
  function IndexOf(share: real, count: nat): int {
    if share <= 0.0 || share > 1.0 then count - 1
    else
      var rank := (count as real * share + 0.9999999).Floor;
      var atLeastOne := if rank < 1 then 1 else rank;
      (if atLeastOne > count then count else atLeastOne) - 1
  }

  method RankOf(share: real, count: nat) returns (index: int)
    ensures index == IndexOf(share, count)
    ensures 1 <= count ==> 0 <= index < count
  {
    if share <= 0.0 || share > 1.0 { return count - 1; }
    var rank := (count as real * share + 0.9999999).Floor;
    if rank < 1 { rank := 1; }
    if rank > count { rank := count; }
    index := rank - 1;
  }

  method AtShare(runs: seq<Run>, share: real, of: Run -> int) returns (value: int)
    ensures runs == [] ==> value == 0
    ensures runs != [] ==> 0 <= IndexOf(share, |runs|) < |runs|
    ensures runs != [] ==> value == Ranked(Each(runs, of), IndexOf(share, |runs|) + 1)
  {
    hide StableSort;
    if |runs| == 0 { return 0; }
    var values: seq<int> := [];
    for k := 0 to |runs|
      invariant values == Each(runs, of)[..k]
    {
      values := values + [of(runs[k])];
    }
    assert values == Each(runs, of);
    var index := RankOf(share, |values|);
    SortMembers(values, IntKey);
    value := StableSort(values, IntKey)[index];
  }

  /** What a run of these allocated, at a share of them. */
  method BytesAt(runs: seq<Run>, share: real) returns (bytes: int)
    ensures runs == [] ==> bytes == 0
    ensures runs != [] ==> 0 <= IndexOf(share, |runs|) < |runs|
    ensures runs != [] ==>
      bytes == Ranked(Each(runs, (run: Run) => run.change.allocBytes), IndexOf(share, |runs|) + 1)
  {
    bytes := AtShare(runs, share, (run: Run) => run.change.allocBytes);
  }

  method ObjectsAt(runs: seq<Run>, share: real) returns (objects: int)
    ensures runs == [] ==> objects == 0
    ensures runs != [] ==> 0 <= IndexOf(share, |runs|) < |runs|
    ensures runs != [] ==>
      objects == Ranked(Each(runs, (run: Run) => run.change.allocObjects), IndexOf(share, |runs|) + 1)
  {
    objects := AtShare(runs, share, (run: Run) => run.change.allocObjects);
  }

  /** A window that ran backwards counts as none. */
  method DurationAt(runs: seq<Run>, share: real) returns (duration: int)
    ensures runs == [] ==> duration == 0
    ensures runs != [] ==> 0 <= IndexOf(share, |runs|) < |runs|
    ensures runs != [] ==>
      duration == Ranked(Each(runs, (run: Run) => if run.change.duration < 0 then 0 else run.change.duration),
                         IndexOf(share, |runs|) + 1)
  {
    duration := AtShare(runs, share, (run: Run) => if run.change.duration < 0 then 0 else run.change.duration);
  }

  // ---------- When the index is the nearest rank ----------

  /** The part of a real number past its whole part. */
  function Fraction(x: real): real { x - x.Floor as real }

  /** No sliver thinner than the fudge: the ranks agree. */
  predicate WideEnough(x: real) { x < 1.0 || Fraction(x) == 0.0 || Fraction(x) >= 0.0000001 }

  predicate RanksAgree(share: real, count: nat) { WideEnough(share * count as real) }

  lemma FudgedCeiling(x: real)
    requires 0.0 < x
    ensures Ceil(x) == (if Fraction(x) == 0.0 then x.Floor else x.Floor + 1)
    ensures (x + 0.9999999).Floor == (if Fraction(x) >= 0.0000001 then x.Floor + 1 else x.Floor)
  {
  }

  /** For a share in (0, 1] the index is ceil(share * count) - 1 exactly when share * count leaves no sliver above a whole number. */
  lemma IndexIsNearestRankIff(share: real, count: nat)
    requires 0.0 < share <= 1.0 && 1 <= count
    ensures IndexOf(share, count) == RankFor(share, count) - 1 <==> RanksAgree(share, count)
  {
    var x := share * count as real;
    assert 0.0 < x <= 1.0 * count as real;
    assert count as real * share == x;
    FudgedCeiling(x);
  }

  /** Every share with a denominator up to ten million is wide enough. */
  lemma RationalSharesAgree(share: real, p: nat, q: nat, count: nat)
    requires 1 <= p <= q <= 10000000 && share * q as real == p as real && 1 <= count
    ensures 0.0 < share <= 1.0
    ensures IndexOf(share, count) == RankFor(share, count) - 1
  {
    ShareInRange(share, p, q);
    var x := share * count as real;
    assert x * q as real == (p * count) as real by { Scaled(share, p, q, count); }
    RationalFraction(x, p * count, q);
    IndexIsNearestRankIff(share, count);
  }

  lemma {:induction false} Compare(f: real, g: real, n: real)
    requires 0.0 < n
    ensures f < g <==> f * n < g * n
  {
    if f < g { Stretch(f, g, n); }
    if g < f { Stretch(g, f, n); }
  }

  lemma {:induction false} Stretch(f: real, g: real, n: real)
    requires 0.0 < n && f < g
    ensures f * n < g * n
  {
    assert 0.0 < (g - f) * n;
    assert (g - f) * n == g * n - f * n;
  }

  lemma {:induction false} ShareInRange(share: real, p: nat, q: nat)
    requires 1 <= p <= q && share * q as real == p as real
    ensures 0.0 < share <= 1.0
  {
    Compare(0.0, share, q as real);
    Compare(1.0, share, q as real);
  }

  lemma {:induction false} Scaled(share: real, p: nat, q: nat, count: nat)
    requires share * q as real == p as real
    ensures (share * count as real) * q as real == (p * count) as real
  {
    assert (share * count as real) * q as real == (share * q as real) * count as real;
  }

  lemma RationalFraction(x: real, m: nat, q: nat)
    requires 1 <= q <= 10000000 && x * q as real == m as real
    ensures Fraction(x) == 0.0 || Fraction(x) >= 0.0000001
  {
    var k, r := m / q, m % q;
    var f := x - k as real;
    assert m == k * q + r;
    assert f * q as real == r as real by { Shift(x, k, q, m, r); }
    SmallQuotient(f, r, q);
    assert x.Floor == k;
  }

  lemma {:induction false} Shift(x: real, k: nat, q: nat, m: nat, r: nat)
    requires x * q as real == m as real && m == k * q + r
    ensures (x - k as real) * q as real == r as real
  {
    assert (x - k as real) * q as real == x * q as real - k as real * q as real;
    assert (k * q) as real == k as real * q as real;
  }

  lemma SmallQuotient(f: real, r: nat, q: nat)
    requires 1 <= q <= 10000000 && r < q && f * q as real == r as real
    ensures 0.0 <= f < 1.0 && (f == 0.0 || f >= 0.0000001)
  {
    SmallReal(f, r as real, q as real);
  }

  lemma SmallReal(f: real, r: real, n: real)
    requires f * n == r && 1.0 <= n <= 10000000.0 && 0.0 <= r < n && (r == 0.0 || 1.0 <= r)
    ensures 0.0 <= f < 1.0 && (f == 0.0 || f >= 0.0000001)
  {
    Compare(f, 0.0, n);
    Compare(f, 1.0, n);
    if r == 0.0 { Vanishes(f, n); } else { NotTooSmall(f, n); }
  }

  lemma Vanishes(f: real, n: real)
    requires 1.0 <= n && f * n == 0.0
    ensures f == 0.0
  {
  }

  lemma NotTooSmall(f: real, n: real)
    requires 1.0 <= n <= 10000000.0 && 1.0 <= f * n
    ensures f >= 0.0000001
  {
    Compare(f, 0.0000001, n);
  }

  /** A sliver too thin: of two runs, a hair over half answers the first where the nearest rank is the second. */
  lemma ThinSliverFallsShort()
    ensures var share := 0.50000001;
      IndexOf(share, 2) == 0 && RankFor(share, 2) == 2
  {
  }

  /** Over the kept runs: the answer happened, it is the exact nearest-rank value, and it bounds its share of the runs. */
  lemma AtShareIsExact(runs: seq<Run>, share: real, of: Run -> int)
    requires runs != [] && 0.0 < share <= 1.0 && RanksAgree(share, |runs|)
    ensures var values := Each(runs, of);
      && 0 <= IndexOf(share, |runs|) < |runs|
      && Ranked(values, IndexOf(share, |runs|) + 1) == Exact(values, share)
      && Exact(values, share) in values
      && CountAtMost(values, Exact(values, share)) >= RankFor(share, |runs|)
      && forall v :: v < Exact(values, share) ==> CountAtMost(values, v) < RankFor(share, |runs|)
  {
    hide Ranked, CountAtMost, RankFor, IndexOf, RanksAgree;
    var values := Each(runs, of);
    IndexIsNearestRankIff(share, |runs|);
    RankedIsMeasured(values, RankFor(share, |runs|), RankFor(share, |runs|));
    RankedAtMost(values, RankFor(share, |runs|), Exact(values, share));
    forall v | v < Exact(values, share) ensures CountAtMost(values, v) < RankFor(share, |runs|) {
      RankedAtMost(values, RankFor(share, |runs|), v);
    }
  }

  /** Any other share gets the largest value, which covers all of them. */
  lemma OutsideSharesAnswerLargest(runs: seq<Run>, share: real, of: Run -> int)
    requires runs != [] && !(0.0 < share <= 1.0)
    ensures IndexOf(share, |runs|) == |runs| - 1
    ensures forall v :: v in Each(runs, of) ==> v <= Ranked(Each(runs, of), |runs|)
  {
    hide Ranked;
    var values := Each(runs, of);
    RankedAtMost(values, |values|, Ranked(values, |values|));
    forall v | v in values ensures v <= Ranked(values, |values|) { AllAtMost(values, Ranked(values, |values|), v); }
  }

  lemma {:induction false} AllAtMost(xs: seq<int>, b: int, v: int)
    requires CountAtMost(xs, b) >= |xs| && v in xs
    ensures v <= b
  {
    var last := |xs| - 1;
    CountBound(xs[..last], b);
    if v != xs[last] {
      assert xs == xs[..last] + [xs[last]];
      AllAtMost(xs[..last], b, v);
    }
  }
}
