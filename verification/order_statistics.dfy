/** The nearest-rank value of some measurements, and what counting says about it. */
module OrderStatistics {
  import opened Sequences
  import opened Sorting

  function IntKey(x: int): Key { Key(x, 0) }

  function AtMost(b: int): int -> bool { (x: int) => x <= b }

  function CountAtMost(xs: seq<int>, b: int): nat { |Filter(xs, AtMost(b))| }

  /** The value at a rank, counted from one, of the sorted measurements. */
  function Ranked(xs: seq<int>, rank: nat): int
    requires 1 <= rank <= |xs|
  {
    SortMembers(xs, IntKey);
    StableSort(xs, IntKey)[rank - 1]
  }

  lemma {:induction false} SortedCount(xs: seq<int>, b: int, rank: nat)
    requires Sorted(xs, IntKey) && 1 <= rank <= |xs|
    ensures xs[rank - 1] <= b <==> CountAtMost(xs, b) >= rank
  {
    var last := |xs| - 1;
    if rank <= last {
      SortedCount(xs[..last], b, rank);
      assert Leq(IntKey(xs[rank - 1]), IntKey(xs[last]));
      CountBound(xs[..last], b);
    } else {
      CountBound(xs[..last], b);
      if xs[last] <= b {
        forall x | x in xs[..last] ensures x <= b {
          var i :| 0 <= i < last && xs[i] == x;
          assert Leq(IntKey(xs[i]), IntKey(xs[last]));
        }
        CountFull(xs[..last], b);
      }
    }
  }

  lemma {:induction false} CountBound(xs: seq<int>, b: int)
    ensures CountAtMost(xs, b) <= |xs|
  {
    if xs != [] { CountBound(xs[..|xs| - 1], b); }
  }

  lemma {:induction false} CountFull(xs: seq<int>, b: int)
    requires forall x :: x in xs ==> x <= b
    ensures CountAtMost(xs, b) == |xs|
  {
    if xs != [] {
      var front := xs[..|xs| - 1];
      assert xs == front + [xs[|xs| - 1]];
      forall x | x in front ensures x <= b { assert x in xs; }
      assert xs[|xs| - 1] in xs;
      CountFull(front, b);
    }
  }

  lemma {:induction false} CountShort(xs: seq<int>, b: int, x: int)
    requires x in xs && b < x
    ensures CountAtMost(xs, b) < |xs|
  {
    var front, last := xs[..|xs| - 1], xs[|xs| - 1];
    assert xs == front + [last];
    CountBound(front, b);
    if last <= b { CountShort(front, b, x); }
  }

  /** A value bounds the one at a rank exactly when it bounds that many of them. */
  lemma RankedAtMost(xs: seq<int>, rank: nat, b: int)
    requires 1 <= rank <= |xs|
    ensures Ranked(xs, rank) <= b <==> CountAtMost(xs, b) >= rank
  {
    hide Filter, StableSort;
    var sorted := StableSort(xs, IntKey);
    SortSorted(xs, IntKey);
    SortMembers(xs, IntKey);
    SortMultiset(xs, IntKey);
    SortedCount(sorted, b, rank);
    FilterPermuted(sorted, xs, AtMost(b));
    assert |Filter(sorted, AtMost(b))| == |multiset(Filter(sorted, AtMost(b)))|;
    assert |Filter(xs, AtMost(b))| == |multiset(Filter(xs, AtMost(b)))|;
  }

  /** The value at a rank is one of the measurements, and does not fall as the rank grows. */
  lemma RankedIsMeasured(xs: seq<int>, rank: nat, other: nat)
    requires 1 <= rank <= other <= |xs|
    ensures Ranked(xs, rank) in xs && Ranked(xs, rank) <= Ranked(xs, other)
  {
    hide StableSort;
    SortSorted(xs, IntKey);
    SortMembers(xs, IntKey);
    assert StableSort(xs, IntKey)[rank - 1] in StableSort(xs, IntKey);
    if rank < other {
      assert Leq(IntKey(StableSort(xs, IntKey)[rank - 1]), IntKey(StableSort(xs, IntKey)[other - 1]));
    }
  }

  // ---------- Ranks of shares ----------

  /** The least whole number at or above a real one. */
  function Ceil(x: real): int { -(-x).Floor }

  /** ceil(share * count): for a share in (0, 1] of at least one measurement, a rank. */
  function RankFor(share: real, count: nat): (rank: nat)
    requires 0.0 < share <= 1.0 && 1 <= count
    ensures 1 <= rank <= count
  {
    var n := count as real;
    assert 0.0 < share * n <= 1.0 * n;
    Ceil(share * n)
  }

  /** It is the least rank that many measurements reach the share with. */
  lemma RankForIs(share: real, count: nat)
    requires 0.0 < share <= 1.0 && 1 <= count
    ensures var rank := RankFor(share, count); (rank - 1) as real < share * count as real <= rank as real
  {
  }

  lemma {:induction false} RankMonotone(share: real, more: real, count: nat)
    requires 0.0 < share <= more <= 1.0 && 1 <= count
    ensures RankFor(share, count) <= RankFor(more, count)
  {
    ProductMonotone(share, more, count as real);
    CeilMonotone(share * count as real, more * count as real);
  }

  lemma ProductMonotone(a: real, b: real, n: real)
    requires a <= b && 0.0 <= n
    ensures a * n <= b * n
  {
  }

  lemma CeilMonotone(a: real, b: real)
    requires a <= b
    ensures Ceil(a) <= Ceil(b)
  {
  }

  /** The measurement at a share. */
  function Exact(xs: seq<int>, share: real): int
    requires xs != [] && 0.0 < share <= 1.0
  {
    Ranked(xs, RankFor(share, |xs|))
  }
}
