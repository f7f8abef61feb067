/** Consecutive windows add up to the whole window. */
module SizeAccounts {
  import opened Sequences
  import opened Sorting
  import opened ProcessSizes

  // ---------- A difference, bucket by bucket ----------

  /**
   The classes of a difference are the buckets whose counter grew, in order: by how much it grew, under the edge the
   bucket ends at, the last bucket's being unbounded. Readings of different lengths have none.
   */
  lemma DifferenceIs(before: Sizes, after: Sizes) returns (at: seq<nat>)
    ensures |before.counts| != |after.counts| ==> Difference(before, after) == Spread([], 0)
    ensures |before.counts| == |after.counts| ==>
      var classes := Difference(before, after).classes;
      && Rising(at) && |at| == |classes|
      && (forall k :: 0 <= k < |at| ==>
            var p := at[k];
            && p < |after.counts| && before.counts[p] + classes[k].count == after.counts[p]
            && classes[k].atMost == if p + 1 < |after.boundaries| then after.boundaries[p + 1] else Unbounded)
      && (forall p :: 0 <= p < |after.counts| ==> (p in at <==> before.counts[p] < after.counts[p]))
  {
    at := [];
    if |before.counts| == |after.counts| { at := GrowthAt(before, after, |after.counts|); }
  }

  lemma {:induction false} GrowthAt(before: Sizes, after: Sizes, n: nat) returns (at: seq<nat>)
    requires n <= |before.counts| == |after.counts|
    ensures var classes := Growth(before, after, n);
      && Rising(at) && |at| == |classes|
      && (forall k :: 0 <= k < |at| ==>
            var p := at[k];
            && p < n && before.counts[p] + classes[k].count == after.counts[p]
            && classes[k].atMost == if p + 1 < |after.boundaries| then after.boundaries[p + 1] else Unbounded)
      && (forall p :: 0 <= p < n ==> (p in at <==> before.counts[p] < after.counts[p]))
  {
    if n == 0 {
      at := [];
    } else {
      at := GrowthAt(before, after, n - 1);
      if before.counts[n - 1] < after.counts[n - 1] { at := at + [n - 1]; }
    }
  }

  // ---------- What an account of sizes holds ----------

  /** How many allocations some classes have under one edge. */
  function HeldUnder(classes: seq<Class>, e: Edge): nat {
    if classes == [] then 0
    else
      var c := classes[|classes| - 1];
      HeldUnder(classes[..|classes| - 1], e) + if c.atMost == e then c.count else 0
  }

  /** Accumulating adds to each edge what the classes have under it, and makes edges for no others. */
  lemma {:induction false} AccumulatedIs(sizes: map<Edge, nat>, classes: seq<Class>, e: Edge)
    ensures Amount(Accumulated(sizes, classes), e) == Amount(sizes, e) + HeldUnder(classes, e)
    ensures e in Accumulated(sizes, classes) <==> e in sizes || exists c :: c in classes && c.atMost == e
  {
    if classes != [] {
      var front, c := classes[..|classes| - 1], classes[|classes| - 1];
      assert classes == front + [c];
      AccumulatedIs(sizes, front, e);
      assert c in classes;
    }
  }

  /** The classes of an account stand smallest first; each holds its edge's amount, and every edge has one. */
  lemma {:induction false} ReadsInOrder(classes: seq<Class>, sizes: map<Edge, nat>)
    requires Reads(classes, sizes)
    ensures SmallestFirst(classes)
    ensures forall c :: c in classes <==> c.atMost in sizes && sizes[c.atMost] == c.count
  {
    AscendingIsSmallestFirst(classes);
  }

  // ---------- Windows ----------

  /** The upper edges of a histogram's buckets strictly ascend. */
  ghost predicate EdgesAscend(bounds: seq<Edge>, n: nat) {
    forall i, j :: 0 <= i < j < n ==> Less(EdgeKey(BoundOf(bounds, i)), EdgeKey(BoundOf(bounds, j)))
  }

  ghost predicate NeverFalls(before: Sizes, after: Sizes) {
    |before.counts| == |after.counts| && forall i :: 0 <= i < |after.counts| ==> before.counts[i] <= after.counts[i]
  }

  /** Readings of one process: the same edges throughout, and counters that never fall. */
  ghost predicate Readings(rs: seq<Sizes>, bounds: seq<Edge>, n: nat) {
    && EdgesAscend(bounds, n)
    && (forall k :: 0 <= k < |rs| ==> rs[k].boundaries == bounds && |rs[k].counts| == n)
    && (forall j, k :: 0 <= j <= k < |rs| ==> NeverFalls(rs[j], rs[k]))
  }

  /** The account after recording the difference of every consecutive pair of readings. */
  function Windows(rs: seq<Sizes>): map<Edge, nat> {
    if |rs| <= 1 then map[]
    else
      var last := |rs| - 1;
      Recorded(Windows(rs[..last]), Difference(rs[last - 1], rs[last]))
  }

  /** The account holds, under each edge, what its counter grew by from one reading to another. */
  ghost predicate HoldsGrowth(sizes: map<Edge, nat>, from: Sizes, to: Sizes, n: nat)
    requires |from.counts| == |to.counts| == n
  {
    && (forall i :: 0 <= i < n ==> Amount(sizes, BoundOf(to.boundaries, i)) == Delta(from.counts[i], to.counts[i]))
    && (forall e :: e in sizes ==> sizes[e] > 0 && exists i :: 0 <= i < n && BoundOf(to.boundaries, i) == e)
  }

  /** Accumulating the first `k` classes of a difference raises just their edges. */
  lemma {:induction false} AccumulatedGrowth(sizes: map<Edge, nat>, before: Sizes, after: Sizes, k: nat)
    requires |before.counts| == |after.counts| && k <= |after.counts| && EdgesAscend(after.boundaries, |after.counts|)
    ensures forall i :: 0 <= i < |after.counts| ==>
      Amount(Accumulated(sizes, Growth(before, after, k)), BoundOf(after.boundaries, i))
        == Amount(sizes, BoundOf(after.boundaries, i)) + if i < k then Delta(before.counts[i], after.counts[i]) else 0
    ensures forall e :: e in Accumulated(sizes, Growth(before, after, k)) ==>
      e in sizes || exists i :: 0 <= i < k && BoundOf(after.boundaries, i) == e && before.counts[i] < after.counts[i]
    ensures forall e :: e in sizes ==>
      e in Accumulated(sizes, Growth(before, after, k)) && sizes[e] <= Accumulated(sizes, Growth(before, after, k))[e]
    ensures forall e :: e in Accumulated(sizes, Growth(before, after, k)) && e !in sizes ==>
      Accumulated(sizes, Growth(before, after, k))[e] > 0
  {
    if k > 0 {
      AccumulatedGrowth(sizes, before, after, k - 1);
      var count := Delta(before.counts[k - 1], after.counts[k - 1]);
      var front := Growth(before, after, k - 1);
      if count > 0 {
        var c := Class(BoundOf(after.boundaries, k - 1), count);
        assert (front + [c])[..|front|] == front;
        EdgesDiffer(after.boundaries, |after.counts|, k - 1);
      } else {
        assert front + [] == front;
      }
    }
  }

  lemma {:induction false} EdgesDiffer(bounds: seq<Edge>, n: nat, k: nat)
    requires EdgesAscend(bounds, n) && k < n
    ensures forall i :: 0 <= i < n && i != k ==> BoundOf(bounds, i) != BoundOf(bounds, k)
  {
    forall i | 0 <= i < n && i != k ensures BoundOf(bounds, i) != BoundOf(bounds, k) {
      if i < k {
        assert Less(EdgeKey(BoundOf(bounds, i)), EdgeKey(BoundOf(bounds, k)));
      } else {
        assert Less(EdgeKey(BoundOf(bounds, k)), EdgeKey(BoundOf(bounds, i)));
      }
    }
  }

  lemma {:induction false} GrowthTotalZero(before: Sizes, after: Sizes, k: nat)
    requires k <= |before.counts| == |after.counts|
    ensures TotalOf(Growth(before, after, k)) == 0 ==> Growth(before, after, k) == []
  {
    if k > 0 {
      GrowthTotalZero(before, after, k - 1);
      var count := Delta(before.counts[k - 1], after.counts[k - 1]);
      var front := Growth(before, after, k - 1);
      if count > 0 {
        TotalOfSnoc(front, Class(BoundOf(after.boundaries, k - 1), count));
      } else {
        assert front + [] == front;
      }
    }
  }

  lemma {:induction false} WindowsHold(rs: seq<Sizes>, bounds: seq<Edge>, n: nat)
    requires 0 < |rs| && Readings(rs, bounds, n)
    ensures HoldsGrowth(Windows(rs), rs[0], rs[|rs| - 1], n)
  {
    hide EdgesAscend, NeverFalls, Recorded, Difference;
    var last := |rs| - 1;
    if last > 0 {
      hide HoldsGrowth;
      WindowsHold(rs[..last], bounds, n);
      assert NeverFalls(rs[0], rs[last - 1]) && NeverFalls(rs[last - 1], rs[last]);
      WindowAdds(Windows(rs[..last]), rs[0], rs[last - 1], rs[last], n);
    }
  }

  lemma WindowAdds(sizes: map<Edge, nat>, first: Sizes, before: Sizes, after: Sizes, n: nat)
    requires |first.counts| == |before.counts| == |after.counts| == n
    requires before.boundaries == after.boundaries && EdgesAscend(after.boundaries, n)
    requires HoldsGrowth(sizes, first, before, n)
    requires NeverFalls(first, before) && NeverFalls(before, after)
    ensures HoldsGrowth(Recorded(sizes, Difference(before, after)), first, after, n)
  {
    hide Accumulated, Growth, TotalOf;
    AccumulatedGrowth(sizes, before, after, n);
    GrowthTotalZero(before, after, n);
    AccumulatedNothing(sizes);
  }

  lemma AccumulatedNothing(sizes: map<Edge, nat>)
    ensures Accumulated(sizes, []) == sizes
  {
  }

  /** The classes of a difference are in edge order, one for each edge whose counter grew. */
  lemma {:induction false} GrowthIs(before: Sizes, after: Sizes, k: nat)
    requires k <= |before.counts| == |after.counts| && EdgesAscend(after.boundaries, |after.counts|)
    ensures Ascending(Growth(before, after, k), ClassKey)
    ensures forall c :: c in Growth(before, after, k) <==>
      exists i :: 0 <= i < k && c == Class(BoundOf(after.boundaries, i), Delta(before.counts[i], after.counts[i]))
                  && c.count > 0
  {
    if k > 0 {
      GrowthIs(before, after, k - 1);
      var front := Growth(before, after, k - 1);
      forall j | 0 <= j < |front|
        ensures Less(ClassKey(front[j]), EdgeKey(BoundOf(after.boundaries, k - 1)))
      {
        assert front[j] in front;
      }
    }
  }

  lemma GrowthReads(sizes: map<Edge, nat>, first: Sizes, last: Sizes, n: nat)
    requires |first.counts| == |last.counts| == n && EdgesAscend(last.boundaries, n) && HoldsGrowth(sizes, first, last, n)
    ensures Reads(Growth(first, last, n), sizes)
  {
    hide Growth;
    GrowthIs(first, last, n);
    forall c ensures c in Growth(first, last, n) <==> c.atMost in sizes && sizes[c.atMost] == c.count {
      if c.atMost in sizes && sizes[c.atMost] == c.count {
        var i :| 0 <= i < n && BoundOf(last.boundaries, i) == c.atMost;
        assert Amount(sizes, BoundOf(last.boundaries, i)) == Delta(first.counts[i], last.counts[i]);
        assert c == Class(BoundOf(last.boundaries, i), Delta(first.counts[i], last.counts[i]));
      }
    }
  }

  /**
   Recording the difference of every consecutive pair of readings leaves an account that reads as the
   difference of the first and the last.
   */
  lemma {:induction false} WindowsTelescope(rs: seq<Sizes>, bounds: seq<Edge>, n: nat, spread: Spread)
    requires 0 < |rs| && Readings(rs, bounds, n)
    requires Reads(spread.classes, Windows(rs)) && spread.total == TotalOf(spread.classes)
    ensures spread == Difference(rs[0], rs[|rs| - 1])
  {
    hide Growth, Windows;
    WindowsHold(rs, bounds, n);
    GrowthReads(Windows(rs), rs[0], rs[|rs| - 1], n);
    ReadsOnce(spread.classes, Growth(rs[0], rs[|rs| - 1], n), Windows(rs));
  }
}
