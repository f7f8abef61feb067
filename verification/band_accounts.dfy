/** Gathering into bands and accumulating over runs may be done in either order. */
module BandAccounts {
  import opened Sorting
  import opened MapSums
  import opened ProcessSizes
  import opened ProcessBands
  import opened ProcessCosts

  ghost function InBand(sizes: map<Edge, nat>, k: nat): set<Edge> { set e | e in sizes && BandFrom(e, 0) == k }

  lemma {:induction false} AddedBand(sizes: map<Edge, nat>, c: Class, k: nat)
    ensures var after := sizes[c.atMost := Amount(sizes, c.atMost) + c.count];
      SumOf(after, InBand(after, k)) == SumOf(sizes, InBand(sizes, k)) + if BandFrom(c.atMost, 0) == k then c.count else 0
  {
    hide BandFrom, SumOf;
    var after := sizes[c.atMost := Amount(sizes, c.atMost) + c.count];
    if BandFrom(c.atMost, 0) == k {
      assert InBand(after, k) == InBand(sizes, k) + {c.atMost};
      SumOfAdd(sizes, c.atMost, c.count, InBand(sizes, k), InBand(after, k));
    } else {
      assert InBand(after, k) == InBand(sizes, k);
      SumOfAgree(after, sizes, InBand(sizes, k));
    }
  }

  /** Accumulating classes adds their band counts to the account's. */
  lemma {:induction false} AccumulatedBand(sizes: map<Edge, nat>, classes: seq<Class>, k: nat)
    ensures var after := Accumulated(sizes, classes);
      SumOf(after, InBand(after, k)) == SumOf(sizes, InBand(sizes, k)) + BandCount(classes, k)
  {
    hide BandFrom, SumOf, InBand;
    if classes != [] {
      var last := |classes| - 1;
      AccumulatedBand(sizes, classes[..last], k);
      AddedBand(Accumulated(sizes, classes[..last]), classes[last], k);
    }
  }

  ghost function EdgesIn(classes: seq<Class>, k: nat): set<Edge> {
    set c | c in classes && BandFrom(c.atMost, 0) == k :: c.atMost
  }

  lemma {:induction false} EdgesInSnoc(classes: seq<Class>, c: Class, k: nat)
    ensures EdgesIn(classes + [c], k) == EdgesIn(classes, k) + if BandFrom(c.atMost, 0) == k then {c.atMost} else {}
  {
    hide BandFrom;
    var all, rest := EdgesIn(classes + [c], k), EdgesIn(classes, k);
    forall e | e in rest ensures e in all {
      var d :| d in classes && BandFrom(d.atMost, 0) == k && d.atMost == e;
      assert d in classes + [c];
    }
    assert c in classes + [c];
  }

  lemma LastEdgeFresh(classes: seq<Class>, c: Class, k: nat)
    requires Ascending(classes + [c], ClassKey)
    ensures c.atMost !in EdgesIn(classes, k)
  {
    hide BandFrom;
    forall d | d in classes ensures d.atMost != c.atMost {
      var i :| 0 <= i < |classes| && classes[i] == d;
      assert Less(ClassKey((classes + [c])[i]), ClassKey((classes + [c])[|classes|]));
    }
  }

  /** The classes agree with the account. */
  ghost predicate Agrees(classes: seq<Class>, sizes: map<Edge, nat>) {
    forall c :: c in classes ==> c.atMost in sizes && sizes[c.atMost] == c.count
  }

  lemma {:induction false} AgreesSnoc(classes: seq<Class>, c: Class, sizes: map<Edge, nat>, k: nat)
    requires Agrees(classes + [c], sizes)
    ensures Agrees(classes, sizes) && c.atMost in sizes && sizes[c.atMost] == c.count
    ensures EdgesIn(classes, k) <= sizes.Keys && EdgesIn(classes + [c], k) <= sizes.Keys
  {
    hide BandFrom;
    assert c in classes + [c];
    forall d | d in classes ensures d in classes + [c] {}
  }

  lemma {:induction false} ListedBand(classes: seq<Class>, sizes: map<Edge, nat>, k: nat)
    requires Ascending(classes, ClassKey) && Agrees(classes, sizes)
    ensures EdgesIn(classes, k) <= sizes.Keys
    ensures BandCount(classes, k) == SumOf(sizes, EdgesIn(classes, k))
  {
    hide BandFrom, Agrees;
    if classes == [] {
      assert EdgesIn(classes, k) == {};
    } else {
      hide EdgesIn, SumOf;
      var front, c := classes[..|classes| - 1], classes[|classes| - 1];
      assert classes == front + [c];
      AgreesSnoc(front, c, sizes, k);
      EdgesInSnoc(front, c, k);
      LastEdgeFresh(front, c, k);
      ListedBand(front, sizes, k);
      if BandFrom(c.atMost, 0) == k {
        SumOfRemove(sizes, EdgesIn(classes, k), c.atMost);
        assert EdgesIn(classes, k) - {c.atMost} == EdgesIn(front, k);
      } else {
        assert EdgesIn(classes, k) == EdgesIn(front, k);
      }
    }
  }

  lemma ReadBand(classes: seq<Class>, sizes: map<Edge, nat>, k: nat)
    requires Reads(classes, sizes)
    ensures BandCount(classes, k) == SumOf(sizes, InBand(sizes, k))
  {
    hide BandFrom, BandCount;
    ListedBand(classes, sizes, k);
    forall e | e in sizes ensures Class(e, sizes[e]) in classes {}
    assert EdgesIn(classes, k) == InBand(sizes, k);
  }

  /** An account's band holds what each recorded spread had in it; one without a total was not recorded. */
  function BandSum(entries: seq<Entry>, k: nat): nat {
    if entries == [] then 0
    else
      var spread := entries[|entries| - 1].spread;
      BandSum(entries[..|entries| - 1], k) + if spread.total == 0 then 0 else BandCount(spread.classes, k)
  }

  lemma {:induction false} RecordedBand(entries: seq<Entry>, k: nat)
    ensures SumOf(SizesOf(entries), InBand(SizesOf(entries), k)) == BandSum(entries, k)
  {
    hide BandFrom, Accumulated, BandCount;
    if entries == [] {
      assert InBand(SizesOf([]), k) == {};
    } else {
      var last := |entries| - 1;
      RecordedBand(entries[..last], k);
      AccumulatedBand(SizesOf(entries[..last]), entries[last].spread.classes, k);
    }
  }

  /** Every edge is a band's edge, and is there because something was added to it. */
  ghost predicate Banded(sizes: map<Edge, nat>) {
    forall e :: e in sizes ==> sizes[e] > 0 && BandEdge(BandFrom(e, 0)) == e
  }

  lemma {:induction false} AccumulatedBanded(sizes: map<Edge, nat>, classes: seq<Class>, n: nat)
    requires Banded(sizes) && n <= COUNT
    ensures Banded(Accumulated(sizes, BandClasses(classes, n)))
  {
    hide BandFrom, BandEdge, BandCount;
    if n > 0 {
      AccumulatedBanded(sizes, classes, n - 1);
      var front, count := BandClasses(classes, n - 1), BandCount(classes, n - 1);
      if count == 0 {
        assert front + [] == front;
      } else {
        var c := Class(BandEdge(n - 1), count);
        assert (front + [c])[..|front|] == front;
        BandOfBandEdge(n - 1);
      }
    }
  }

  /** In a banded account each band has at most its own edge. */
  lemma BandedSum(sizes: map<Edge, nat>, k: nat)
    requires Banded(sizes) && k < COUNT
    ensures SumOf(sizes, InBand(sizes, k)) == Amount(sizes, BandEdge(k))
  {
    hide BandFrom, BandEdge;
    BandOfBandEdge(k);
    if BandEdge(k) in sizes {
      assert InBand(sizes, k) == {BandEdge(k)};
      SumOfRemove(sizes, InBand(sizes, k), BandEdge(k));
      assert InBand(sizes, k) - {BandEdge(k)} == {};
    } else {
      assert InBand(sizes, k) == {};
    }
  }

  function GatheredEntry(e: Entry): Entry { e.(spread := BandsOf(e.spread)) }

  /** The same entries, each with its spread gathered first. */
  function GatheredEntries(entries: seq<Entry>): seq<Entry> {
    if entries == [] then []
    else GatheredEntries(entries[..|entries| - 1]) + [GatheredEntry(entries[|entries| - 1])]
  }

  lemma {:induction false} GatheredBandSum(entries: seq<Entry>, k: nat)
    requires k < COUNT
    ensures BandSum(GatheredEntries(entries), k) == BandSum(entries, k)
  {
    hide BandFrom, BandCount, BandClasses;
    if entries != [] {
      var last := |entries| - 1;
      var spread := entries[last].spread;
      GatheredBandSum(entries[..last], k);
      var front := GatheredEntries(entries[..last]);
      assert GatheredEntries(entries)[..|front|] == front;
      BandsOfBands(spread.classes, COUNT, k);
      NoBandCount(k);
    }
  }

  lemma {:induction false} GatheredBanded(entries: seq<Entry>)
    ensures Banded(SizesOf(GatheredEntries(entries)))
  {
    hide BandFrom, BandEdge, BandClasses, BandCount;
    if entries != [] {
      hide Banded;
      var last := |entries| - 1;
      var front := GatheredEntries(entries[..last]);
      GatheredBanded(entries[..last]);
      assert GatheredEntries(entries)[..|front|] == front;
      AccumulatedBanded(SizesOf(front), entries[last].spread.classes, COUNT);
    }
  }

  lemma BandClassesRead(classes: seq<Class>, sizes: map<Edge, nat>)
    requires Banded(sizes) && forall k :: 0 <= k < COUNT ==> Amount(sizes, BandEdge(k)) == BandCount(classes, k)
    ensures Reads(BandClasses(classes, COUNT), sizes)
  {
    hide BandFrom, BandEdge, BandCount, BandClasses;
    BandClassesIs(classes, COUNT);
    forall c ensures c in BandClasses(classes, COUNT) <==> c.atMost in sizes && sizes[c.atMost] == c.count {
      if c.atMost in sizes && sizes[c.atMost] == c.count {
        var k := BandFrom(c.atMost, 0);
        BandIs(c.atMost);
        assert BandEdge(k) == c.atMost;
        assert Amount(sizes, BandEdge(k)) == BandCount(classes, k);
        assert c == Class(BandEdge(k), BandCount(classes, k));
      }
    }
  }

  /**
   However many spreads an account records, gathering what it reads as gives what it would read as had every
   spread been gathered before it was recorded.
   */
  lemma BandsCommute(entries: seq<Entry>, fine: Spread, coarse: Spread)
    requires Reads(fine.classes, SizesOf(entries)) && fine.total == TotalOf(fine.classes)
    requires Reads(coarse.classes, SizesOf(GatheredEntries(entries))) && coarse.total == TotalOf(coarse.classes)
    ensures BandsOf(fine) == coarse
  {
    hide BandFrom, BandEdge, BandCount, BandClasses, SizesOf, Reads, TotalOf;
    var gathered := GatheredEntries(entries);
    GatheredBanded(entries);
    forall k: nat | k < COUNT ensures Amount(SizesOf(gathered), BandEdge(k)) == BandCount(fine.classes, k) {
      ReadBand(fine.classes, SizesOf(entries), k);
      RecordedBand(entries, k);
      GatheredBandSum(entries, k);
      RecordedBand(gathered, k);
      BandedSum(SizesOf(gathered), k);
    }
    BandClassesRead(fine.classes, SizesOf(gathered));
    ReadsOnce(BandClasses(fine.classes, COUNT), coarse.classes, SizesOf(gathered));
    BandsConserve(fine);
    NoClasses();
  }

  lemma {:induction false} NoClasses()
    ensures BandClasses([], COUNT) == [] && TotalOf([]) == 0
  {
    TotalOfNothing();
    EmptyIffNoTotal([]);
  }
}
