/** Bands: six coarse size classes, what gathering into them keeps, and when gathering again changes nothing. */
module ProcessBands {
  import opened Sorting
  import opened ProcessSizes

  const BANDS: seq<int> := [64, 256, 1024, 4096, 32768]

  const COUNT: nat := 6

  function BandEdge(k: nat): Edge { if k < |BANDS| then Bytes(BANDS[k]) else Unbounded }

  predicate Within(e: Edge, n: int) { e.Bytes? && e.n <= n }

  function BandFrom(e: Edge, k: nat): nat
    requires k <= |BANDS|
    decreases |BANDS| - k
  {
    if k == |BANDS| || Within(e, BANDS[k]) then k else BandFrom(e, k + 1)
  }

  method BandOf(e: Edge) returns (k: nat)
    ensures k == BandFrom(e, 0)
  {
    for index := 0 to |BANDS|
      invariant BandFrom(e, 0) == BandFrom(e, index)
    {
      if Within(e, BANDS[index]) { return index; }
    }
    return |BANDS|;
  }

  /** A class falls in the first band whose edge is not below its own. */
  lemma {:induction false} BandIs(e: Edge)
    ensures var k := BandFrom(e, 0);
      && k < COUNT
      && Leq(EdgeKey(e), EdgeKey(BandEdge(k)))
      && (k > 0 ==> Less(EdgeKey(BandEdge(k - 1)), EdgeKey(e)))
  {
    assert BandFrom(e, 0) == if Within(e, 64) then 0 else if Within(e, 256) then 1 else if Within(e, 1024) then 2
      else if Within(e, 4096) then 3 else if Within(e, 32768) then 4 else 5 by { BandUnfolds(e); }
  }

  lemma {:induction false} BandUnfolds(e: Edge)
    ensures BandFrom(e, 0) == if Within(e, 64) then 0 else if Within(e, 256) then 1 else if Within(e, 1024) then 2
      else if Within(e, 4096) then 3 else if Within(e, 32768) then 4 else 5
  {
    assert BandFrom(e, 5) == 5;
    assert BandFrom(e, 4) == if Within(e, 32768) then 4 else 5;
    assert BandFrom(e, 3) == if Within(e, 4096) then 3 else BandFrom(e, 4);
    assert BandFrom(e, 2) == if Within(e, 1024) then 2 else BandFrom(e, 3);
    assert BandFrom(e, 1) == if Within(e, 256) then 1 else BandFrom(e, 2);
  }

  lemma {:induction false} BandEdgesAscend(j: nat, k: nat)
    requires j < k < COUNT
    ensures Less(EdgeKey(BandEdge(j)), EdgeKey(BandEdge(k)))
  {
    if j + 1 < k { BandEdgesAscend(j, k - 1); }
  }

  lemma {:induction false} BandOfBandEdge(k: nat)
    requires k < COUNT
    ensures BandFrom(BandEdge(k), 0) == k
  {
    BandUnfolds(BandEdge(k));
  }

  /** Which band an edge belongs to, by its bytes. */
  predicate FallsIn(e: Edge, k: nat) {
    match k
    case 0 => e.Bytes? && e.n <= 64
    case 1 => e.Bytes? && 64 < e.n <= 256
    case 2 => e.Bytes? && 256 < e.n <= 1024
    case 3 => e.Bytes? && 1024 < e.n <= 4096
    case 4 => e.Bytes? && 4096 < e.n <= 32768
    case 5 => e.Unbounded? || e.n > 32768
    case _ => false
  }

  lemma {:induction false} BandFallsIn(e: Edge, k: nat)
    ensures BandFrom(e, 0) == k <==> FallsIn(e, k)
  {
    BandUnfolds(e);
  }

  // ---------- Gathering ----------

  function BandCount(classes: seq<Class>, k: nat): nat {
    if classes == [] then 0
    else
      var c := classes[|classes| - 1];
      BandCount(classes[..|classes| - 1], k) + if BandFrom(c.atMost, 0) == k then c.count else 0
  }

  /** The non-empty bands among the first `n`. */
  function BandClasses(classes: seq<Class>, n: nat): seq<Class> {
    if n == 0 then []
    else
      var count := BandCount(classes, n - 1);
      BandClasses(classes, n - 1) + if count == 0 then [] else [Class(BandEdge(n - 1), count)]
  }

  function BandsOf(spread: Spread): Spread {
    if spread.classes == [] then NOTHING else Spread(BandClasses(spread.classes, COUNT), spread.total)
  }

  method Bands(spread: Spread) returns (coarse: Spread)
    ensures coarse == BandsOf(spread)
  {
    hide BandFrom;
    if |spread.classes| == 0 { return Spread([], 0); }
    var counts := new nat[COUNT](_ => 0);
    for i := 0 to |spread.classes|
      invariant forall k :: 0 <= k < COUNT ==> counts[k] == BandCount(spread.classes[..i], k)
    {
      var class_ := spread.classes[i];
      assert spread.classes[..i + 1][..i] == spread.classes[..i];
      var band := BandOf(class_.atMost);
      BandIs(class_.atMost);
      counts[band] := counts[band] + class_.count;
    }
    assert spread.classes[..|spread.classes|] == spread.classes;
    var classes: seq<Class> := [];
    for index := 0 to COUNT
      invariant classes == BandClasses(spread.classes, index)
    {
      if counts[index] == 0 { continue; }
      var edge := Unbounded;
      if index < |BANDS| { edge := Bytes(BANDS[index]); }
      classes := classes + [Class(edge, counts[index])];
    }
    coarse := Spread(classes, spread.total);
  }

  // ---------- What the bands hold ----------

  /** How many allocations some classes have between the edges of a band. */
  function SumIn(classes: seq<Class>, k: nat): nat {
    if classes == [] then 0
    else
      var c := classes[|classes| - 1];
      SumIn(classes[..|classes| - 1], k) + if FallsIn(c.atMost, k) then c.count else 0
  }

  lemma {:induction false} BandCountIs(classes: seq<Class>, k: nat)
    ensures BandCount(classes, k) == SumIn(classes, k)
  {
    hide BandFrom, FallsIn;
    if classes != [] {
      BandCountIs(classes[..|classes| - 1], k);
      BandFallsIn(classes[|classes| - 1].atMost, k);
    }
  }

  const EDGES: seq<Edge> := [Bytes(64), Bytes(256), Bytes(1024), Bytes(4096), Bytes(32768), Unbounded]

  /** The bands of a spread are those of the six that hold something, smallest first, each with all that falls in it. */
  lemma BandsHold(spread: Spread)
    ensures forall c :: c in BandsOf(spread).classes <==>
      exists k :: 0 <= k < 6 && c == Class(EDGES[k], SumIn(spread.classes, k)) && c.count > 0
    ensures SmallestFirst(BandsOf(spread).classes)
    ensures BandsOf(spread).total == if spread.classes == [] then 0 else spread.total
  {
    hide BandFrom, BandCount, BandClasses;
    var classes := BandClasses(spread.classes, COUNT);
    BandClassesIs(spread.classes, COUNT);
    NothingIn();
    forall c ensures c in BandsOf(spread).classes <==>
        exists k :: 0 <= k < 6 && c == Class(EDGES[k], SumIn(spread.classes, k)) && c.count > 0 {
      forall k: nat | k < 6 ensures BandCount(spread.classes, k) == SumIn(spread.classes, k) && BandEdge(k) == EDGES[k] {
        BandCountIs(spread.classes, k);
      }
    }
    AscendingIsSmallestFirst(classes);
  }

  lemma NothingIn()
    ensures forall k :: SumIn([], k) == 0
  {
  }

  // ---------- Conservation ----------

  function Gathered(classes: seq<Class>, n: nat): nat {
    if n == 0 then 0 else Gathered(classes, n - 1) + BandCount(classes, n - 1)
  }

  lemma {:induction false} GatheredSnoc(classes: seq<Class>, c: Class, n: nat)
    ensures Gathered(classes + [c], n) == Gathered(classes, n) + if BandFrom(c.atMost, 0) < n then c.count else 0
  {
    hide BandFrom;
    if n > 0 {
      GatheredSnoc(classes, c, n - 1);
      assert (classes + [c])[..|classes|] == classes;
    }
  }

  lemma {:induction false} GatheredAll(classes: seq<Class>)
    ensures Gathered(classes, COUNT) == TotalOf(classes)
  {
    hide Gathered, BandFrom;
    if classes == [] {
      GatheredNothing(COUNT);
    } else {
      var last := |classes| - 1;
      GatheredAll(classes[..last]);
      GatheredSnoc(classes[..last], classes[last], COUNT);
      BandIs(classes[last].atMost);
      assert classes == classes[..last] + [classes[last]];
    }
  }

  lemma {:induction false} GatheredNothing(n: nat)
    ensures Gathered([], n) == 0
  {
    if n > 0 { GatheredNothing(n - 1); }
  }

  lemma {:induction false} BandClassesTotal(classes: seq<Class>, n: nat)
    ensures TotalOf(BandClasses(classes, n)) == Gathered(classes, n)
  {
    if n > 0 {
      BandClassesTotal(classes, n - 1);
      var front, count := BandClasses(classes, n - 1), BandCount(classes, n - 1);
      if count == 0 {
        assert front + [] == front;
      } else {
        TotalOfSnoc(front, Class(BandEdge(n - 1), count));
      }
    }
  }

  /** Gathering loses no allocation. */
  lemma BandsConserve(spread: Spread)
    ensures TotalOf(BandsOf(spread).classes) == TotalOf(spread.classes)
    ensures spread.classes != [] ==> BandsOf(spread).total == spread.total
    ensures spread.total == TotalOf(spread.classes) ==> BandsOf(spread).total == TotalOf(BandsOf(spread).classes)
  {
    hide BandClasses, Gathered;
    BandClassesTotal(spread.classes, COUNT);
    GatheredAll(spread.classes);
  }

  // ---------- Gathering what is gathered ----------

  lemma {:induction false} BandClassesIs(classes: seq<Class>, n: nat)
    requires n <= COUNT
    ensures Ascending(BandClasses(classes, n), ClassKey)
    ensures forall c :: c in BandClasses(classes, n) <==>
      exists k :: 0 <= k < n && c == Class(BandEdge(k), BandCount(classes, k)) && c.count > 0
  {
    hide BandCount, BandEdge;
    if n > 0 {
      BandClassesIs(classes, n - 1);
      var front := BandClasses(classes, n - 1);
      forall j | 0 <= j < |front| ensures Less(ClassKey(front[j]), EdgeKey(BandEdge(n - 1))) {
        assert front[j] in front;
        var k :| 0 <= k < n - 1 && front[j] == Class(BandEdge(k), BandCount(classes, k));
        BandEdgesAscend(k, n - 1);
      }
    }
  }

  lemma {:induction false} BandCountSnoc(classes: seq<Class>, c: Class, k: nat)
    ensures BandCount(classes + [c], k) == BandCount(classes, k) + if BandFrom(c.atMost, 0) == k then c.count else 0
  {
    assert (classes + [c])[..|classes|] == classes;
  }

  lemma NoBandCount(k: nat)
    ensures BandCount([], k) == 0
  {
  }

  lemma {:induction false} BandsOfBands(classes: seq<Class>, n: nat, k: nat)
    requires n <= COUNT
    ensures BandCount(BandClasses(classes, n), k) == if k < n then BandCount(classes, k) else 0
  {
    hide BandFrom, BandEdge, BandCount;
    if n == 0 {
      NoBandCount(k);
    } else {
      BandsOfBands(classes, n - 1, k);
      var front, count := BandClasses(classes, n - 1), BandCount(classes, n - 1);
      if count == 0 {
        assert front + [] == front;
      } else {
        BandCountSnoc(front, Class(BandEdge(n - 1), count), k);
        BandOfBandEdge(n - 1);
      }
    }
  }

  lemma {:induction false} SameBands(a: seq<Class>, b: seq<Class>, n: nat)
    requires forall k :: 0 <= k < n ==> BandCount(a, k) == BandCount(b, k)
    ensures BandClasses(a, n) == BandClasses(b, n)
  {
    if n > 0 { SameBands(a, b, n - 1); }
  }

  /** Gathering twice is gathering once, unless a spread claims a total no class of it holds. */
  lemma BandsIdempotentIff(spread: Spread)
    ensures BandsOf(BandsOf(spread)) == BandsOf(spread) <==>
      spread.classes == [] || TotalOf(spread.classes) > 0 || spread.total == 0
  {
    hide BandClasses, TotalOf, BandCount;
    var once := BandClasses(spread.classes, COUNT);
    forall k: nat | k < COUNT ensures BandCount(once, k) == BandCount(spread.classes, k) {
      BandsOfBands(spread.classes, COUNT, k);
    }
    SameBands(once, spread.classes, COUNT);
    BandsConserve(spread);
    EmptyIffNoTotal(spread.classes);
    TotalOfNothing();
  }

  lemma EmptyIffNoTotal(classes: seq<Class>)
    ensures BandClasses(classes, COUNT) == [] <==> TotalOf(classes) == 0
  {
    hide BandClasses, TotalOf;
    BandClassesTotal(classes, COUNT);
    GatheredAll(classes);
    TotalOfNothing();
    BandClassesIs(classes, COUNT);
    var bands := BandClasses(classes, COUNT);
    if bands != [] {
      assert bands[0] in bands;
      PositiveTotal(bands);
    }
  }

  lemma {:induction false} PositiveTotal(classes: seq<Class>)
    requires classes != [] && forall c :: c in classes ==> c.count > 0
    ensures TotalOf(classes) > 0
  {
    assert classes[|classes| - 1] in classes;
  }
}
