/** What sizes the allocations of a window were, and how windows and bands add up. */
module ProcessSizes {
  import opened Sorting

  /** The upper edge of a size class; the last class of a histogram has none. */
  datatype Edge = Bytes(n: int) | Unbounded

  datatype Sizes = Sizes(boundaries: seq<Edge>, counts: seq<nat>)

  datatype Class = Class(atMost: Edge, count: nat)

  datatype Spread = Spread(classes: seq<Class>, total: nat)

  const NOTHING := Spread([], 0)

  function EdgeKey(e: Edge): Key { match e case Bytes(n) => Key(0, n) case Unbounded => Key(1, 0) }

  function ClassKey(c: Class): Key { EdgeKey(c.atMost) }

  lemma EdgeKeyInjective(a: Edge, b: Edge)
    ensures EdgeKey(a) == EdgeKey(b) ==> a == b
  {
  }

  /** A smaller edge: fewer bytes, or bytes at all where the other has no bound. */
  predicate Below(a: Edge, b: Edge) { a.Bytes? && (b.Bytes? ==> a.n < b.n) }

  ghost predicate SmallestFirst(classes: seq<Class>) {
    forall i, j :: 0 <= i < j < |classes| ==> Below(classes[i].atMost, classes[j].atMost)
  }

  lemma {:induction false} AscendingIsSmallestFirst(classes: seq<Class>)
    requires Ascending(classes, ClassKey)
    ensures SmallestFirst(classes)
  {
    forall i, j | 0 <= i < j < |classes| ensures Below(classes[i].atMost, classes[j].atMost) {
      assert Less(ClassKey(classes[i]), ClassKey(classes[j]));
    }
  }

  /** A counter's growth, with a floor at zero. */
  function Delta(before: nat, after: nat): nat { if after < before then 0 else after - before }

  function BoundOf(bounds: seq<Edge>, index: nat): Edge {
    if index + 1 < |bounds| then bounds[index + 1] else Unbounded
  }

  function TotalOf(classes: seq<Class>): nat {
    if classes == [] then 0 else TotalOf(classes[..|classes| - 1]) + classes[|classes| - 1].count
  }

  // ---------- The difference of two readings ----------

  /** The non-empty classes among the first `k`. */
  function Growth(before: Sizes, after: Sizes, k: nat): seq<Class>
    requires k <= |before.counts| == |after.counts|
  {
    if k == 0 then []
    else
      var count := Delta(before.counts[k - 1], after.counts[k - 1]);
      Growth(before, after, k - 1)
      + if count == 0 then [] else [Class(BoundOf(after.boundaries, k - 1), count)]
  }

  function Difference(before: Sizes, after: Sizes): Spread {
    if |before.counts| != |after.counts| then NOTHING
    else
      var classes := Growth(before, after, |after.counts|);
      Spread(classes, TotalOf(classes))
  }

  method DiffSizes(before: Sizes, after: Sizes) returns (spread: Spread)
    ensures spread == Difference(before, after)
  {
    if |before.counts| != |after.counts| || |after.counts| == 0 { return Spread([], 0); }
    var classes: seq<Class>, total: nat := [], 0;
    for index := 0 to |after.counts|
      invariant classes == Growth(before, after, index) && total == TotalOf(classes)
    {
      var count := Delta(before.counts[index], after.counts[index]);
      if count == 0 { continue; }
      total := total + count;
      var class_ := Class(BoundOf(after.boundaries, index), count);
      assert (classes + [class_])[..|classes|] == classes;
      classes := classes + [class_];
    }
    spread := Spread(classes, total);
  }

  /** Class `i` holds the most, and more than any before it. */
  ghost predicate IsLargest(classes: seq<Class>, i: int) {
    && 0 <= i < |classes|
    && (forall j :: 0 <= j < i ==> classes[j].count < classes[i].count)
    && (forall j :: i <= j < |classes| ==> classes[j].count <= classes[i].count)
  }

  /** The first of the classes that hold the most, if there is one. */
  method Largest(spread: Spread) returns (largest: Class, found: bool)
    ensures found <==> spread.classes != []
    ensures found ==> exists i :: IsLargest(spread.classes, i) && largest == spread.classes[i]
  {
    if |spread.classes| == 0 { return Class(Bytes(0), 0), false; }
    largest := spread.classes[0];
    ghost var at := 0;
    for k := 1 to |spread.classes|
      invariant 0 <= at < k && largest == spread.classes[at]
      invariant forall j :: 0 <= j < at ==> spread.classes[j].count < largest.count
      invariant forall j :: at <= j < k ==> spread.classes[j].count <= largest.count
    {
      if spread.classes[k].count > largest.count {
        largest := spread.classes[k];
        at := k;
      }
    }
    assert IsLargest(spread.classes, at);
    found := true;
  }

  // ---------- An account of sizes ----------

  function Amount(sizes: map<Edge, nat>, e: Edge): nat { if e in sizes then sizes[e] else 0 }

  /** Each class added to its edge. */
  function Accumulated(sizes: map<Edge, nat>, classes: seq<Class>): map<Edge, nat> {
    if classes == [] then sizes
    else
      var front, c := Accumulated(sizes, classes[..|classes| - 1]), classes[|classes| - 1];
      front[c.atMost := Amount(front, c.atMost) + c.count]
  }

  /** An account that keeps sizes takes a spread; one that saw nothing is not recorded. */
  function Recorded(sizes: map<Edge, nat>, spread: Spread): map<Edge, nat> {
    if spread.total == 0 then sizes else Accumulated(sizes, spread.classes)
  }

  /** The classes of an account, in edge order. */
  ghost predicate Reads(classes: seq<Class>, sizes: map<Edge, nat>) {
    && Ascending(classes, ClassKey)
    && forall c :: c in classes <==> c.atMost in sizes && sizes[c.atMost] == c.count
  }

  method SpreadOf(sizes: map<Edge, nat>) returns (spread: Spread)
    ensures Reads(spread.classes, sizes) && spread.total == TotalOf(spread.classes)
  {
    hide StableSort, TotalOf;
    TotalOfNothing();
    if |sizes| == 0 {
      assert Reads([], sizes) by { NoEdges(sizes); }
      return Spread([], 0);
    }
    var classes: seq<Class>, total: nat := [], 0;
    var rest := sizes.Keys;
    while rest != {}
      invariant rest <= sizes.Keys
      invariant KeysDistinct(classes, ClassKey)
      invariant forall c :: c in classes <==> c.atMost in sizes && c.atMost !in rest && sizes[c.atMost] == c.count
      invariant total == TotalOf(classes)
    {
      var bound :| bound in rest;
      var next := Class(bound, sizes[bound]);
      FreshKey(classes, sizes, rest, bound);
      TotalOfSnoc(classes, next);
      total := total + sizes[bound];
      classes := classes + [next];
      rest := rest - {bound};
    }
    SortAscending(classes, ClassKey);
    SortMembers(classes, ClassKey);
    TotalOfSorted(classes);
    spread := Spread(StableSort(classes, ClassKey), total);
  }

  lemma {:induction false} NoEdges(sizes: map<Edge, nat>)
    requires |sizes| == 0
    ensures Reads([], sizes)
  {
    assert |sizes.Keys| == 0;
  }

  lemma {:induction false} FreshKey(classes: seq<Class>, sizes: map<Edge, nat>, rest: set<Edge>, bound: Edge)
    requires bound in rest
    requires forall c :: c in classes ==> c.atMost in sizes && c.atMost !in rest
    ensures forall i :: 0 <= i < |classes| ==> ClassKey(classes[i]) != EdgeKey(bound)
  {
    forall i | 0 <= i < |classes| ensures ClassKey(classes[i]) != EdgeKey(bound) {
      assert classes[i] in classes;
      EdgeKeyInjective(classes[i].atMost, bound);
    }
  }

  lemma TotalOfNothing()
    ensures TotalOf([]) == 0
  {
  }

  lemma {:induction false} TotalOfSnoc(classes: seq<Class>, c: Class)
    ensures TotalOf(classes + [c]) == TotalOf(classes) + c.count
  {
    assert (classes + [c])[..|classes|] == classes;
  }

  lemma {:induction false} TotalOfConcat(a: seq<Class>, b: seq<Class>)
    ensures TotalOf(a + b) == TotalOf(a) + TotalOf(b)
  {
    if b == [] {
      assert a + b == a;
    } else {
      var last := |b| - 1;
      assert a + b == (a + b[..last]) + [b[last]];
      TotalOfSnoc(a + b[..last], b[last]);
      TotalOfConcat(a, b[..last]);
    }
  }

  lemma {:induction false} InsertTotal(c: Class, classes: seq<Class>)
    ensures TotalOf(Insert(c, classes, ClassKey)) == c.count + TotalOf(classes)
  {
    TotalOfConcat([c], classes);
    assert [c][..0] == [];
    if classes != [] && !Leq(ClassKey(c), ClassKey(classes[0])) {
      InsertTotal(c, classes[1..]);
      TotalOfConcat([classes[0]], Insert(c, classes[1..], ClassKey));
      TotalOfConcat([classes[0]], classes[1..]);
      assert [classes[0]] + classes[1..] == classes;
    }
  }

  lemma {:induction false} TotalOfSorted(classes: seq<Class>)
    ensures TotalOf(StableSort(classes, ClassKey)) == TotalOf(classes)
  {
    if classes != [] {
      TotalOfSorted(classes[1..]);
      InsertTotal(classes[0], StableSort(classes[1..], ClassKey));
      TotalOfConcat([classes[0]], classes[1..]);
      assert [classes[0]] + classes[1..] == classes && [classes[0]][..0] == [];
    }
  }

  /** Two readings of one account are the same classes. */
  lemma ReadsOnce(a: seq<Class>, b: seq<Class>, sizes: map<Edge, nat>)
    requires Reads(a, sizes) && Reads(b, sizes)
    ensures a == b
  {
    AscendingUnique(a, b, ClassKey);
  }
}
