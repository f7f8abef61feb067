/** What the assembled trace keeps of its events, whatever order they came in. */
module TraceProperties {
  import opened Events
  import opened Sequences
  import opened Sorting
  import opened Forest
  import opened TraceSpan
  import opened TraceAssemble

  // ---------- Which spans the trace holds ----------

  function Spans(trace: Trace): seq<Span> { FlattenAll(trace.roots) }

  lemma IdsOfConcat(a: seq<Span>, b: seq<Span>)
    ensures IdsOf(a + b) == IdsOf(a) + IdsOf(b)
  {
  }

  /** The trace's spans, flattened, carry the identities of the forest, in its order. */
  lemma {:induction false} TreeIds(records: map<nat, Span>, id: nat, d: nat)
    requires Filed(records) && HasDepth(LinksOf(records), id, d)
    ensures IdsOf(Flatten(SpanTree(records, id, d))) == Preorder(Shape(LinksOf(records), id, d))
    decreases |LinksOf(records)| - d, 0, 0
  {
    hide HasDepth, Arrange;
    var links := LinksOf(records);
    ChildrenAtDepth(links, id, d);
    IsIn(links, id, d);
    TreesIds(records, Arrange(links, Children(links, id)), d + 1);
    var span := SpanTree(records, id, d);
    IdsOfConcat([span], FlattenAll(span.children));
  }

  lemma {:induction false} TreesIds(records: map<nat, Span>, ids: seq<nat>, d: nat)
    requires Filed(records) && AllAtDepth(LinksOf(records), ids, d)
    ensures IdsOf(FlattenAll(SpanTrees(records, ids, d))) == PreorderAll(Shapes(LinksOf(records), ids, d))
    decreases |LinksOf(records)| - d, 1, |ids|
  {
    hide HasDepth;
    if ids != [] {
      var last := |ids| - 1;
      var links := LinksOf(records);
      TreesIds(records, ids[..last], d);
      TreeIds(records, ids[last], d);
      var spans, shapes := SpanTrees(records, ids, d), Shapes(links, ids, d);
      assert spans[..last] == SpanTrees(records, ids[..last], d);
      assert shapes[..last] == Shapes(links, ids[..last], d);
      IdsOfConcat(FlattenAll(spans[..last]), Flatten(spans[last]));
    }
  }

  lemma {:induction false} RecordsFiled(events: seq<Event>)
    ensures Filed(Records(events)) && LinksOf(Records(events)).Keys == Started(events)
  {
    hide Started, Reading;
  }

  /** The identities whose parents lead to a root. */
  ghost function Kept(events: seq<Event>): set<nat> { Reachable(LinksOf(Records(events))) }

  /** For any parent relation: each started span at most once, exactly those whose chain ends at a root. */
  lemma HoldsEachOnce(events: seq<Event>)
    ensures multiset(IdsOf(Spans(TraceOf(events)))) == multiset(Kept(events))
    ensures forall id :: id in Kept(events) <==>
              id in Started(events) && !RunsIntoCycle(LinksOf(Records(events)), id)
  {
    hide Started, Records, LinksOf, Reaches, RunsIntoCycle;
    var records := Records(events);
    var links := LinksOf(records);
    RecordsFiled(events);
    RootsAtDepth(links);
    TreesIds(records, Arrange(links, Roots(links)), 0);
    ForestHoldsReachable(links);
    forall id | id in links ensures Reaches(links, id) <==> !RunsIntoCycle(links, id) { ReachesIffAcyclic(links, id); }
  }

  // ---------- What each span holds ----------

  /** A span of the trace is its record, with the spans it encloses as children. */
  ghost predicate Placed(records: map<nat, Span>, span: Span) {
    && span.id in records
    && span.(children := []) == records[span.id]
    && Ascending(span.children, SpanKey)
    && forall c :: c in IdsOf(span.children) <==> Encloses(LinksOf(records), span.id, c)
  }

  lemma SpanTreePlaced(records: map<nat, Span>, id: nat, d: nat)
    requires Filed(records) && HasDepth(LinksOf(records), id, d)
    ensures Placed(records, SpanTree(records, id, d))
  {
    hide HasDepth, Arrange;
    var links := LinksOf(records);
    ChildrenAtDepth(links, id, d);
    IsIn(links, id, d);
    var cs := Arrange(links, Children(links, id));
    ArrangeIs(links, Children(links, id));
    SiblingsAscend(records, cs, d + 1);
  }

  lemma SiblingsAscend(records: map<nat, Span>, ids: seq<nat>, d: nat)
    requires Filed(records) && AllAtDepth(LinksOf(records), ids, d) && Ascending(ids, StartKey(LinksOf(records)))
    ensures Ascending(SpanTrees(records, ids, d), SpanKey)
    ensures IdsOf(SpanTrees(records, ids, d)) == ids
  {
    hide HasDepth;
    var spans := SpanTrees(records, ids, d);
    forall i | 0 <= i < |ids| ensures spans[i].id == ids[i] && SpanKey(spans[i]) == StartKey(LinksOf(records))(ids[i]) {
      SpanTreesAt(records, ids, d, i);
      IsIn(LinksOf(records), ids[i], d);
    }
    forall i, j | 0 <= i < j < |spans| ensures Less(SpanKey(spans[i]), SpanKey(spans[j])) {
      assert Less(StartKey(LinksOf(records))(ids[i]), StartKey(LinksOf(records))(ids[j]));
    }
  }

  lemma {:induction false} TreePlaced(records: map<nat, Span>, id: nat, d: nat, span: Span)
    requires Filed(records) && HasDepth(LinksOf(records), id, d) && span in Flatten(SpanTree(records, id, d))
    ensures Placed(records, span)
    decreases |LinksOf(records)| - d, 0, 0
  {
    hide HasDepth, Arrange, Placed;
    SpanTreePlaced(records, id, d);
    if span != SpanTree(records, id, d) {
      ChildrenAtDepth(LinksOf(records), id, d);
      TreesPlaced(records, Arrange(LinksOf(records), Children(LinksOf(records), id)), d + 1, span);
    }
  }

  lemma {:induction false} TreesPlaced(records: map<nat, Span>, ids: seq<nat>, d: nat, span: Span)
    requires Filed(records) && AllAtDepth(LinksOf(records), ids, d) && span in FlattenAll(SpanTrees(records, ids, d))
    ensures Placed(records, span)
    decreases |LinksOf(records)| - d, 1, |ids|
  {
    hide HasDepth, Placed;
    var last := |ids| - 1;
    var spans := SpanTrees(records, ids, d);
    assert spans[..last] == SpanTrees(records, ids[..last], d);
    if span in Flatten(spans[last]) {
      TreePlaced(records, ids[last], d, span);
    } else {
      TreesPlaced(records, ids[..last], d, span);
    }
  }

  /**
   Every span of a trace is its last start, closed by its ends in order; its events are its own, in
   time order and otherwise as they came; its children are the spans that name it, strictly ascending.
   */
  lemma SpanHolds(events: seq<Event>, span: Span)
    requires span in Spans(TraceOf(events))
    ensures span.id in Started(events) && Placed(Records(events), span)
    ensures span.events == StableSort(Filter(events, InsideOf(span.id)), EventKey)
    ensures Sorted(span.events, EventKey)
    ensures span.(children := [], events := []) == EndAll(NewSpan(LastStart(events, span.id)), Filter(events, EndOf(span.id)))
  {
    hide Started, LastStart, StableSort, Filter, HasDepth, Arrange;
    var records := Records(events);
    RecordsFiled(events);
    RootsAtDepth(LinksOf(records));
    TreesPlaced(records, Arrange(LinksOf(records), Roots(LinksOf(records))), 0, span);
    SortSorted(Filter(events, InsideOf(span.id)), EventKey);
    SpanIsReading(events, span);
  }

  lemma SpanIsReading(events: seq<Event>, span: Span)
    requires span.id in Started(events) && span.(children := []) == Records(events)[span.id]
    ensures span.events == StableSort(Filter(events, InsideOf(span.id)), EventKey)
    ensures span.(children := [], events := []) == EndAll(NewSpan(LastStart(events, span.id)), Filter(events, EndOf(span.id)))
  {
    hide Started, LastStart, StableSort, Filter;
    var closed := EndAll(NewSpan(LastStart(events, span.id)), Filter(events, EndOf(span.id)));
    assert span.(children := [], events := []) == span.(children := []).(events := []);
    assert closed == closed.(events := []);
  }

  /** The last end decides when and how a span ended; without one it reads as its start. */
  lemma EndTimeOf(span: Span, ends: seq<Event>)
    ensures EndAll(span, ends).endTime == if ends == [] then span.endTime else ends[|ends| - 1].timestamp
    ensures ends != [] ==> EndAll(span, ends).duration == ends[|ends| - 1].duration
    ensures ends != [] ==> EndAll(span, ends).status == ends[|ends| - 1].status
    ensures ends == [] ==> EndAll(span, ends) == span
  {
  }

  lemma {:induction false} EndAllKeeps(span: Span, ends: seq<Event>)
    ensures var r := EndAll(span, ends);
      && r.name == span.name && r.source == span.source && r.fiberId == span.fiberId
      && span.attributes <= r.attributes
      && forall a :: a in r.attributes ==> a in span.attributes || exists e :: e in ends && a in e.attributes
  {
    if ends != [] {
      var last := |ends| - 1;
      EndAllKeeps(span, ends[..last]);
      var before := EndAll(span, ends[..last]);
      MergedHolds(before.attributes, ends[last].attributes);
      assert ends == ends[..last] + [ends[last]];
      assert ends[last] in ends;
    }
  }

  /** A span reads as its last start says, with the end, duration and status of its last end. */
  lemma SpanReads(events: seq<Event>, span: Span)
    requires span in Spans(TraceOf(events))
    ensures span.id in Started(events)
    ensures var start := LastStart(events, span.id);
      && start.operation == span.name && start.source == span.source && start.fiberId == span.fiberId
      && start.parentId == span.parentId && start.timestamp == span.startTime
      && start.attributes <= span.attributes
    ensures var ends := Filter(events, EndOf(span.id));
      && (ends == [] ==> IsOpen(span) && span.duration == 0 && span.status == NoStatus)
      && (ends != [] ==>
            var end := ends[|ends| - 1];
            end.timestamp == span.endTime && end.duration == span.duration && end.status == span.status)
  {
    hide Filter, Started, TraceOf, LastStart, Merged;
    SpanHolds(events, span);
    var start, ends := LastStart(events, span.id), Filter(events, EndOf(span.id));
    EndTimeOf(NewSpan(start), ends);
    EndAllKeeps(NewSpan(start), ends);
    var bare := span.(children := [], events := []);
    assert bare.name == span.name && bare.startTime == span.startTime && bare.endTime == span.endTime;
  }

  /** The roots too are in order, and are the started spans whose parent is missing or themselves. */
  lemma RootsInOrder(events: seq<Event>)
    ensures Ascending(TraceOf(events).roots, SpanKey)
    ensures forall id :: id in IdsOf(TraceOf(events).roots) <==>
      id in Started(events) && IsRoot(LinksOf(Records(events)), id)
  {
    hide Started, HasDepth, Arrange;
    var links := LinksOf(Records(events));
    RecordsFiled(events);
    RootsAtDepth(links);
    ArrangeIs(links, Roots(links));
    SiblingsAscend(Records(events), Arrange(links, Roots(links)), 0);
  }
}
