/** A trace in its events' own terms: kinds, identities, times and positions. */
module TraceReadings {
  import opened Events
  import opened Sequences
  import opened Sorting
  import opened TraceSpan
  import opened TraceAssemble
  import opened TraceProperties
  import opened LiveSpanProperties

  // ---------- Loose events ----------

  /**
   Loose is the events that are no start and whose span no start names, ends among them, in the order they came
   and each as often as it occurs.
   */
  lemma LooseInOrder(events: seq<Event>) returns (at: seq<nat>)
    ensures Rising(at) && |TraceOf(events).loose| == |at|
    ensures forall k :: 0 <= k < |at| ==> at[k] < |events| && TraceOf(events).loose[k] == events[at[k]]
    ensures forall p :: 0 <= p < |events| ==>
      (p in at <==> !events[p].kind.SpanStarted?
                    && forall e :: e in events && e.kind.SpanStarted? ==> e.spanId != events[p].spanId)
  {
    hide Nesting, Records;
    at := FilterPositions(events, LooseIn(Started(events)));
  }

  // ---------- The start a span reads as ----------

  /** The last start of a span is one that no later event of the same kind and identity follows. */
  lemma {:induction false} LastStartIs(events: seq<Event>, id: nat)
    requires id in Started(events)
    ensures var p := LastStartAt(events, id);
      && p < |events| && events[p] == LastStart(events, id)
      && events[p].kind.SpanStarted? && events[p].spanId == id
      && forall q :: p < q < |events| ==> !(events[q].kind.SpanStarted? && events[q].spanId == id)
  {
    hide LastStart;
    var front, e := events[..|events| - 1], events[|events| - 1];
    assert events == front + [e];
    LastStartSnoc(front, e, id);
    if !(IsStart(e) && e.spanId == id) { LastStartIs(front, id); }
  }

  // ---------- The events inside a span ----------

  /** An event of the span, neither its start nor its end, at that time. */
  function InsideAt(id: nat, time: Time): Event -> bool {
    (e: Event) => !e.kind.SpanStarted? && !e.kind.SpanEnded? && e.spanId == id && e.timestamp == time
  }

  function At(time: Time): Event -> bool { (e: Event) => e.timestamp == time }

  lemma KeyIsTime(e: Event, id: nat, time: Time)
    ensures HasKey(EventKey, Key(time, 0))(e) == At(time)(e)
    ensures Both(InsideOf(id), HasKey(EventKey, Key(time, 0)))(e) == InsideAt(id, time)(e)
  {
    assert EventKey(e) == Key(e.timestamp, 0);
  }

  /** The events inside a span stand by time, and those of one instant as they came; they are its own, and all of them. */
  lemma InsideInTime(events: seq<Event>, span: Span)
    requires span in Spans(TraceOf(events))
    ensures forall i, j :: 0 <= i < j < |span.events| ==> span.events[i].timestamp <= span.events[j].timestamp
    ensures forall time :: Filter(span.events, At(time)) == Filter(events, InsideAt(span.id, time))
  {
    hide Filter, StableSort, TraceOf, Started, LastStart, Placed;
    SpanHolds(events, span);
    forall i, j | 0 <= i < j < |span.events| ensures span.events[i].timestamp <= span.events[j].timestamp {
      assert Leq(EventKey(span.events[i]), EventKey(span.events[j]));
    }
    forall time ensures Filter(span.events, At(time)) == Filter(events, InsideAt(span.id, time)) {
      var own, key := Filter(events, InsideOf(span.id)), Key(time, 0);
      SortStable(own, EventKey, key);
      forall e: Event
        ensures HasKey(EventKey, key)(e) == At(time)(e)
        ensures Both(InsideOf(span.id), HasKey(EventKey, key))(e) == InsideAt(span.id, time)(e)
      {
        KeyIsTime(e, span.id, time);
      }
      FilterAgree(span.events, At(time), HasKey(EventKey, key));
      FilterTwice(events, InsideOf(span.id), HasKey(EventKey, key));
      FilterAgree(events, Both(InsideOf(span.id), HasKey(EventKey, key)), InsideAt(span.id, time));
    }
  }

  // ---------- Nesting ----------

  /** Earlier first, and of those that start together the lower identity. */
  predicate Older(a: Span, b: Span) { a.startTime < b.startTime || (a.startTime == b.startTime && a.id < b.id) }

  ghost predicate OldestFirst(spans: seq<Span>) { forall i, j :: 0 <= i < j < |spans| ==> Older(spans[i], spans[j]) }

  lemma {:induction false} AscendingIsOldestFirst(spans: seq<Span>)
    requires Ascending(spans, SpanKey)
    ensures OldestFirst(spans)
  {
    forall i, j | 0 <= i < j < |spans| ensures Older(spans[i], spans[j]) {
      assert Less(SpanKey(spans[i]), SpanKey(spans[j]));
    }
  }

  lemma {:induction false} LinkOf(events: seq<Event>, id: nat)
    requires id in Started(events)
    ensures id in LinksOf(Records(events)) && LinksOf(Records(events))[id].parent == LastStart(events, id).parentId
  {
    hide LastStart, Started, Filter;
  }

  /** A span's children are the started spans whose start names it as parent, oldest first. */
  lemma ChildrenNamed(events: seq<Event>, span: Span)
    requires span in Spans(TraceOf(events))
    ensures OldestFirst(span.children)
    ensures forall c :: c in IdsOf(span.children) <==>
      c in Started(events) && c != span.id && LastStart(events, c).parentId == span.id
  {
    hide Filter, StableSort, TraceOf, Started, LastStart, Records, LinksOf;
    SpanHolds(events, span);
    AscendingIsOldestFirst(span.children);
    RecordsFiled(events);
    forall c ensures c in IdsOf(span.children) <==>
        c in Started(events) && c != span.id && LastStart(events, c).parentId == span.id {
      if c in Started(events) { LinkOf(events, c); }
    }
  }

  /** The roots are the started spans whose start names no other started span as parent, oldest first. */
  lemma RootsNamed(events: seq<Event>)
    ensures OldestFirst(TraceOf(events).roots)
    ensures forall r :: r in IdsOf(TraceOf(events).roots) <==>
      r in Started(events)
      && (LastStart(events, r).parentId == r || LastStart(events, r).parentId !in Started(events))
  {
    hide Filter, StableSort, TraceOf, Started, LastStart, Records, LinksOf;
    RootsInOrder(events);
    AscendingIsOldestFirst(TraceOf(events).roots);
    RecordsFiled(events);
    forall r ensures r in IdsOf(TraceOf(events).roots) <==>
        r in Started(events)
        && (LastStart(events, r).parentId == r || LastStart(events, r).parentId !in Started(events)) {
      if r in Started(events) { LinkOf(events, r); }
    }
  }

  // ---------- Attributes ----------

  /** The attributes of a start with those each end adds in turn. */
  function AttributesAfter(attributes: seq<Attribute>, ends: seq<Event>): seq<Attribute> {
    if ends == [] then attributes
    else Merged(AttributesAfter(attributes, ends[..|ends| - 1]), ends[|ends| - 1].attributes)
  }

  lemma {:induction false} EndAllMerges(span: Span, ends: seq<Event>)
    ensures EndAll(span, ends).attributes == AttributesAfter(span.attributes, ends)
  {
    if ends != [] { EndAllMerges(span, ends[..|ends| - 1]); }
  }

  /** A span carries its start's attributes and, in turn, what each of its ends adds. */
  lemma AttributesAdded(events: seq<Event>, span: Span)
    requires span in Spans(TraceOf(events))
    ensures span.id in Started(events)
    ensures span.attributes
      == AttributesAfter(LastStart(events, span.id).attributes, Filter(events, EndOf(span.id)))
  {
    hide Filter, TraceOf, Started, LastStart, Merged, EndAll;
    SpanHolds(events, span);
    EndAllMerges(NewSpan(LastStart(events, span.id)), Filter(events, EndOf(span.id)));
    assert span.(children := [], events := []).attributes == span.attributes;
  }
}
