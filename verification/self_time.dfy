/** Self times, and exactly when those of a subtree sum to its duration. */
module SelfTime {
  import opened Events
  import opened Sequences
  import opened TraceSpan
  import opened TraceAssemble
  import opened TraceProperties

  function ChildTime(spans: seq<Span>): int {
    if spans == [] then 0 else ChildTime(spans[..|spans| - 1]) + spans[|spans| - 1].duration
  }

  function SelfOf(span: Span): int {
    if IsOpen(span) then 0
    else
      var inside := ChildTime(span.children);
      if inside >= span.duration then 0 else span.duration - inside
  }

  method Self(span: Span) returns (self: int)
    ensures self == SelfOf(span)
    ensures span.endTime == ZERO_TIME ==> self == 0
    ensures span.endTime != ZERO_TIME ==>
      0 <= self && self >= span.duration - ChildTime(span.children)
      && (self == 0 || self + ChildTime(span.children) == span.duration)
  {
    if IsOpen(span) { return 0; }
    var inside := 0;
    for k := 0 to |span.children|
      invariant inside == ChildTime(span.children[..k])
    {
      assert span.children[..k + 1][..k] == span.children[..k];
      inside := inside + span.children[k].duration;
    }
    assert span.children[..|span.children|] == span.children;
    if inside >= span.duration { return 0; }
    return span.duration - inside;
  }

  method Descendants(span: Span) returns (count: nat)
    ensures count + 1 == |Flatten(span)|
    decreases span
  {
    count := 0;
    for k := 0 to |span.children|
      invariant count == |FlattenAll(span.children[..k])|
    {
      assert span.children[..k + 1][..k] == span.children[..k];
      var below := Descendants(span.children[k]);
      count := count + 1 + below;
    }
    assert span.children[..|span.children|] == span.children;
  }

  // ---------- Over a whole tree ----------

  /** The self times of a span and everything beneath it. */
  function SelfTotal(span: Span): int { SelfOf(span) + SelfTotals(span.children) }

  function SelfTotals(spans: seq<Span>): int {
    if spans == [] then 0 else SelfTotals(spans[..|spans| - 1]) + SelfTotal(spans[|spans| - 1])
  }

  /** No duration is negative, and an open span has none yet. */
  ghost predicate Measured(span: Span) {
    && 0 <= span.duration
    && (IsOpen(span) ==> span.duration == 0)
    && forall c :: c in span.children ==> Measured(c)
  }

  /** Nowhere do the children's durations add up to more than their parent's, as concurrent children's can. */
  ghost predicate Nested(span: Span) {
    && ChildTime(span.children) <= span.duration
    && forall c :: c in span.children ==> Nested(c)
  }

  /** Self times never lose time, and add up to the duration exactly when no children overrun their parent. */
  lemma {:induction false} SelfTimesAddUp(span: Span)
    requires Measured(span)
    ensures SelfTotal(span) >= span.duration
    ensures SelfTotal(span) == span.duration <==> Nested(span)
    decreases span, 1
  {
    ChildrenAddUp(span.children);
  }

  lemma {:induction false} ChildrenAddUp(spans: seq<Span>)
    requires forall c :: c in spans ==> Measured(c)
    ensures SelfTotals(spans) >= ChildTime(spans) >= 0
    ensures SelfTotals(spans) == ChildTime(spans) <==> forall c :: c in spans ==> Nested(c)
    decreases spans, 0
  {
    if spans != [] {
      var last := |spans| - 1;
      assert spans == spans[..last] + [spans[last]];
      ChildrenAddUp(spans[..last]);
      SelfTimesAddUp(spans[last]);
    }
  }

  // ---------- Assembled spans ----------

  predicate OwnMeasured(span: Span) { 0 <= span.duration && (IsOpen(span) ==> span.duration == 0) }

  lemma {:induction false} FlattenMeasured(span: Span)
    requires forall s :: s in Flatten(span) ==> OwnMeasured(s)
    ensures Measured(span)
    decreases span, 1
  {
    assert span in Flatten(span);
    FlattenAllMeasured(span.children);
  }

  lemma {:induction false} FlattenAllMeasured(spans: seq<Span>)
    requires forall s :: s in FlattenAll(spans) ==> OwnMeasured(s)
    ensures forall c :: c in spans ==> Measured(c)
    decreases spans, 0
  {
    if spans != [] {
      var last := |spans| - 1;
      assert spans == spans[..last] + [spans[last]];
      FlattenAllMeasured(spans[..last]);
      FlattenMeasured(spans[last]);
    }
  }

  /** The last end of each started span carries no negative duration, and none at all if it carries no time. */
  ghost predicate EndsMeasure(events: seq<Event>) {
    forall id :: id in Started(events) ==>
      var ends := Filter(events, EndOf(id));
      ends != [] ==>
        var last := ends[|ends| - 1];
        0 <= last.duration && (last.timestamp == ZERO_TIME ==> last.duration == 0)
  }

  /** Then the trace's self times add up. */
  lemma TraceTimesAddUp(events: seq<Event>, root: Span)
    requires EndsMeasure(events)
    requires root in TraceOf(events).roots
    ensures SelfTotal(root) >= root.duration
    ensures SelfTotal(root) == root.duration <==> Nested(root)
  {
    hide Filter, LastStart, Started, TraceOf, OwnMeasured, EndAll, EndsMeasure;
    RootFlattens(TraceOf(events).roots, root);
    forall s | s in Flatten(root) ensures OwnMeasured(s) { SpanMeasured(events, s); }
    FlattenMeasured(root);
    SelfTimesAddUp(root);
  }

  lemma {:induction false} RootFlattens(roots: seq<Span>, root: Span)
    requires root in roots
    ensures forall s :: s in Flatten(root) ==> s in FlattenAll(roots)
  {
    var last := |roots| - 1;
    if root != roots[last] {
      assert roots == roots[..last] + [roots[last]];
      RootFlattens(roots[..last], root);
    }
  }

  lemma SpanMeasured(events: seq<Event>, span: Span)
    requires EndsMeasure(events)
    requires span in Spans(TraceOf(events))
    ensures OwnMeasured(span)
  {
    hide LastStart, Started, TraceOf, Filter;
    SpanHolds(events, span);
    var ends := Filter(events, EndOf(span.id));
    EndTimeOf(NewSpan(LastStart(events, span.id)), ends);
    assert span.(children := [], events := []).duration == span.duration;
  }
}
