/** Traversals of a trace: preorder visits, filtering, and lines that merge events with children. */
module TraceRender {
  import opened Events
  import opened Sequences
  import opened Sorting
  import opened TraceSpan
  import opened TraceAssemble
  import opened TraceProperties
  import opened TraceConservation

  // ---------- Walking ----------

  datatype Visit = Visit(span: Span, depth: nat)

  function Visits(span: Span, depth: nat): seq<Visit> { [Visit(span, depth)] + VisitsAll(span.children, depth + 1) }

  function VisitsAll(spans: seq<Span>, depth: nat): seq<Visit> {
    if spans == [] then [] else VisitsAll(spans[..|spans| - 1], depth) + Visits(spans[|spans| - 1], depth)
  }

  /** What a visitor has been shown. */
  class Visitor {
    var seen: seq<Visit>

    constructor ()
      ensures seen == []
    {
      seen := [];
    }

    method Show(span: Span, depth: nat)
      modifies this
      ensures seen == old(seen) + [Visit(span, depth)]
    {
      seen := seen + [Visit(span, depth)];
    }
  }

  method WalkSpan(span: Span, depth: nat, visitor: Visitor)
    modifies visitor
    ensures visitor.seen == old(visitor.seen) + Visits(span, depth)
    decreases span
  {
    ghost var before := visitor.seen;
    visitor.Show(span, depth);
    for k := 0 to |span.children|
      invariant visitor.seen == before + [Visit(span, depth)] + VisitsAll(span.children[..k], depth + 1)
    {
      assert span.children[..k + 1][..k] == span.children[..k];
      WalkSpan(span.children[k], depth + 1, visitor);
    }
    assert span.children[..|span.children|] == span.children;
  }

  method Walk(trace: Trace, visitor: Visitor)
    modifies visitor
    ensures visitor.seen == old(visitor.seen) + VisitsAll(trace.roots, 0)
  {
    ghost var before := visitor.seen;
    for k := 0 to |trace.roots|
      invariant visitor.seen == before + VisitsAll(trace.roots[..k], 0)
    {
      assert trace.roots[..k + 1][..k] == trace.roots[..k];
      WalkSpan(trace.roots[k], 0, visitor);
    }
    assert trace.roots[..|trace.roots|] == trace.roots;
  }

  function SpansOf(visits: seq<Visit>): seq<Span> {
    seq(|visits|, i requires 0 <= i < |visits| => visits[i].span)
  }

  lemma {:induction false} VisitsFlatten(span: Span, depth: nat)
    ensures SpansOf(Visits(span, depth)) == Flatten(span)
    decreases span, 0
  {
    VisitsAllFlatten(span.children, depth + 1);
  }

  lemma {:induction false} VisitsAllFlatten(spans: seq<Span>, depth: nat)
    ensures SpansOf(VisitsAll(spans, depth)) == FlattenAll(spans)
    decreases spans
  {
    if spans != [] {
      VisitsAllFlatten(spans[..|spans| - 1], depth);
      VisitsFlatten(spans[|spans| - 1], depth);
    }
  }

  function VisitLevel(depth: nat): Visit -> bool { (v: Visit) => v.depth == depth }

  ghost predicate AllVisitsFrom(visits: seq<Visit>, depth: nat) { forall v :: v in visits ==> v.depth >= depth }

  lemma {:induction false} VisitsAllByLevel(spans: seq<Span>, depth: nat)
    ensures AllVisitsFrom(VisitsAll(spans, depth), depth)
    ensures SpansOf(Filter(VisitsAll(spans, depth), VisitLevel(depth))) == spans
    decreases spans, 0
  {
    hide Filter;
    FilterNothing([], VisitLevel(depth));
    if spans != [] {
      var front, s := spans[..|spans| - 1], spans[|spans| - 1];
      VisitsAllByLevel(front, depth);
      VisitsByLevel(s, depth);
      FilterConcat(VisitsAll(front, depth), Visits(s, depth), VisitLevel(depth));
      FilterCons(Visit(s, depth), Visits(s, depth)[1..], VisitLevel(depth));
      assert Visits(s, depth) == [Visit(s, depth)] + Visits(s, depth)[1..];
      FilterNothing(Visits(s, depth)[1..], VisitLevel(depth));
    }
  }

  /** A walk shows the span, then deeper ones only, of which those one level in are its children in order. */
  lemma {:induction false} VisitsByLevel(span: Span, depth: nat)
    ensures var visits := Visits(span, depth);
      && visits != [] && visits[0] == Visit(span, depth) && AllVisitsFrom(visits[1..], depth + 1)
      && SpansOf(Filter(visits[1..], VisitLevel(depth + 1))) == span.children
    decreases span, 1
  {
    hide Filter;
    VisitsAllByLevel(span.children, depth + 1);
    assert Visits(span, depth)[1..] == VisitsAll(span.children, depth + 1);
  }

  method KeepWhere(visits: seq<Visit>, keep: Span -> bool) returns (spans: seq<Span>)
    ensures spans == Filter(SpansOf(visits), keep)
  {
    hide Filter;
    ghost var all := SpansOf(visits);
    spans := [];
    FilterNothing(all[..0], keep);
    for k := 0 to |visits|
      invariant spans == Filter(all[..k], keep)
    {
      assert all[..k + 1] == all[..k] + [visits[k].span];
      FilterSnoc(all[..k], visits[k].span, keep);
      if keep(visits[k].span) {
        spans := spans + [visits[k].span];
      }
    }
    assert all[..|visits|] == all;
  }

  /** The spans a question keeps, parents before children. */
  method SpansWhere(trace: Trace, keep: Span -> bool) returns (spans: seq<Span>)
    ensures spans == Filter(Spans(trace), keep)
  {
    hide Filter;
    var visitor := new Visitor();
    Walk(trace, visitor);
    assert visitor.seen == VisitsAll(trace.roots, 0);
    VisitsAllFlatten(trace.roots, 0);
    spans := KeepWhere(visitor.seen, keep);
  }

  method Open(trace: Trace) returns (spans: seq<Span>)
    ensures spans == Filter(Spans(trace), (s: Span) => s.endTime == ZERO_TIME)
  {
    spans := SpansWhere(trace, IsOpen);
    FilterAgree(Spans(trace), IsOpen, (s: Span) => s.endTime == ZERO_TIME);
  }

  method Unsuccessful(trace: Trace) returns (spans: seq<Span>)
    ensures spans
      == Filter(Spans(trace), (s: Span) => s.status == Failed || s.status == Defective || s.status == Interrupted)
  {
    spans := SpansWhere(trace, IsUnsuccessful);
    FilterAgree(Spans(trace), IsUnsuccessful,
                (s: Span) => s.status == Failed || s.status == Defective || s.status == Interrupted);
  }

  // ---------- Rendering ----------

  datatype Line = SpanLine(depth: nat, span: Span) | EventLine(depth: nat, event: Event)

  /** Ties between an event and a child go to the event. */
  predicate TakeEvent(span: Span, events: nat, children: nat)
    requires events <= |span.events| && children <= |span.children|
    requires events < |span.events| || children < |span.children|
  {
    if children == |span.children| then true
    else if events == |span.events| then false
    else span.events[events].timestamp <= span.children[children].startTime
  }

  function Lines(span: Span, depth: nat): seq<Line>
    decreases span, 0
  {
    [SpanLine(depth, span)] + Inside(span, 0, 0, depth)
  }

  function Inside(span: Span, events: nat, children: nat, depth: nat): seq<Line>
    requires events <= |span.events| && children <= |span.children|
    decreases span, 0, |span.events| + |span.children| - events - children
  {
    if events == |span.events| && children == |span.children| then []
    else if TakeEvent(span, events, children) then
      [EventLine(depth + 1, span.events[events])] + Inside(span, events + 1, children, depth)
    else
      Lines(span.children[children], depth + 1) + Inside(span, events, children + 1, depth)
  }

  class Builder {
    var lines: seq<Line>

    constructor ()
      ensures lines == []
    {
      lines := [];
    }

    method Write(line: Line)
      modifies this
      ensures lines == old(lines) + [line]
    {
      lines := lines + [line];
    }
  }

  method RenderSpan(into: Builder, span: Span, depth: nat)
    modifies into
    ensures into.lines == old(into.lines) + Lines(span, depth)
    decreases span, 1
  {
    into.Write(SpanLine(depth, span));
    RenderInside(into, span, depth);
  }

  method RenderInside(into: Builder, span: Span, depth: nat)
    modifies into
    ensures into.lines == old(into.lines) + Inside(span, 0, 0, depth)
    decreases span, 0
  {
    ghost var before := into.lines;
    var events, children := 0, 0;
    while events < |span.events| || children < |span.children|
      invariant events <= |span.events| && children <= |span.children|
      invariant into.lines + Inside(span, events, children, depth) == before + Inside(span, 0, 0, depth)
      decreases |span.events| + |span.children| - events - children
    {
      ghost var written := into.lines;
      if TakeEvent(span, events, children) {
        into.Write(EventLine(depth + 1, span.events[events]));
        Associative(written, [EventLine(depth + 1, span.events[events])], Inside(span, events + 1, children, depth));
        events := events + 1;
        continue;
      }
      RenderSpan(into, span.children[children], depth + 1);
      Associative(written, Lines(span.children[children], depth + 1), Inside(span, events, children + 1, depth));
      children := children + 1;
    }
  }

  // ---------- The order of the lines ----------

  datatype Item = EventItem(event: Event) | ChildItem(span: Span)

  function ItemKey(item: Item): Key {
    match item
    case EventItem(e) => Key(e.timestamp, 0)
    case ChildItem(s) => Key(s.startTime, 0)
  }

  function EventItems(events: seq<Event>): seq<Item> {
    seq(|events|, i requires 0 <= i < |events| => EventItem(events[i]))
  }

  function ChildItems(spans: seq<Span>): seq<Item> {
    seq(|spans|, i requires 0 <= i < |spans| => ChildItem(spans[i]))
  }

  /** The items the merge takes, in the order it takes them. */
  function Order(span: Span, events: nat, children: nat): seq<Item>
    requires events <= |span.events| && children <= |span.children|
    decreases |span.events| + |span.children| - events - children
  {
    if events == |span.events| && children == |span.children| then []
    else if TakeEvent(span, events, children) then
      [EventItem(span.events[events])] + Order(span, events + 1, children)
    else [ChildItem(span.children[children])] + Order(span, events, children + 1)
  }

  function Block(item: Item, depth: nat): seq<Line> {
    match item
    case EventItem(e) => [EventLine(depth + 1, e)]
    case ChildItem(s) => Lines(s, depth + 1)
  }

  function Blocks(items: seq<Item>, depth: nat): seq<Line> {
    if items == [] then [] else Block(items[0], depth) + Blocks(items[1..], depth)
  }

  lemma {:induction false} InsideIsBlocks(span: Span, events: nat, children: nat, depth: nat)
    requires events <= |span.events| && children <= |span.children|
    ensures Inside(span, events, children, depth) == Blocks(Order(span, events, children), depth)
    decreases |span.events| + |span.children| - events - children
  {
    if events < |span.events| || children < |span.children| {
      if TakeEvent(span, events, children) {
        InsideIsBlocks(span, events + 1, children, depth);
      } else {
        InsideIsBlocks(span, events, children + 1, depth);
      }
    }
  }

  /** Whatever order the events and children stand in, the merge takes each exactly once. */
  lemma {:induction false} OrderTakesEach(span: Span, events: nat, children: nat)
    requires events <= |span.events| && children <= |span.children|
    ensures multiset(Order(span, events, children))
      == multiset(EventItems(span.events[events..])) + multiset(ChildItems(span.children[children..]))
    decreases |span.events| + |span.children| - events - children
  {
    if events < |span.events| || children < |span.children| {
      var es, cs := EventItems(span.events[events..]), ChildItems(span.children[children..]);
      if TakeEvent(span, events, children) {
        OrderTakesEach(span, events + 1, children);
        var x, rest := EventItem(span.events[events]), EventItems(span.events[events + 1..]);
        assert es == [x] + rest;
        TakenLeft(x, Order(span, events + 1, children), rest, cs);
      } else {
        OrderTakesEach(span, events, children + 1);
        var x, rest := ChildItem(span.children[children]), ChildItems(span.children[children + 1..]);
        assert cs == [x] + rest;
        TakenRight(x, Order(span, events, children + 1), es, rest);
      }
    }
  }

  lemma TakenLeft<T>(x: T, xs: seq<T>, a: seq<T>, b: seq<T>)
    requires multiset(xs) == multiset(a) + multiset(b)
    ensures multiset([x] + xs) == multiset([x] + a) + multiset(b)
  {
  }

  lemma TakenRight<T>(x: T, xs: seq<T>, a: seq<T>, b: seq<T>)
    requires multiset(xs) == multiset(a) + multiset(b)
    ensures multiset([x] + xs) == multiset(a) + multiset([x] + b)
  {
  }

  // ---------- The merge is a stable sort ----------

  ghost predicate NoneBefore(x: Item, xs: seq<Item>) { forall y :: y in xs ==> Leq(ItemKey(x), ItemKey(y)) }

  ghost predicate AllAfter(x: Item, xs: seq<Item>) { forall y :: y in xs ==> Less(ItemKey(x), ItemKey(y)) }

  lemma SortHead(x: Item, xs: seq<Item>)
    requires NoneBefore(x, xs)
    ensures StableSort([x] + xs, ItemKey) == [x] + StableSort(xs, ItemKey)
  {
    assert ([x] + xs)[1..] == xs;
    var sorted := StableSort(xs, ItemKey);
    if sorted != [] {
      SortMember(xs, ItemKey, sorted[0]);
      assert sorted[0] in sorted;
    }
  }

  lemma {:induction false} SortJump(x: Item, es: seq<Item>, cs: seq<Item>)
    requires AllAfter(x, es) && NoneBefore(x, cs)
    ensures StableSort(es + ([x] + cs), ItemKey) == [x] + StableSort(es + cs, ItemKey)
  {
    if es == [] {
      assert es + ([x] + cs) == [x] + cs && es + cs == cs;
      SortHead(x, cs);
    } else {
      SortJump(x, es[1..], cs);
      assert (es + ([x] + cs))[1..] == es[1..] + ([x] + cs);
      assert (es + cs)[1..] == es[1..] + cs;
      var rest := StableSort(es[1..] + cs, ItemKey);
      assert ([x] + rest)[1..] == rest;
    }
  }

  /** Both sequences in time order, as every assembled span has them. */
  ghost predicate InTime(span: Span) { Sorted(span.events, EventKey) && Ascending(span.children, SpanKey) }

  lemma {:induction false} OrderIsSort(span: Span, events: nat, children: nat)
    requires InTime(span) && events <= |span.events| && children <= |span.children|
    ensures Order(span, events, children)
      == StableSort(EventItems(span.events[events..]) + ChildItems(span.children[children..]), ItemKey)
    decreases |span.events| + |span.children| - events - children
  {
    var es, cs := EventItems(span.events[events..]), ChildItems(span.children[children..]);
    if events == |span.events| && children == |span.children| {
      assert es + cs == [];
    } else if TakeEvent(span, events, children) {
      OrderIsSort(span, events + 1, children);
      var rest := EventItems(span.events[events + 1..]);
      assert es + cs == [EventItem(span.events[events])] + (rest + cs);
      EventIsFirst(span, events, children);
      SortHead(EventItem(span.events[events]), rest + cs);
    } else {
      OrderIsSort(span, events, children + 1);
      var rest := ChildItems(span.children[children + 1..]);
      assert cs == [ChildItem(span.children[children])] + rest;
      ChildIsFirst(span, events, children);
      SortJump(ChildItem(span.children[children]), es, rest);
    }
  }

  lemma {:induction false} EventIsFirst(span: Span, events: nat, children: nat)
    requires InTime(span) && events < |span.events| && children <= |span.children| && TakeEvent(span, events, children)
    ensures NoneBefore(EventItem(span.events[events]),
                       EventItems(span.events[events + 1..]) + ChildItems(span.children[children..]))
  {
    forall k | events < k < |span.events| ensures span.events[events].timestamp <= span.events[k].timestamp {
      assert Leq(EventKey(span.events[events]), EventKey(span.events[k]));
    }
    ChildrenInTime(span);
  }

  lemma {:induction false} ChildIsFirst(span: Span, events: nat, children: nat)
    requires InTime(span) && events <= |span.events| && children < |span.children| && !TakeEvent(span, events, children)
    ensures AllAfter(ChildItem(span.children[children]), EventItems(span.events[events..]))
    ensures NoneBefore(ChildItem(span.children[children]), ChildItems(span.children[children + 1..]))
  {
    forall k | events < k < |span.events| ensures span.events[events].timestamp <= span.events[k].timestamp {
      assert Leq(EventKey(span.events[events]), EventKey(span.events[k]));
    }
    ChildrenInTime(span);
  }

  lemma {:induction false} ChildrenInTime(span: Span)
    requires InTime(span)
    ensures forall i, j :: 0 <= i <= j < |span.children| ==> span.children[i].startTime <= span.children[j].startTime
  {
    forall i, j | 0 <= i < j < |span.children| ensures span.children[i].startTime <= span.children[j].startTime {
      assert Less(SpanKey(span.children[i]), SpanKey(span.children[j]));
    }
  }

  /** The lines inside a span of a trace are its events and children as one sequence in time, events first on ties. */
  lemma RendersInTime(events: seq<Event>, span: Span, depth: nat)
    requires span in Spans(TraceOf(events))
    ensures Inside(span, 0, 0, depth)
      == Blocks(StableSort(EventItems(span.events) + ChildItems(span.children), ItemKey), depth)
  {
    hide StableSort, Blocks, Order, Inside, TraceOf, Started, LastStart, Filter;
    SpanHolds(events, span);
    InsideIsBlocks(span, 0, 0, depth);
    OrderIsSort(span, 0, 0);
    assert span.events[0..] == span.events && span.children[0..] == span.children;
  }

  // ---------- The merge, by times ----------

  function EventsAmong(items: seq<Item>): seq<Event> {
    if items == [] then []
    else (if items[0].EventItem? then [items[0].event] else []) + EventsAmong(items[1..])
  }

  function ChildrenAmong(items: seq<Item>): seq<Span> {
    if items == [] then []
    else (if items[0].ChildItem? then [items[0].span] else []) + ChildrenAmong(items[1..])
  }

  lemma {:induction false} AmongCons(item: Item, items: seq<Item>)
    ensures EventsAmong([item] + items) == if item.EventItem? then [item.event] + EventsAmong(items) else EventsAmong(items)
    ensures ChildrenAmong([item] + items) == if item.ChildItem? then [item.span] + ChildrenAmong(items) else ChildrenAmong(items)
  {
    assert ([item] + items)[1..] == items;
  }

  lemma HeadTail<T>(xs: seq<T>, i: nat)
    requires i < |xs|
    ensures [xs[i]] + xs[i + 1..] == xs[i..]
  {
  }

  /** The merge keeps the order of the events, whatever span it is of. */
  lemma {:induction false} OrderKeepsEvents(span: Span, events: nat, children: nat)
    requires events <= |span.events| && children <= |span.children|
    ensures EventsAmong(Order(span, events, children)) == span.events[events..]
    decreases |span.events| + |span.children| - events - children
  {
    if events < |span.events| || children < |span.children| {
      hide EventsAmong, ChildrenAmong;
      if TakeEvent(span, events, children) {
        OrderKeepsEvents(span, events + 1, children);
        AmongCons(EventItem(span.events[events]), Order(span, events + 1, children));
        HeadTail(span.events, events);
      } else {
        OrderKeepsEvents(span, events, children + 1);
        AmongCons(ChildItem(span.children[children]), Order(span, events, children + 1));
      }
    }
  }

  /** And that of the children. */
  lemma {:induction false} OrderKeepsChildren(span: Span, events: nat, children: nat)
    requires events <= |span.events| && children <= |span.children|
    ensures ChildrenAmong(Order(span, events, children)) == span.children[children..]
    decreases |span.events| + |span.children| - events - children
  {
    if events < |span.events| || children < |span.children| {
      hide EventsAmong, ChildrenAmong;
      if TakeEvent(span, events, children) {
        OrderKeepsChildren(span, events + 1, children);
        AmongCons(EventItem(span.events[events]), Order(span, events + 1, children));
      } else {
        OrderKeepsChildren(span, events, children + 1);
        AmongCons(ChildItem(span.children[children]), Order(span, events, children + 1));
        HeadTail(span.children, children);
      }
    }
  }

  /** No event comes before a child that started earlier, and no child before an event that happened by its start. */
  predicate InTurn(a: Item, b: Item) {
    && (a.EventItem? && b.ChildItem? ==> a.event.timestamp <= b.span.startTime)
    && (a.ChildItem? && b.EventItem? ==> a.span.startTime < b.event.timestamp)
  }

  ghost predicate AllInTurn(items: seq<Item>) {
    forall i, j :: 0 <= i < j < |items| ==> InTurn(items[i], items[j])
  }

  lemma {:induction false} InTurnCons(x: Item, rest: seq<Item>)
    requires AllInTurn(rest) && forall y :: y in rest ==> InTurn(x, y)
    ensures AllInTurn([x] + rest)
  {
    forall i, j | 0 <= i < j < |[x] + rest| ensures InTurn(([x] + rest)[i], ([x] + rest)[j]) {
      assert ([x] + rest)[j] == rest[j - 1] && rest[j - 1] in rest;
      if i > 0 { assert ([x] + rest)[i] == rest[i - 1]; }
    }
  }

  /** What the merge takes next is in turn with all it takes later. */
  lemma NextInTurn(span: Span, x: Item, events: nat, children: nat, y: Item)
    requires events <= |span.events| && children <= |span.children|
    requires y in Order(span, events, children)
    requires if x.EventItem? then
               NoneBefore(x, EventItems(span.events[events..]) + ChildItems(span.children[children..]))
             else AllAfter(x, EventItems(span.events[events..]))
    ensures InTurn(x, y)
  {
    hide Order;
    OrderTakesEach(span, events, children);
    var es, cs := EventItems(span.events[events..]), ChildItems(span.children[children..]);
    assert y in multiset(es) + multiset(cs) by { assert y in multiset(Order(span, events, children)); }
    assert y in es || y in cs;
    assert y in es + cs;
  }

  lemma {:induction false} OrderInTurn(span: Span, events: nat, children: nat)
    requires InTime(span) && events <= |span.events| && children <= |span.children|
    ensures AllInTurn(Order(span, events, children))
    decreases |span.events| + |span.children| - events - children
  {
    if events < |span.events| || children < |span.children| {
      hide AllInTurn, InTurn, NoneBefore, AllAfter, InTime;
      if TakeEvent(span, events, children) {
        var x := EventItem(span.events[events]);
        OrderInTurn(span, events + 1, children);
        EventIsFirst(span, events, children);
        forall y | y in Order(span, events + 1, children) ensures InTurn(x, y) {
          NextInTurn(span, x, events + 1, children, y);
        }
        InTurnCons(x, Order(span, events + 1, children));
      } else {
        var x := ChildItem(span.children[children]);
        OrderInTurn(span, events, children + 1);
        ChildIsFirst(span, events, children);
        forall y | y in Order(span, events, children + 1) ensures InTurn(x, y) {
          NextInTurn(span, x, events, children + 1, y);
        }
        InTurnCons(x, Order(span, events, children + 1));
      }
    } else {
      assert Order(span, events, children) == [];
    }
  }

  /** Inside a span of a trace events and children take turns by time, an event first at the same instant. */
  lemma MergesInTurn(events: seq<Event>, span: Span)
    requires span in Spans(TraceOf(events))
    ensures var items := Order(span, 0, 0);
      && EventsAmong(items) == span.events && ChildrenAmong(items) == span.children
      && AllInTurn(items)
  {
    hide StableSort, Order, TraceOf, Started, LastStart, Filter;
    SpanHolds(events, span);
    OrderKeepsEvents(span, 0, 0);
    OrderKeepsChildren(span, 0, 0);
    OrderInTurn(span, 0, 0);
    assert span.events[0..] == span.events && span.children[0..] == span.children;
  }

  // ---------- The lines, by depth ----------

  function AtLevel(depth: nat): Line -> bool { (line: Line) => line.depth == depth }

  /** The line an item is shown on: an event's own, or the heading of a child. */
  function LineOf(item: Item, depth: nat): Line {
    if item.EventItem? then EventLine(depth, item.event) else SpanLine(depth, item.span)
  }

  function LinesOf(items: seq<Item>, depth: nat): seq<Line> {
    seq(|items|, i requires 0 <= i < |items| => LineOf(items[i], depth))
  }

  ghost predicate AllFrom(lines: seq<Line>, depth: nat) { forall line :: line in lines ==> line.depth >= depth }

  lemma {:induction false} InsideIsDeeper(span: Span, events: nat, children: nat, depth: nat)
    requires events <= |span.events| && children <= |span.children|
    ensures AllFrom(Inside(span, events, children, depth), depth + 1)
    decreases span, |span.events| + |span.children| - events - children
  {
    if events < |span.events| || children < |span.children| {
      if TakeEvent(span, events, children) {
        InsideIsDeeper(span, events + 1, children, depth);
      } else {
        InsideIsDeeper(span.children[children], 0, 0, depth + 1);
        InsideIsDeeper(span, events, children + 1, depth);
      }
    }
  }

  /** The lines one level in are the span's events and the headings of its children, in the order of the merge. */
  lemma {:induction false} NextLevel(span: Span, events: nat, children: nat, depth: nat)
    requires events <= |span.events| && children <= |span.children|
    ensures Filter(Inside(span, events, children, depth), AtLevel(depth + 1))
      == LinesOf(Order(span, events, children), depth + 1)
    decreases |span.events| + |span.children| - events - children
  {
    hide Filter;
    if events < |span.events| || children < |span.children| {
      if TakeEvent(span, events, children) {
        NextLevel(span, events + 1, children, depth);
        FilterCons(EventLine(depth + 1, span.events[events]), Inside(span, events + 1, children, depth),
                   AtLevel(depth + 1));
      } else {
        var child, rest := span.children[children], Inside(span, events, children + 1, depth);
        NextLevel(span, events, children + 1, depth);
        FilterConcat(Lines(child, depth + 1), rest, AtLevel(depth + 1));
        FilterCons(SpanLine(depth + 1, child), Inside(child, 0, 0, depth + 1), AtLevel(depth + 1));
        InsideIsDeeper(child, 0, 0, depth + 1);
        FilterNothing(Inside(child, 0, 0, depth + 1), AtLevel(depth + 1));
      }
      assert LinesOf(Order(span, events, children), depth + 1)[1..]
          == LinesOf(Order(span, events, children)[1..], depth + 1);
    } else {
      FilterNothing(Inside(span, events, children, depth), AtLevel(depth + 1));
    }
  }

  /** The first line of a span is its heading, and what is one level in follows the merge. */
  lemma LinesByLevel(span: Span, depth: nat)
    ensures var lines := Lines(span, depth);
      && lines != [] && lines[0] == SpanLine(depth, span) && AllFrom(lines[1..], depth + 1)
      && Filter(lines[1..], AtLevel(depth + 1)) == LinesOf(Order(span, 0, 0), depth + 1)
  {
    hide Filter, Order, Inside;
    InsideIsDeeper(span, 0, 0, depth);
    NextLevel(span, 0, 0, depth);
    assert Lines(span, depth)[1..] == Inside(span, 0, 0, depth);
  }

  // ---------- What the lines hold ----------

  function LineSpans(lines: seq<Line>): multiset<Span> {
    if lines == [] then multiset{}
    else LineSpans(lines[1..]) + if lines[0].SpanLine? then multiset{lines[0].span} else multiset{}
  }

  function LineEvents(lines: seq<Line>): multiset<Event> {
    if lines == [] then multiset{}
    else LineEvents(lines[1..]) + if lines[0].EventLine? then multiset{lines[0].event} else multiset{}
  }

  lemma {:induction false} LinesConcat(a: seq<Line>, b: seq<Line>)
    ensures LineSpans(a + b) == LineSpans(a) + LineSpans(b)
    ensures LineEvents(a + b) == LineEvents(a) + LineEvents(b)
  {
    if a == [] {
      assert a + b == b;
    } else {
      assert (a + b)[1..] == a[1..] + b;
      LinesConcat(a[1..], b);
    }
  }

  lemma {:induction false} EventsInConcat(a: seq<Span>, b: seq<Span>)
    ensures EventsIn(a + b) == EventsIn(a) + EventsIn(b)
  {
    if b == [] {
      assert a + b == a;
    } else {
      assert (a + b)[..|a + b| - 1] == a + b[..|b| - 1];
      EventsInConcat(a, b[..|b| - 1]);
    }
  }

  /** Rendering writes every span below once, and every event of those spans once. */
  lemma {:induction false} LinesHold(span: Span, depth: nat)
    ensures LineSpans(Lines(span, depth)) == multiset(Flatten(span))
    ensures LineEvents(Lines(span, depth)) == multiset(EventsIn(Flatten(span)))
    decreases span, 1
  {
    InsideHolds(span, 0, 0, depth);
    LinesConcat([SpanLine(depth, span)], Inside(span, 0, 0, depth));
    assert span.events[0..] == span.events && span.children[0..] == span.children;
    EventsInConcat([span], FlattenAll(span.children));
    assert EventsIn([span]) == span.events;
  }

  lemma FlattenAllCons(span: Span, spans: seq<Span>)
    ensures FlattenAll([span] + spans) == Flatten(span) + FlattenAll(spans)
  {
    if spans != [] {
      var last := |spans| - 1;
      FlattenAllCons(span, spans[..last]);
      assert ([span] + spans)[..|spans|] == [span] + spans[..last];
    } else {
      assert [span] + spans == [span] && [span][..0] == [];
    }
  }

  lemma {:induction false} InsideHolds(span: Span, events: nat, children: nat, depth: nat)
    requires events <= |span.events| && children <= |span.children|
    ensures LineSpans(Inside(span, events, children, depth)) == multiset(FlattenAll(span.children[children..]))
    ensures LineEvents(Inside(span, events, children, depth))
      == multiset(span.events[events..]) + multiset(EventsIn(FlattenAll(span.children[children..])))
    decreases span, 0, |span.events| + |span.children| - events - children
  {
    hide LineSpans, LineEvents, Lines, Flatten, EventsIn;
    if events == |span.events| && children == |span.children| {
      InsideEnds(span, depth);
    } else if TakeEvent(span, events, children) {
      InsideHolds(span, events + 1, children, depth);
      EventWritten(span, events, children, depth);
    } else {
      LinesHold(span.children[children], depth + 1);
      InsideHolds(span, events, children + 1, depth);
      ChildWritten(span, events, children, depth);
    }
  }

  lemma InsideEnds(span: Span, depth: nat)
    ensures LineSpans(Inside(span, |span.events|, |span.children|, depth)) == multiset{}
    ensures LineEvents(Inside(span, |span.events|, |span.children|, depth)) == multiset{}
    ensures EventsIn([]) == []
  {
  }

  lemma EventWritten(span: Span, events: nat, children: nat, depth: nat)
    requires events < |span.events| && children <= |span.children| && TakeEvent(span, events, children)
    ensures var e := span.events[events];
      && LineSpans(Inside(span, events, children, depth)) == LineSpans(Inside(span, events + 1, children, depth))
      && LineEvents(Inside(span, events, children, depth))
         == multiset{e} + LineEvents(Inside(span, events + 1, children, depth))
      && multiset(span.events[events..]) == multiset{e} + multiset(span.events[events + 1..])
  {
    var line, rest := [EventLine(depth + 1, span.events[events])], Inside(span, events + 1, children, depth);
    LinesConcat(line, rest);
    assert LineSpans(line) == multiset{} && LineEvents(line) == multiset{span.events[events]};
    assert span.events[events..] == [span.events[events]] + span.events[events + 1..];
  }

  lemma ChildWritten(span: Span, events: nat, children: nat, depth: nat)
    requires events <= |span.events| && children < |span.children| && !TakeEvent(span, events, children)
    ensures var child, rest := span.children[children], span.children[children + 1..];
      var block, after := Lines(child, depth + 1), Inside(span, events, children + 1, depth);
      && LineSpans(Inside(span, events, children, depth)) == LineSpans(block) + LineSpans(after)
      && LineEvents(Inside(span, events, children, depth)) == LineEvents(block) + LineEvents(after)
      && multiset(FlattenAll(span.children[children..])) == multiset(Flatten(child)) + multiset(FlattenAll(rest))
      && multiset(EventsIn(FlattenAll(span.children[children..])))
         == multiset(EventsIn(Flatten(child))) + multiset(EventsIn(FlattenAll(rest)))
  {
    hide LineSpans, LineEvents, Lines, Flatten, FlattenAll, EventsIn;
    var child, rest := span.children[children], span.children[children + 1..];
    LinesConcat(Lines(child, depth + 1), Inside(span, events, children + 1, depth));
    assert span.children[children..] == [child] + rest;
    FlattenAllCons(child, rest);
    EventsInConcat(Flatten(child), FlattenAll(rest));
  }

  // ---------- The lines follow the walk ----------

  /** The spans among the lines, with the depth each is written at. */
  function Headings(lines: seq<Line>): seq<Visit> {
    if lines == [] then [] else Heading(lines[0]) + Headings(lines[1..])
  }

  function Heading(line: Line): seq<Visit> { if line.SpanLine? then [Visit(line.span, line.depth)] else [] }

  lemma {:induction false} HeadingsCons(line: Line, lines: seq<Line>)
    ensures Headings([line] + lines) == Heading(line) + Headings(lines)
  {
    assert ([line] + lines)[1..] == lines;
  }

  lemma {:induction false} HeadingsConcat(a: seq<Line>, b: seq<Line>)
    ensures Headings(a + b) == Headings(a) + Headings(b)
  {
    if a == [] {
      assert a + b == b && Headings(a) == [];
    } else {
      hide Headings, Heading;
      var rest := a[1..];
      HeadingsConcat(rest, b);
      HeadingsCons(a[0], rest);
      HeadingsCons(a[0], rest + b);
      assert [a[0]] + rest == a;
      Associative([a[0]], rest, b);
      Associative(Heading(a[0]), Headings(rest), Headings(b));
    }
  }

  lemma {:induction false} VisitsAllSnoc(spans: seq<Span>, span: Span, depth: nat)
    ensures VisitsAll(spans + [span], depth) == VisitsAll(spans, depth) + Visits(span, depth)
  {
    assert (spans + [span])[..|spans|] == spans;
  }

  lemma {:induction false} VisitsAllCons(span: Span, spans: seq<Span>, depth: nat)
    ensures VisitsAll([span] + spans, depth) == Visits(span, depth) + VisitsAll(spans, depth)
  {
    hide VisitsAll, Visits;
    if spans == [] {
      NoVisits(depth);
      VisitsAllSnoc([], span, depth);
      assert [span] + spans == [] + [span];
    } else {
      var front, last := spans[..|spans| - 1], spans[|spans| - 1];
      VisitsAllCons(span, front, depth);
      VisitsAllSnoc(front, last, depth);
      VisitsAllSnoc([span] + front, last, depth);
      assert front + [last] == spans && ([span] + front) + [last] == [span] + spans;
    }
  }

  lemma NoVisits(depth: nat)
    ensures VisitsAll([], depth) == []
  {
  }

  /** Events aside, the lines show each span where the walk does, indented by the depth the walk gives it. */
  lemma {:induction false} LinesFollowWalk(span: Span, depth: nat)
    ensures Headings(Lines(span, depth)) == Visits(span, depth)
    decreases span, 1
  {
    InsideFollowsWalk(span, 0, 0, depth);
    assert span.children[0..] == span.children;
    HeadingsConcat([SpanLine(depth, span)], Inside(span, 0, 0, depth));
  }

  lemma {:induction false} InsideFollowsWalk(span: Span, events: nat, children: nat, depth: nat)
    requires events <= |span.events| && children <= |span.children|
    ensures Headings(Inside(span, events, children, depth)) == VisitsAll(span.children[children..], depth + 1)
    decreases span, 0, |span.events| + |span.children| - events - children
  {
    hide Headings, Lines, VisitsAll;
    if events == |span.events| && children == |span.children| {
      NothingFollows(depth);
    } else if TakeEvent(span, events, children) {
      InsideFollowsWalk(span, events + 1, children, depth);
      EventHasNoHeading(span.events[events], depth, Inside(span, events + 1, children, depth));
    } else {
      var child, rest := span.children[children], span.children[children + 1..];
      LinesFollowWalk(child, depth + 1);
      InsideFollowsWalk(span, events, children + 1, depth);
      HeadingsConcat(Lines(child, depth + 1), Inside(span, events, children + 1, depth));
      assert span.children[children..] == [child] + rest;
      VisitsAllCons(child, rest, depth + 1);
    }
  }

  lemma NothingFollows(depth: nat)
    ensures Headings([]) == [] && VisitsAll([], depth + 1) == []
  {
  }

  lemma {:induction false} EventHasNoHeading(event: Event, depth: nat, rest: seq<Line>)
    ensures Headings([EventLine(depth + 1, event)] + rest) == Headings(rest)
  {
    assert ([EventLine(depth + 1, event)] + rest)[1..] == rest;
  }

  // ---------- A whole trace ----------

  function LinesAll(spans: seq<Span>): seq<Line> {
    if spans == [] then [] else LinesAll(spans[..|spans| - 1]) + Lines(spans[|spans| - 1], 0)
  }

  /** The lines of a trace, and how many events stand outside every span. */
  method Render(trace: Trace) returns (lines: seq<Line>, outside: nat)
    ensures lines == LinesAll(trace.roots) && outside == |trace.loose|
  {
    var text := new Builder();
    for k := 0 to |trace.roots|
      invariant text.lines == LinesAll(trace.roots[..k])
    {
      assert trace.roots[..k + 1][..k] == trace.roots[..k];
      RenderSpan(text, trace.roots[k], 0);
    }
    assert trace.roots[..|trace.roots|] == trace.roots;
    lines := text.lines;
    outside := |trace.loose|;
  }

  /** Rendering a trace writes each of its spans once and each event inside them once. */
  lemma {:induction false} TraceLinesHold(roots: seq<Span>)
    ensures LineSpans(LinesAll(roots)) == multiset(FlattenAll(roots))
    ensures LineEvents(LinesAll(roots)) == multiset(EventsIn(FlattenAll(roots)))
  {
    hide Lines, Flatten, EventsIn, LineSpans, LineEvents;
    if roots == [] {
      NoLines();
    } else {
      var last := |roots| - 1;
      TraceLinesHold(roots[..last]);
      LinesHold(roots[last], 0);
      LinesConcat(LinesAll(roots[..last]), Lines(roots[last], 0));
      EventsInConcat(FlattenAll(roots[..last]), Flatten(roots[last]));
    }
  }

  lemma NoLines()
    ensures LineSpans([]) == multiset{} && LineEvents([]) == multiset{} && EventsIn([]) == []
  {
  }
}
