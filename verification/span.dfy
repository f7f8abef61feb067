/** Spans as values: opening, closing, and the merge of attributes. */
module TraceSpan {
  import opened Events
  import opened Sequences
  import opened Sorting

  datatype Span = Span(
    id: nat, parentId: nat, name: string, source: string, fiberId: nat,
    startTime: Time, endTime: Time, duration: int, status: Status,
    attributes: seq<Attribute>, children: seq<Span>, events: seq<Event>)

  predicate IsOpen(span: Span) { span.endTime == ZERO_TIME }

  predicate IsUnsuccessful(span: Span) {
    match span.status
    case Failed | Defective | Interrupted => true
    case _ => false
  }

  /** The open span that a start event makes. */
  function NewSpan(event: Event): Span {
    Span(event.spanId, event.parentId, event.operation, event.source, event.fiberId,
         event.timestamp, ZERO_TIME, 0, NoStatus, event.attributes, [], [])
  }

  function NotAmong(attributes: seq<Attribute>): Attribute -> bool { (a: Attribute) => a !in attributes }

  function Merged(attributes: seq<Attribute>, more: seq<Attribute>): seq<Attribute> {
    attributes + Filter(more, NotAmong(attributes))
  }

  function Ended(span: Span, event: Event): Span {
    span.(endTime := event.timestamp, duration := event.duration, status := event.status,
          attributes := Merged(span.attributes, event.attributes))
  }

  method MergeAttributes(attributes: seq<Attribute>, more: seq<Attribute>) returns (union: seq<Attribute>)
    ensures union == Merged(attributes, more)
  {
    union := attributes;
    for k := 0 to |more|
      invariant union == attributes + Filter(more[..k], NotAmong(attributes))
    {
      assert more[..k + 1] == more[..k] + [more[k]];
      FilterSnoc(more[..k], more[k], NotAmong(attributes));
      if more[k] in attributes { continue; }
      union := union + [more[k]];
    }
    assert more[..|more|] == more;
  }

  /** The start's attributes stay as they were; the end adds those the start does not carry. */
  lemma MergedHolds(attributes: seq<Attribute>, more: seq<Attribute>)
    ensures attributes <= Merged(attributes, more)
    ensures forall a :: a in Merged(attributes, more) <==> a in attributes || a in more
    ensures (forall a :: a in more ==> a in attributes) ==> Merged(attributes, more) == attributes
  {
    FilterMembers(more, NotAmong(attributes));
    if forall a :: a in more ==> a in attributes { FilterNothing(more, NotAmong(attributes)); }
  }

  /** What the end adds, by position: each of its attributes the start does not carry with that value, in its order. */
  lemma MergedAdds(attributes: seq<Attribute>, more: seq<Attribute>) returns (at: seq<nat>)
    ensures Rising(at) && |Merged(attributes, more)| == |attributes| + |at|
    ensures forall k :: 0 <= k < |at| ==> at[k] < |more| && Merged(attributes, more)[|attributes| + k] == more[at[k]]
    ensures forall p :: 0 <= p < |more| ==> (p in at <==> more[p] !in attributes)
  {
    hide Filter;
    at := FilterPositions(more, NotAmong(attributes));
  }

  method EndSpan(span: Span, event: Event) returns (ended: Span)
    ensures ended == Ended(span, event)
  {
    var attributes := MergeAttributes(span.attributes, event.attributes);
    ended := span.(endTime := event.timestamp, duration := event.duration, status := event.status,
                   attributes := attributes);
  }

  /** What siblings are ordered by. */
  function SpanKey(span: Span): Key { Key(span.startTime, span.id) }

  function EventKey(event: Event): Key { Key(event.timestamp, 0) }

  // ---------- Reading a span ----------

  /** The span and its descendants, parents before children. */
  function Flatten(span: Span): seq<Span> { [span] + FlattenAll(span.children) }

  function FlattenAll(spans: seq<Span>): seq<Span> {
    if spans == [] then [] else FlattenAll(spans[..|spans| - 1]) + Flatten(spans[|spans| - 1])
  }
}
