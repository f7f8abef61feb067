/** The tracker of open spans, a fold of the events seen. */
module LiveSpans {
  import opened Events
  import opened Sorting
  import opened TraceSpan

  datatype Tracker = Tracker(open: map<nat, Span>, order: map<nat, nat>, next: nat, starts: nat, ends: nat)

  const EMPTY := Tracker(map[], map[], 0, 0, 0)

  function Begun(t: Tracker, e: Event): Tracker {
    Tracker(t.open[e.spanId := NewSpan(e)], t.order[e.spanId := t.next], t.next + 1, t.starts + 1, t.ends)
  }

  function Finished(t: Tracker, e: Event): Tracker {
    if e.spanId !in t.open then t
    else Tracker(t.open - {e.spanId}, t.order - {e.spanId}, t.next, t.starts, t.ends + 1)
  }

  function Observed(t: Tracker, e: Event): Tracker {
    match e.kind
    case SpanStarted => Begun(t, e)
    case SpanEnded => Finished(t, e)
    case _ => t
  }

  /** The tracker after a whole history. */
  function Track(events: seq<Event>): Tracker {
    if events == [] then EMPTY else Observed(Track(events[..|events| - 1]), events[|events| - 1])
  }

  function OrderKey(order: map<nat, nat>): Span -> Key {
    (s: Span) => Key(if s.id in order then order[s.id] else 0, 0)
  }

  /** What every method keeps: the two maps agree, and no two open spans share a place in the order. */
  ghost predicate Consistent(t: Tracker) {
    && t.open.Keys == t.order.Keys
    && (forall id :: id in t.open ==> t.open[id].id == id && IsOpen(t.open[id]) && t.order[id] < t.next)
    && (forall a, b :: a in t.order && b in t.order && a != b ==> t.order[a] != t.order[b])
  }

  lemma ObservedConsistent(t: Tracker, e: Event)
    requires Consistent(t)
    ensures Consistent(Observed(t, e))
  {
  }

  lemma {:induction false} TrackConsistent(events: seq<Event>)
    ensures Consistent(Track(events))
  {
    if events != [] {
      hide Consistent;
      TrackConsistent(events[..|events| - 1]);
      ObservedConsistent(Track(events[..|events| - 1]), events[|events| - 1]);
    } else {
      assert Consistent(EMPTY);
    }
  }

  /** What the tracker lists: the open spans, by the places they took. */
  ghost predicate IsListing(spans: seq<Span>, events: seq<Event>) {
    && Ascending(spans, OrderKey(Track(events).order))
    && forall s :: s in spans <==> s.id in Track(events).open && s == Track(events).open[s.id]
  }

  class Spans {
    var open: map<nat, Span>
    var order: map<nat, nat>
    var next: nat
    var starts: nat
    var ends: nat
    ghost var history: seq<Event>

    ghost predicate Valid()
      reads this
    {
      Tracker(open, order, next, starts, ends) == Track(history)
    }

    constructor ()
      ensures Valid() && history == []
    {
      open, order, next, starts, ends, history := map[], map[], 0, 0, 0, [];
    }

    method Observe(event: Event)
      requires Valid()
      modifies this
      ensures Valid() && history == old(history) + [event]
    {
      history := history + [event];
      assert history[..|history| - 1] == old(history);
      match event.kind
      case SpanStarted => Begin(event);
      case SpanEnded => Finish(event);
      case _ =>
    }

    method Begin(event: Event)
      modifies this`open, this`order, this`next, this`starts
      ensures Tracker(open, order, next, starts, ends) == Begun(old(Tracker(open, order, next, starts, ends)), event)
    {
      open := open[event.spanId := NewSpan(event)];
      order := order[event.spanId := next];
      next := next + 1;
      starts := starts + 1;
    }

    method Finish(event: Event)
      modifies this`open, this`order, this`ends
      ensures Tracker(open, order, next, starts, ends) == Finished(old(Tracker(open, order, next, starts, ends)), event)
    {
      if event.spanId !in open { return; }
      open := open - {event.spanId};
      order := order - {event.spanId};
      ends := ends + 1;
    }

    /** The open spans by the places they took; the order the map is visited in does not matter. */
    method Open() returns (spans: seq<Span>)
      requires Valid()
      ensures IsListing(spans, history)
    {
      TrackConsistent(history);
      spans := [];
      var rest := open.Keys;
      while rest != {}
        invariant rest <= open.Keys
        invariant KeysDistinct(spans, OrderKey(order))
        invariant forall s :: s in spans <==> s.id in open && s.id !in rest && s == open[s.id]
      {
        var id :| id in rest;
        forall i | 0 <= i < |spans| ensures OrderKey(order)(spans[i]) != OrderKey(order)(open[id]) {
          assert spans[i] in spans;
        }
        spans := spans + [open[id]];
        rest := rest - {id};
      }
      SortAscending(spans, OrderKey(order));
      SortMembers(spans, OrderKey(order));
      spans := StableSort(spans, OrderKey(order));
    }

    method Count() returns (count: nat)
      requires Valid()
      ensures count == |Track(history).open|
    {
      count := |open|;
    }
  }
}
