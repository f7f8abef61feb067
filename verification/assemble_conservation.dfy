/** No event is lost by assembling, and the order the events came in does not matter. */
module TraceConservation {
  import opened Events
  import opened Sequences
  import opened Sorting
  import opened Forest
  import opened TraceSpan
  import opened TraceAssemble
  import opened TraceProperties

  // ---------- Conservation ----------

  /** The events of a list of spans, in turn. */
  function EventsIn(spans: seq<Span>): seq<Event> {
    if spans == [] then [] else EventsIn(spans[..|spans| - 1]) + spans[|spans| - 1].events
  }

  function InsideAny(ids: set<nat>): Event -> bool { (e: Event) => !IsStart(e) && !IsEnd(e) && e.spanId in ids }

  function EndOfAny(ids: set<nat>): Event -> bool { (e: Event) => IsEnd(e) && e.spanId in ids }

  function Starts(): Event -> bool { (e: Event) => IsStart(e) }

  lemma {:induction false} FilterSplits(xs: seq<Event>, p: Event -> bool, q: Event -> bool, either: Event -> bool)
    requires forall x :: either(x) <==> p(x) || q(x)
    requires forall x :: !(p(x) && q(x))
    ensures multiset(Filter(xs, either)) == multiset(Filter(xs, p)) + multiset(Filter(xs, q))
  {
    var a, b := multiset(Filter(xs, either)), multiset(Filter(xs, p)) + multiset(Filter(xs, q));
    forall x: Event ensures a[x] == b[x] {
      FilterCount(xs, either, x);
      FilterCount(xs, p, x);
      FilterCount(xs, q, x);
    }
    SameCounts(a, b);
  }

  /** Spans of distinct identities, each holding its own events, hold just the events of those identities. */
  lemma {:induction false} OwnEvents(events: seq<Event>, spans: seq<Span>)
    requires Distinct(IdsOf(spans))
    requires forall s :: s in spans ==> s.events == StableSort(Filter(events, InsideOf(s.id)), EventKey)
    ensures multiset(EventsIn(spans)) == multiset(Filter(events, InsideAny(set s | s in spans :: s.id)))
  {
    hide StableSort, Filter;
    if spans == [] {
      FilterNothing(events, InsideAny({}));
      assert (set s | s in spans :: s.id) == {};
    } else {
      var last := |spans| - 1;
      var front, s := spans[..last], spans[last];
      assert IdsOf(front) == IdsOf(spans)[..last];
      OwnEvents(events, front);
      var before := set s | s in front :: s.id;
      LastIdFresh(spans);
      assert (set s | s in spans :: s.id) == before + {s.id} by { assert spans == front + [s]; }
      SortMultiset(Filter(events, InsideOf(s.id)), EventKey);
      FilterSplits(events, InsideAny(before), InsideOf(s.id), InsideAny(before + {s.id}));
    }
  }

  lemma LastIdFresh(spans: seq<Span>)
    requires spans != [] && Distinct(IdsOf(spans))
    ensures spans[|spans| - 1].id !in set s | s in spans[..|spans| - 1] :: s.id
  {
    var last := |spans| - 1;
    forall s | s in spans[..last] ensures s.id != spans[last].id {
      var i :| 0 <= i < last && spans[i] == s;
      assert IdsOf(spans)[i] != IdsOf(spans)[last];
    }
  }

  /** Started spans no root leads to; they, and the events inside them, are not in the trace. */
  ghost function Stranded(events: seq<Event>): set<nat> { Started(events) - Kept(events) }

  lemma DistinctFromMultiset(xs: seq<nat>, ids: set<nat>)
    requires multiset(xs) == multiset(ids)
    ensures Distinct(xs)
    ensures forall x :: x in xs <==> x in ids
  {
    forall i, j | 0 <= i < j < |xs| ensures xs[i] != xs[j] {
      if xs[i] == xs[j] { CountTwice(xs, i, j); }
    }
    forall x ensures x in xs <==> x in ids { assert x in xs <==> x in multiset(xs); }
  }

  lemma TraceEvents(events: seq<Event>)
    ensures multiset(EventsIn(Spans(TraceOf(events)))) == multiset(Filter(events, InsideAny(Kept(events))))
  {
    hide Started, StableSort, Filter, TraceOf, Reachable, EventsIn, LastStart, Placed;
    var spans := Spans(TraceOf(events));
    HoldsEachOnce(events);
    DistinctFromMultiset(IdsOf(spans), Kept(events));
    forall s | s in spans ensures s.events == StableSort(Filter(events, InsideOf(s.id)), EventKey) {
      SpanHolds(events, s);
    }
    OwnEvents(events, spans);
    assert (set s | s in spans :: s.id) == Kept(events) by { IdSet(spans, Kept(events)); }
  }

  lemma IdSet(spans: seq<Span>, ids: set<nat>)
    requires forall x :: x in IdsOf(spans) <==> x in ids
    ensures (set s | s in spans :: s.id) == ids
  {
    forall x | x in ids ensures exists s :: s in spans && s.id == x {
      assert x in IdsOf(spans);
      var i :| 0 <= i < |spans| && IdsOf(spans)[i] == x;
      assert spans[i] in spans;
    }
    forall s | s in spans ensures s.id in ids {
      var i :| 0 <= i < |spans| && spans[i] == s;
      assert IdsOf(spans)[i] == s.id;
    }
  }

  /**
   Every event goes to exactly one place: a start that opens its span, an end its span absorbs, an
   event inside one span of the trace, a loose event, or an event of a span no root leads to.
   */
  lemma AssembleConserves(events: seq<Event>)
    ensures var trace := TraceOf(events);
      multiset(events) == multiset(Filter(events, Starts())) + multiset(Filter(events, EndOfAny(Started(events))))
        + multiset(EventsIn(Spans(trace))) + multiset(trace.loose)
        + multiset(Filter(events, InsideAny(Stranded(events))))
  {
    hide Started, Filter, EventsIn, Reachable;
    TraceEvents(events);
    var started, kept := Started(events), Kept(events);
    assert kept <= started by { HoldsEachOnce(events); }
    var a, b := multiset(events), multiset(Filter(events, Starts())) + multiset(Filter(events, EndOfAny(started)))
      + multiset(Filter(events, InsideAny(kept))) + multiset(Filter(events, LooseIn(started)))
      + multiset(Filter(events, InsideAny(Stranded(events))));
    forall x: Event ensures a[x] == b[x] {
      FilterCount(events, Starts(), x);
      FilterCount(events, EndOfAny(started), x);
      FilterCount(events, InsideAny(kept), x);
      FilterCount(events, LooseIn(started), x);
      FilterCount(events, InsideAny(Stranded(events)), x);
    }
    SameCounts(a, b);
  }

  /** When no parent chain runs into a cycle, nothing is stranded and every started span is in the trace. */
  lemma AcyclicLosesNothing(events: seq<Event>)
    requires forall id :: id in Started(events) ==> !RunsIntoCycle(LinksOf(Records(events)), id)
    ensures multiset(IdsOf(Spans(TraceOf(events)))) == multiset(Started(events))
    ensures var trace := TraceOf(events);
      multiset(events) == multiset(Filter(events, Starts())) + multiset(Filter(events, EndOfAny(Started(events))))
        + multiset(EventsIn(Spans(trace))) + multiset(trace.loose)
  {
    hide Started, Filter, EventsIn, Reachable, TraceOf;
    HoldsEachOnce(events);
    assert Kept(events) == Started(events);
    AssembleConserves(events);
    FilterNothing(events, InsideAny(Stranded(events)));
  }

  /** The trace holds every started span exactly when no parent chain runs into a cycle. */
  lemma HoldsAllIffAcyclic(events: seq<Event>)
    ensures multiset(IdsOf(Spans(TraceOf(events)))) == multiset(Started(events)) <==>
      forall id :: id in Started(events) ==> !RunsIntoCycle(LinksOf(Records(events)), id)
  {
    hide Started, TraceOf, RunsIntoCycle, Reachable;
    HoldsEachOnce(events);
    var kept, started := Kept(events), Started(events);
    if multiset(kept) == multiset(started) {
      forall id ensures id in kept <==> id in started {
        assert id in kept <==> id in multiset(kept);
        assert id in started <==> id in multiset(started);
      }
    }
    if forall id :: id in started ==> !RunsIntoCycle(LinksOf(Records(events)), id) { assert kept == started; }
  }

  /** Two spans that name each other as parents are in no root, nor is anything that happened inside them. */
  lemma ParentCycleIsLost(a: Event, b: Event)
    requires IsStart(a) && IsStart(b) && a.spanId != b.spanId
    requires a.parentId == b.spanId && b.parentId == a.spanId
    ensures TraceOf([a, b]).roots == [] && Started([a, b]) == {a.spanId, b.spanId}
  {
    hide Started, TraceOf, LastStart, Filter, IsRoot;
    var events := [a, b];
    var links := LinksOf(Records(events));
    assert Started(events) == {a.spanId, b.spanId} by { BothStarted(a, b); }
    RecordsFiled(events);
    RootsInOrder(events);
    forall id ensures id !in IdsOf(TraceOf(events).roots) {
      if id in Started(events) { CycleHasNoRoot(a, b, id); }
    }
    EmptyIfNone(IdsOf(TraceOf(events).roots));
  }

  lemma {:induction false} BothStarted(a: Event, b: Event)
    requires IsStart(a) && IsStart(b)
    ensures Started([a, b]) == {a.spanId, b.spanId}
  {
    assert a in [a, b] && b in [a, b];
  }

  lemma CycleHasNoRoot(a: Event, b: Event, id: nat)
    requires IsStart(a) && IsStart(b) && a.spanId != b.spanId
    requires a.parentId == b.spanId && b.parentId == a.spanId
    requires id in Started([a, b])
    ensures !IsRoot(LinksOf(Records([a, b])), id)
  {
    hide Filter, LastStart;
    var events := [a, b];
    BothStarted(a, b);
    var links := LinksOf(Records(events));
    RecordsFiled(events);
    var start := LastStart(events, id);
    assert start in events && start.spanId == id && links[id].parent == start.parentId;
  }

  /** Identities handed out in order never form a cycle. */
  lemma EarlierParentsLoseNothing(events: seq<Event>)
    requires forall e :: e in events && IsStart(e) ==> e.parentId <= e.spanId
    ensures forall id :: id in Started(events) ==> !RunsIntoCycle(LinksOf(Records(events)), id)
    ensures multiset(IdsOf(Spans(TraceOf(events)))) == multiset(Started(events))
  {
    hide Started, Filter, EventsIn, Reachable, TraceOf, Reaches, RunsIntoCycle;
    var links := LinksOf(Records(events));
    RecordsFiled(events);
    forall id | id in links ensures links[id].parent <= id {
      assert links[id].parent == LastStart(events, id).parentId;
    }
    forall id | id in links ensures !RunsIntoCycle(links, id) {
      EarlierParentsReach(links, id);
      ReachesIffAcyclic(links, id);
    }
    AcyclicLosesNothing(events);
  }

  // ---------- Order ----------

  /** Each started span has one start, one end at most, and no two of its own events at the same instant. */
  ghost predicate Unambiguous(events: seq<Event>) {
    forall id :: id in Started(events) ==>
      |Filter(events, StartOf(id))| <= 1 && |Filter(events, EndOf(id))| <= 1
      && KeysDistinct(Filter(events, InsideOf(id)), EventKey)
  }

  lemma SameSingleton(xs: seq<Event>, ys: seq<Event>)
    requires multiset(xs) == multiset(ys) && |xs| <= 1
    ensures xs == ys
  {
    assert |multiset(xs)| == |multiset(ys)|;
    if |xs| == 1 {
      assert xs[0] in multiset(ys);
    }
  }

  lemma SameRecord(xs: seq<Event>, ys: seq<Event>, id: nat)
    requires multiset(xs) == multiset(ys) && Unambiguous(xs)
    ensures id in Started(xs) <==> id in Started(ys)
    ensures id in Started(xs) ==> Records(xs)[id] == Records(ys)[id]
  {
    hide Started, Filter, StableSort, EndAll;
    FilterPermuted(xs, ys, StartOf(id));
    StartedHasStart(xs, id);
    StartedHasStart(ys, id);
    if id in Started(xs) {
      FilterPermuted(xs, ys, EndOf(id));
      FilterPermuted(xs, ys, InsideOf(id));
      SameSingleton(Filter(xs, StartOf(id)), Filter(ys, StartOf(id)));
      SameSingleton(Filter(xs, EndOf(id)), Filter(ys, EndOf(id)));
      SortForgetsOrder(Filter(xs, InsideOf(id)), Filter(ys, InsideOf(id)), EventKey);
    } else {
      SameSingleton(Filter(xs, StartOf(id)), Filter(ys, StartOf(id)));
    }
  }

  /** The same events, in any order, assemble to the same roots and the same loose events. */
  lemma AssembleIgnoresOrder(xs: seq<Event>, ys: seq<Event>)
    requires multiset(xs) == multiset(ys) && Unambiguous(xs)
    ensures TraceOf(xs).roots == TraceOf(ys).roots
    ensures multiset(TraceOf(xs).loose) == multiset(TraceOf(ys).loose)
  {
    hide Started, Filter, Nesting, Unambiguous, Reading;
    forall id: nat
      ensures id in Started(xs) <==> id in Started(ys)
      ensures id in Started(xs) ==> Records(xs)[id] == Records(ys)[id]
    {
      SameRecord(xs, ys, id);
    }
    assert Started(xs) == Started(ys);
    assert Records(xs) == Records(ys);
    FilterPermuted(xs, ys, LooseIn(Started(xs)));
  }
}
