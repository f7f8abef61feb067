/** What the open spans say about the history, and that they agree with the assembled trace. */
module LiveSpanProperties {
  import opened Events
  import opened Sequences
  import opened Sorting
  import opened Forest
  import opened TraceSpan
  import opened TraceAssemble
  import opened TraceProperties
  import opened TraceConservation
  import opened LiveSpans
  import opened MapSums

  lemma {:induction false} TrackSnoc(events: seq<Event>, e: Event)
    ensures Track(events + [e]) == Observed(Track(events), e)
  {
    assert (events + [e])[..|events|] == events;
  }

  // ---------- Counting ----------

  /** How often an identity was started again while still open. */
  function Restarts(events: seq<Event>): nat {
    if events == [] then 0
    else
      var front, e := events[..|events| - 1], events[|events| - 1];
      Restarts(front) + if IsStart(e) && e.spanId in Track(front).open then 1 else 0
  }

  /** The gap between starts and ends is the open spans, and one more for each restart. */
  lemma {:induction false} StartsAndEnds(events: seq<Event>)
    ensures var t := Track(events);
      && t.starts == |Filter(events, Starts())|
      && t.starts == t.ends + |t.open| + Restarts(events)
  {
    if events != [] {
      var front, e := events[..|events| - 1], events[|events| - 1];
      StartsAndEnds(front);
      MapGrows(Track(front).open, e.spanId, NewSpan(e));
    }
  }

  /** An end nothing open matches changes nothing: it is not counted either. */
  lemma {:induction false} UnknownEndIgnored(events: seq<Event>, e: Event)
    requires IsEnd(e)
    ensures Track(events + [e]) == Track(events) <==> e.spanId !in Track(events).open
  {
    TrackSnoc(events, e);
  }

  function Ends(): Event -> bool { (e: Event) => IsEnd(e) }

  /** So every end is counted only in a history whose every end closes a span open at that point. */
  lemma {:induction false} EndsCountedIff(events: seq<Event>)
    ensures Track(events).ends <= |Filter(events, Ends())|
    ensures Track(events).ends == |Filter(events, Ends())| <==>
      forall k :: 0 <= k < |events| && IsEnd(events[k]) ==> events[k].spanId in Track(events[..k]).open
  {
    if events != [] {
      var last := |events| - 1;
      var front := events[..last];
      EndsCountedIff(front);
      forall k | 0 <= k < last ensures front[..k] == events[..k] {}
      if forall k :: 0 <= k < |events| && IsEnd(events[k]) ==> events[k].spanId in Track(events[..k]).open {
        forall k | 0 <= k < last && IsEnd(front[k]) ensures front[k].spanId in Track(front[..k]).open {
          assert events[k].spanId in Track(events[..k]).open;
        }
      }
    }
  }

  const LONE_END := Event(SpanEnded, 7, 0, 0, 0, "", "", 1, 1, 0, Succeeded, 0, [])

  /** One end that nothing started is not counted. */
  lemma {:induction false} LoneEndUncounted()
    ensures Track([LONE_END]).ends == 0 && |Filter([LONE_END], Ends())| == 1
  {
    TrackSnoc([], LONE_END);
    FilterSnoc([], LONE_END, Ends());
    assert [] + [LONE_END] == [LONE_END];
  }

  // ---------- Which spans are open ----------

  function BoundaryOf(id: nat): Event -> bool { (e: Event) => (IsStart(e) || IsEnd(e)) && e.spanId == id }

  /** A span is open when the last boundary seen of it is a start, and reads as that start. */
  lemma {:induction false} OpenIsLastStarted(events: seq<Event>, id: nat)
    ensures var bs := Filter(events, BoundaryOf(id));
      && (id in Track(events).open <==> bs != [] && IsStart(bs[|bs| - 1]))
      && (id in Track(events).open ==> Track(events).open[id] == NewSpan(bs[|bs| - 1]))
  {
    if events != [] { OpenIsLastStarted(events[..|events| - 1], id); }
  }

  /** Where the last start of an identity stands in the history. */
  function LastStartAt(events: seq<Event>, id: nat): nat
    requires id in Started(events)
  {
    var last := |events| - 1;
    if IsStart(events[last]) && events[last].spanId == id then last
    else
      assert events == events[..last] + [events[last]];
      LastStartAt(events[..last], id)
  }

  lemma {:induction false} OpenStarted(events: seq<Event>, id: nat)
    requires id in Track(events).open
    ensures id in Started(events)
  {
    var front, e := events[..|events| - 1], events[|events| - 1];
    assert events == front + [e];
    if IsStart(e) && e.spanId == id {
      assert e in events;
    } else {
      OpenStarted(front, id);
    }
  }

  /** Open spans are listed in the order their last starts came, which need not be the order of their times. */
  lemma {:induction false} OpenInStartOrder(events: seq<Event>, a: nat, b: nat)
    requires a in Track(events).open && b in Track(events).open && a != b
    ensures a in Started(events) && b in Started(events)
    ensures a in Track(events).order && b in Track(events).order
    ensures Track(events).order[a] < Track(events).order[b] <==> LastStartAt(events, a) < LastStartAt(events, b)
  {
    hide Started;
    var front, e := events[..|events| - 1], events[|events| - 1];
    OpenStarted(events, a);
    OpenStarted(events, b);
    TrackConsistent(events);
    TrackConsistent(front);
    if IsStart(e) && (e.spanId == a || e.spanId == b) {
      var other := if e.spanId == a then b else a;
      OpenStarted(front, other);
      LastStartBound(front, other);
    } else {
      OpenInStartOrder(front, a, b);
    }
  }

  lemma {:induction false} LastStartBound(events: seq<Event>, id: nat)
    requires id in Started(events)
    ensures LastStartAt(events, id) < |events|
  {
    var last := |events| - 1;
    if !(IsStart(events[last]) && events[last].spanId == id) {
      assert events == events[..last] + [events[last]];
      LastStartBound(events[..last], id);
    }
  }

  /** An open span whose last start came before that of every other. */
  ghost predicate CameFirst(events: seq<Event>, a: nat) {
    && a in Started(events)
    && forall b :: b in Track(events).open ==> b in Started(events) && LastStartAt(events, a) <= LastStartAt(events, b)
  }

  /** The first span listed has been running longest exactly when the first start to come carries the earliest time. */
  lemma FirstListedIsOldestIff(events: seq<Event>, spans: seq<Span>)
    requires IsListing(spans, events) && spans != []
    ensures var open := Track(events).open;
      (forall s :: s in spans ==> spans[0].startTime <= s.startTime) <==>
      exists a :: a in open && CameFirst(events, a) && forall b :: b in open ==> open[a].startTime <= open[b].startTime
  {
    hide Track, CameFirst;
    var open, first := Track(events).open, spans[0].id;
    assert spans[0] in spans;
    forall b | b in open ensures CameFirst(events, b) <==> b == first { FirstCameFirst(events, spans, b); }
    if forall s :: s in spans ==> spans[0].startTime <= s.startTime {
      forall b | b in open ensures open[first].startTime <= open[b].startTime {
        ListedFirst(events, spans, b);
        assert open[b] in spans;
      }
    }
  }

  lemma FirstCameFirst(events: seq<Event>, spans: seq<Span>, a: nat)
    requires IsListing(spans, events) && spans != [] && a in Track(events).open
    ensures CameFirst(events, a) <==> a == spans[0].id
  {
    hide Track, LastStartAt, Started;
    assert spans[0] in spans;
    forall b | b in Track(events).open
      ensures spans[0].id in Started(events) && b in Started(events)
      ensures b == spans[0].id || LastStartAt(events, spans[0].id) < LastStartAt(events, b)
    {
      ListedFirst(events, spans, b);
    }
  }

  lemma ListedFirst(events: seq<Event>, spans: seq<Span>, b: nat)
    requires IsListing(spans, events) && spans != [] && b in Track(events).open
    ensures spans[0].id in Started(events) && b in Started(events) && Track(events).open[b] in spans
    ensures b == spans[0].id || LastStartAt(events, spans[0].id) < LastStartAt(events, b)
  {
    hide Track, LastStartAt, Started;
    TrackConsistent(events);
    assert spans[0] in spans;
    OpenStarted(events, spans[0].id);
    OpenStarted(events, b);
    var s := Track(events).open[b];
    assert s in spans;
    var i :| 0 <= i < |spans| && spans[i] == s;
    if b != spans[0].id {
      OpenInStartOrder(events, spans[0].id, b);
      assert Less(OrderKey(Track(events).order)(spans[0]), OrderKey(Track(events).order)(spans[i]));
    }
  }

  /** Two starts against the clock: the first listed is not the one running longest. */
  lemma FirstListedCanBeYounger(a: Event, b: Event, spans: seq<Span>)
    requires IsStart(a) && IsStart(b) && a.spanId != b.spanId && b.timestamp < a.timestamp
    requires IsListing(spans, [a, b])
    ensures |spans| == 2 && spans[0] == NewSpan(a) && spans[1] == NewSpan(b)
    ensures spans[1].startTime < spans[0].startTime
  {
    TrackSnoc([], a);
    TrackSnoc([a], b);
    assert [] + [a] == [a] && [a] + [b] == [a, b];
    var t := Track([a, b]);
    assert t.open == map[a.spanId := NewSpan(a), b.spanId := NewSpan(b)];
    var both := [NewSpan(a), NewSpan(b)];
    AscendingUnique(spans, both, OrderKey(t.order));
  }

  // ---------- Agreement with the fold ----------

  ghost predicate EndsAfter(events: seq<Event>) {
    forall i, j ::
      (0 <= i < |events| && 0 <= j < |events| && IsStart(events[i]) && IsEnd(events[j])
       && events[i].spanId == events[j].spanId) ==> i < j
  }

  /** The ends of started spans come after every start of theirs, and the last of them carries a time. */
  ghost predicate EndsFollow(events: seq<Event>) {
    && EndsAfter(events)
    && (forall id :: id in Started(events) && Filter(events, EndOf(id)) != [] ==>
          var ends := Filter(events, EndOf(id)); ends[|ends| - 1].timestamp != ZERO_TIME)
  }

  lemma {:induction false} OpenHasNoEnd(events: seq<Event>, id: nat)
    requires EndsAfter(events)
    ensures id in Track(events).open <==> id in Started(events) && Filter(events, EndOf(id)) == []
  {
    hide Started;
    if events == [] {
      assert Started([]) == {} by { NothingStarted(); }
    } else {
      var front, e := events[..|events| - 1], events[|events| - 1];
      assert events == front + [e];
      StartedSnoc(front, e);
      assert EndsAfter(front);
      OpenHasNoEnd(front, id);
      if IsStart(e) && e.spanId == id {
        FilterMembers(front, EndOf(id));
        FilterNothing(front, EndOf(id));
      }
    }
  }

  lemma NothingStarted()
    ensures Started([]) == {}
  {
  }

  lemma StartedSnoc(events: seq<Event>, e: Event)
    ensures Started(events + [e]) == Started(events) + if IsStart(e) then {e.spanId} else {}
  {
  }

  /** In the trace, a span is open when it has no end, or its last end carries no time. */
  lemma TraceOpen(events: seq<Event>, span: Span)
    requires span in TraceProperties.Spans(TraceOf(events))
    ensures var ends := Filter(events, EndOf(span.id));
      IsOpen(span) <==> ends == [] || ends[|ends| - 1].timestamp == ZERO_TIME
  {
    hide Filter, Started, TraceOf, LastStart;
    SpanHolds(events, span);
    EndTimeOf(NewSpan(LastStart(events, span.id)), Filter(events, EndOf(span.id)));
  }

  lemma {:induction false} OpenIsLastStart(events: seq<Event>, id: nat)
    requires id in Track(events).open
    ensures id in Started(events) && Track(events).open[id] == NewSpan(LastStart(events, id))
  {
    var front, e := events[..|events| - 1], events[|events| - 1];
    assert events == front + [e];
    OpenStarted(events, id);
    LastStartSnoc(front, e, id);
    if !(IsStart(e) && e.spanId == id) { OpenIsLastStart(front, id); }
  }

  /** An open span of the trace, less what is inside it, is the span the live view holds. */
  lemma OpenSpansAgree(events: seq<Event>, span: Span)
    requires EndsFollow(events) && span in TraceProperties.Spans(TraceOf(events)) && IsOpen(span)
    ensures span.id in Track(events).open && Track(events).open[span.id] == span.(children := [], events := [])
  {
    hide Filter, Started, TraceOf, LastStart;
    TraceOpen(events, span);
    SpanHolds(events, span);
    OpenHasNoEnd(events, span.id);
    OpenIsLastStart(events, span.id);
  }

  /** What an open span has of a duration, a status or a failure is what an end without a time last gave it. */
  lemma OpenSpanMeasuredIff(events: seq<Event>, span: Span)
    requires span in TraceProperties.Spans(TraceOf(events)) && IsOpen(span)
    ensures var ends := Filter(events, EndOf(span.id));
      && (span.duration == 0 <==> ends == [] || ends[|ends| - 1].duration == 0)
      && (span.status == NoStatus <==> ends == [] || ends[|ends| - 1].status == NoStatus)
      && (ends != [] ==> span.status == ends[|ends| - 1].status)
  {
    hide Filter, Started, TraceOf, LastStart;
    SpanReads(events, span);
  }

  /** An end without a time leaves its span open, with that end's duration and status. */
  lemma TimelessEndMeasures(start: Event, end: Event)
    requires IsStart(start) && IsEnd(end) && end.spanId == start.spanId && end.timestamp == ZERO_TIME
    ensures var roots := TraceOf([start, end]).roots;
      roots != [] && IsOpen(roots[0]) && roots[0].duration == end.duration && roots[0].status == end.status
  {
    hide TraceOf, LastStart, Filter, Records;
    var events, id := [start, end], start.spanId;
    var roots := TraceOf(events).roots;
    assert Started(events) == {id} by { assert start in events; }
    hide Started;
    RecordsFiled(events);
    RootsInOrder(events);
    assert id in IdsOf(roots);
    RootInTrace(roots);
    SpanReads(events, roots[0]);
    assert roots[0].id == id by { assert roots[0].id in Started(events); }
    OnlyEnd(start, end);
  }

  lemma OnlyEnd(start: Event, end: Event)
    requires IsStart(start) && IsEnd(end)
    ensures Filter([start, end], EndOf(end.spanId)) == [end]
  {
    FilterSnoc([start], end, EndOf(end.spanId));
    FilterSnoc([], start, EndOf(end.spanId));
    assert [] + [start] == [start] && [start] + [end] == [start, end];
  }

  lemma {:induction false} RootInTrace(roots: seq<Span>)
    requires roots != []
    ensures roots[0] in FlattenAll(roots)
  {
    if |roots| > 1 { RootInTrace(roots[..|roots| - 1]); }
  }

  function OpenOf(spans: seq<Span>): seq<Span> { Filter(spans, IsOpen) }

  /** What the live view has open is in the trace, open. */
  lemma OpenIsInTrace(events: seq<Event>, id: nat)
    requires EndsAfter(events) && id in Track(events).open
    requires forall i :: i in Started(events) ==> !RunsIntoCycle(LinksOf(Records(events)), i)
    ensures id in IdsOf(OpenOf(TraceProperties.Spans(TraceOf(events))))
  {
    hide Filter, Started, TraceOf, LastStart, EndsAfter, RunsIntoCycle;
    var spans := TraceProperties.Spans(TraceOf(events));
    OpenHasNoEnd(events, id);
    AcyclicLosesNothing(events);
    DistinctFromMultiset(IdsOf(spans), Started(events));
    FilterMembers(spans, IsOpen);
    var i :| 0 <= i < |spans| && IdsOf(spans)[i] == id;
    TraceOpen(events, spans[i]);
    assert spans[i] in spans;
    var j :| 0 <= j < |OpenOf(spans)| && OpenOf(spans)[j] == spans[i];
    assert IdsOf(OpenOf(spans))[j] == id;
  }

  /** The live view and the fold report the same open spans. */
  lemma LiveAgreesWithTrace(events: seq<Event>, id: nat)
    requires EndsFollow(events)
    requires forall i :: i in Started(events) ==> !RunsIntoCycle(LinksOf(Records(events)), i)
    ensures id in Track(events).open <==> id in IdsOf(OpenOf(TraceProperties.Spans(TraceOf(events))))
  {
    hide Filter, Started, TraceOf, LastStart, EndsAfter, RunsIntoCycle;
    var spans := TraceProperties.Spans(TraceOf(events));
    if id in Track(events).open { OpenIsInTrace(events, id); }
    if id in IdsOf(OpenOf(spans)) {
      var j :| 0 <= j < |OpenOf(spans)| && IdsOf(OpenOf(spans))[j] == id;
      FilterMembers(spans, IsOpen);
      assert OpenOf(spans)[j] in OpenOf(spans);
      OpenSpansAgree(events, OpenOf(spans)[j]);
    }
  }
}
