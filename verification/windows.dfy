/** Assembling a window of a history instead of the whole of it. */
module TraceWindows {
  import opened Events
  import opened Sequences
  import opened Sorting
  import opened Forest
  import opened TraceSpan
  import opened TraceAssemble
  import opened TraceProperties
  import opened Rings

  /** The last start of a span that started in the window is in the window. */
  lemma WindowStart(before: seq<Event>, window: seq<Event>, id: nat)
    requires id in Started(window)
    ensures id in Started(before + window) && LastStart(before + window, id) == LastStart(window, id)
  {
    hide Filter;
    FilterConcat(before, window, StartOf(id));
    StartedHasStart(window, id);
    StartedHasStart(before + window, id);
  }

  /** A parent edge survives in a window exactly when both spans started inside it. */
  lemma WindowKeepsEdges(before: seq<Event>, window: seq<Event>, p: nat, c: nat)
    ensures Encloses(LinksOf(Records(window)), p, c) <==>
      Encloses(LinksOf(Records(before + window)), p, c) && p in Started(window) && c in Started(window)
  {
    hide Filter, Started, LastStart;
    if p in Started(window) && c in Started(window) {
      WindowStart(before, window, p);
      WindowStart(before, window, c);
    }
  }

  /** A span is a root of the window when it is one of the whole, or its parent started earlier. */
  lemma WindowRoots(before: seq<Event>, window: seq<Event>, id: nat)
    requires id in Started(window)
    ensures id in Started(before + window)
    ensures IsRoot(LinksOf(Records(window)), id) <==>
      IsRoot(LinksOf(Records(before + window)), id)
      || LinksOf(Records(before + window))[id].parent !in Started(window)
  {
    hide Filter, Started, LastStart;
    WindowStart(before, window, id);
    var p := LastStart(window, id).parentId;
    if p in Started(window) { WindowStart(before, window, p); }
  }

  /** The events a window leaves out. */
  function Forgotten(history: seq<Event>, capacity: nat): (before: seq<Event>)
    ensures before + LastOf(history, capacity) == history
  {
    history[..|history| - |LastOf(history, capacity)|]
  }

  /** In the trace of a window, a span's children are those of the whole history that started in the window. */
  lemma WindowChildren(history: seq<Event>, capacity: nat, span: Span, c: nat)
    requires span in Spans(TraceOf(LastOf(history, capacity)))
    ensures c in IdsOf(span.children) <==>
      Encloses(LinksOf(Records(history)), span.id, c) && c in Started(LastOf(history, capacity))
  {
    hide Filter, Started, LastStart, TraceOf, LastOf, Encloses, LinksOf, Records, EndAll, StableSort;
    var window := LastOf(history, capacity);
    SpanHolds(window, span);
    WindowKeepsEdges(Forgotten(history, capacity), window, span.id, c);
  }

  /** Its roots are the spans started in the window whose parent did not, or is the span itself. */
  lemma WindowRootsAre(history: seq<Event>, capacity: nat, c: nat)
    ensures var window, links := LastOf(history, capacity), LinksOf(Records(history));
      c in IdsOf(TraceOf(window).roots) <==>
        c in Started(window) && c in links && (links[c].parent !in Started(window) || links[c].parent == c)
  {
    hide Filter, LastStart, TraceOf, LastOf, EndAll, StableSort, Started;
    var window := LastOf(history, capacity);
    var before := Forgotten(history, capacity);
    RootsInOrder(window);
    if c in Started(window) {
      WindowRoots(before, window, c);
      RecordsFiled(history);
      var p := LinksOf(Records(history))[c].parent;
      if p in Started(window) { WindowStart(before, window, p); }
    }
  }
}
