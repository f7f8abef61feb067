/** What the walk's depths say: how many ancestors a span has, and from that the nesting itself. */
module TraceWalk {
  import opened Events
  import opened Forest
  import opened TraceSpan
  import opened TraceAssemble
  import opened TraceProperties
  import opened TraceRender

  // ---------- Depth is the number of ancestors ----------

  ghost predicate AtDepth(links: Links, visits: seq<Visit>) {
    forall v :: v in visits ==> HasDepth(links, v.span.id, v.depth)
  }

  lemma {:induction false} TreeVisits(records: map<nat, Span>, id: nat, d: nat)
    requires Filed(records) && HasDepth(LinksOf(records), id, d)
    ensures AtDepth(LinksOf(records), Visits(SpanTree(records, id, d), d))
    decreases |LinksOf(records)| - d, 0, 0
  {
    hide HasDepth, Arrange;
    var links := LinksOf(records);
    ChildrenAtDepth(links, id, d);
    IsIn(links, id, d);
    TreesVisits(records, Arrange(links, Children(links, id)), d + 1);
  }

  lemma {:induction false} TreesVisits(records: map<nat, Span>, ids: seq<nat>, d: nat)
    requires Filed(records) && AllAtDepth(LinksOf(records), ids, d)
    ensures AtDepth(LinksOf(records), VisitsAll(SpanTrees(records, ids, d), d))
    decreases |LinksOf(records)| - d, 1, |ids|
  {
    hide HasDepth;
    if ids != [] {
      var last := |ids| - 1;
      TreesVisits(records, ids[..last], d);
      TreeVisits(records, ids[last], d);
      assert SpanTrees(records, ids, d)[..last] == SpanTrees(records, ids[..last], d);
    }
  }

  /** The depth a visitor is given is the number of enclosing spans between the span and its root. */
  lemma DepthIsAncestors(events: seq<Event>, v: Visit)
    requires v in VisitsAll(TraceOf(events).roots, 0)
    ensures HasDepth(LinksOf(Records(events)), v.span.id, v.depth)
  {
    hide HasDepth, Arrange;
    RecordsFiled(events);
    RootsAtDepth(LinksOf(Records(events)));
    TreesVisits(Records(events), Arrange(LinksOf(Records(events)), Roots(LinksOf(Records(events)))), 0);
  }

  // ---------- The depths rebuild the nesting ----------

  datatype Step = Step(id: nat, depth: nat)

  function StepsOf(visits: seq<Visit>): seq<Step> {
    seq(|visits|, i requires 0 <= i < |visits| => Step(visits[i].span.id, visits[i].depth))
  }

  function ShapeOf(span: Span): Tree { Node(span.id, ShapesOf(span.children)) }

  function ShapesOf(spans: seq<Span>): seq<Tree> {
    if spans == [] then [] else [ShapeOf(spans[0])] + ShapesOf(spans[1..])
  }

  /** Reads the trees at one depth off the front of a list, and what follows them. */
  function Rebuild(steps: seq<Step>, depth: nat): (r: (seq<Tree>, seq<Step>))
    ensures |r.1| <= |steps|
    decreases |steps|
  {
    if steps == [] || steps[0].depth != depth then ([], steps)
    else
      var (children, after) := Rebuild(steps[1..], depth + 1);
      var (siblings, rest) := Rebuild(after, depth);
      ([Node(steps[0].id, children)] + siblings, rest)
  }

  /** The walk's list, unfolded from the front. */
  function Trail(span: Span, depth: nat): seq<Step> { [Step(span.id, depth)] + TrailAll(span.children, depth + 1) }

  function TrailAll(spans: seq<Span>, depth: nat): seq<Step> {
    if spans == [] then [] else Trail(spans[0], depth) + TrailAll(spans[1..], depth)
  }

  lemma {:induction false} TrailAllSnoc(spans: seq<Span>, span: Span, depth: nat)
    ensures TrailAll(spans + [span], depth) == TrailAll(spans, depth) + Trail(span, depth)
  {
    if spans == [] {
      assert [] + [span] == [span] && [span][1..] == [];
    } else {
      assert (spans + [span])[1..] == spans[1..] + [span];
      TrailAllSnoc(spans[1..], span, depth);
    }
  }

  lemma {:induction false} VisitsTrail(span: Span, depth: nat)
    ensures StepsOf(Visits(span, depth)) == Trail(span, depth)
    decreases span, 0
  {
    VisitsAllTrail(span.children, depth + 1);
  }

  lemma {:induction false} VisitsAllTrail(spans: seq<Span>, depth: nat)
    ensures StepsOf(VisitsAll(spans, depth)) == TrailAll(spans, depth)
    decreases spans
  {
    if spans != [] {
      var last := |spans| - 1;
      assert spans == spans[..last] + [spans[last]];
      VisitsAllTrail(spans[..last], depth);
      VisitsTrail(spans[last], depth);
      TrailAllSnoc(spans[..last], spans[last], depth);
    }
  }

  ghost predicate Shallower(steps: seq<Step>, depth: nat) { steps == [] || steps[0].depth < depth }

  lemma {:induction false} TrailSplits(spans: seq<Span>, depth: nat, tail: seq<Step>)
    requires spans != []
    ensures var steps := TrailAll(spans, depth) + tail;
      && steps != [] && steps[0] == Step(spans[0].id, depth)
      && steps[1..] == TrailAll(spans[0].children, depth + 1) + (TrailAll(spans[1..], depth) + tail)
  {
    hide TrailAll;
    var inner, rest := TrailAll(spans[0].children, depth + 1), TrailAll(spans[1..], depth);
    assert TrailAll(spans, depth) == ([Step(spans[0].id, depth)] + inner) + rest by { TrailUnfolds(spans, depth); }
    assert TrailAll(spans, depth) + tail == [Step(spans[0].id, depth)] + (inner + (rest + tail));
  }

  lemma TrailUnfolds(spans: seq<Span>, depth: nat)
    requires spans != []
    ensures TrailAll(spans, depth)
      == ([Step(spans[0].id, depth)] + TrailAll(spans[0].children, depth + 1)) + TrailAll(spans[1..], depth)
  {
  }

  lemma RebuildsOne(steps: seq<Step>, depth: nat, inner: (seq<Tree>, seq<Step>), outer: (seq<Tree>, seq<Step>))
    requires steps != [] && steps[0].depth == depth
    requires Rebuild(steps[1..], depth + 1) == inner && Rebuild(inner.1, depth) == outer
    ensures Rebuild(steps, depth) == ([Node(steps[0].id, inner.0)] + outer.0, outer.1)
  {
  }

  lemma {:induction false} RebuildsAll(spans: seq<Span>, depth: nat, tail: seq<Step>)
    requires Shallower(tail, depth)
    ensures Rebuild(TrailAll(spans, depth) + tail, depth) == (ShapesOf(spans), tail)
    decreases spans
  {
    if spans == [] {
      assert TrailAll(spans, depth) + tail == tail;
    } else {
      hide Rebuild, TrailAll;
      var rest := TrailAll(spans[1..], depth) + tail;
      TrailStarts(spans[1..], depth);
      TrailSplits(spans, depth, tail);
      RebuildsAll(spans[0].children, depth + 1, rest);
      RebuildsAll(spans[1..], depth, tail);
      RebuildsOne(TrailAll(spans, depth) + tail, depth,
                  (ShapesOf(spans[0].children), rest), (ShapesOf(spans[1..]), tail));
    }
  }

  lemma TrailStarts(spans: seq<Span>, depth: nat)
    ensures if spans == [] then TrailAll(spans, depth) == []
            else TrailAll(spans, depth) != [] && TrailAll(spans, depth)[0].depth == depth
  {
  }

  /** The identities and depths a walk shows are enough to rebuild the nesting of any trace. */
  lemma WalkRebuilds(trace: Trace)
    ensures Rebuild(StepsOf(VisitsAll(trace.roots, 0)), 0) == (ShapesOf(trace.roots), [])
  {
    VisitsAllTrail(trace.roots, 0);
    RebuildsAll(trace.roots, 0, []);
    assert TrailAll(trace.roots, 0) + [] == TrailAll(trace.roots, 0);
  }
}
