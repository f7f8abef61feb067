/** Assemble: the spans of a history, as a specification and as the loops that build and nest them. */
module TraceAssemble {
  import opened Events
  import opened Sequences
  import opened Sorting
  import opened Forest
  import opened TraceSpan

  datatype Trace = Trace(roots: seq<Span>, loose: seq<Event>)

  // ---------- What the events say of one span ----------

  predicate IsStart(e: Event) { e.kind.SpanStarted? }

  predicate IsEnd(e: Event) { e.kind.SpanEnded? }

  function StartOf(id: nat): Event -> bool { (e: Event) => IsStart(e) && e.spanId == id }

  function EndOf(id: nat): Event -> bool { (e: Event) => IsEnd(e) && e.spanId == id }

  /** Neither a start nor an end: what happened inside the span. */
  function InsideOf(id: nat): Event -> bool { (e: Event) => !IsStart(e) && !IsEnd(e) && e.spanId == id }

  function LooseIn(started: set<nat>): Event -> bool { (e: Event) => !IsStart(e) && e.spanId !in started }

  function Started(events: seq<Event>): set<nat> { set e | e in events && IsStart(e) :: e.spanId }

  lemma {:induction false} StartedHasStart(events: seq<Event>, id: nat)
    ensures id in Started(events) <==> Filter(events, StartOf(id)) != []
  {
    FilterMembers(events, StartOf(id));
    if id in Started(events) {
      var e :| e in events && IsStart(e) && e.spanId == id;
      assert e in Filter(events, StartOf(id));
    }
    if Filter(events, StartOf(id)) != [] { assert Filter(events, StartOf(id))[0] in Filter(events, StartOf(id)); }
  }

  /** A later start of the same identity replaces an earlier one. */
  function LastStart(events: seq<Event>, id: nat): (e: Event)
    requires id in Started(events)
    ensures IsStart(e) && e.spanId == id && e in events
  {
    StartedHasStart(events, id);
    FilterMembers(events, StartOf(id));
    var starts := Filter(events, StartOf(id));
    assert starts[|starts| - 1] in starts;
    starts[|starts| - 1]
  }

  function EndAll(span: Span, ends: seq<Event>): (r: Span)
    ensures r.id == span.id && r.parentId == span.parentId && r.startTime == span.startTime
    ensures r.children == span.children && r.events == span.events
  {
    if ends == [] then span else Ended(EndAll(span, ends[..|ends| - 1]), ends[|ends| - 1])
  }

  /** A span as the events up to some point describe it. */
  function Reading(events: seq<Event>, seen: seq<Event>, id: nat): (r: Span)
    requires id in Started(events)
    ensures r.id == id && r.children == []
  {
    EndAll(NewSpan(LastStart(events, id)), Filter(seen, EndOf(id))).(events := Filter(seen, InsideOf(id)))
  }

  function Readings(events: seq<Event>, seen: seq<Event>): map<nat, Span> {
    map id | id in Started(events) :: Reading(events, seen, id)
  }

  function Chronological(span: Span): Span { span.(events := StableSort(span.events, EventKey)) }

  /** Every started span, as all its events describe it, not yet nested. */
  function Records(events: seq<Event>): map<nat, Span> {
    map id | id in Started(events) :: Chronological(Reading(events, events, id))
  }

  // ---------- The trace ----------

  function LinksOf(records: map<nat, Span>): Links {
    map id | id in records :: Link(records[id].parentId, records[id].startTime)
  }

  ghost function SpanTree(records: map<nat, Span>, id: nat, d: nat): Span
    requires HasDepth(LinksOf(records), id, d)
    decreases |LinksOf(records)| - d, 0, 0
  {
    var links := LinksOf(records);
    ChildrenAtDepth(links, id, d);
    records[id].(children := SpanTrees(records, Arrange(links, Children(links, id)), d + 1))
  }

  ghost function SpanTrees(records: map<nat, Span>, ids: seq<nat>, d: nat): (ts: seq<Span>)
    requires AllAtDepth(LinksOf(records), ids, d)
    ensures |ts| == |ids|
    decreases |LinksOf(records)| - d, 1, |ids|
  {
    if ids == [] then []
    else SpanTrees(records, ids[..|ids| - 1], d) + [SpanTree(records, ids[|ids| - 1], d)]
  }

  ghost function Nesting(records: map<nat, Span>): seq<Span> {
    var links := LinksOf(records);
    RootsAtDepth(links);
    SpanTrees(records, Arrange(links, Roots(links)), 0)
  }

  ghost function TraceOf(events: seq<Event>): Trace {
    Trace(Nesting(Records(events)), Filter(events, LooseIn(Started(events))))
  }

  lemma {:induction false} SpanTreesAt(records: map<nat, Span>, ids: seq<nat>, d: nat, i: nat)
    requires AllAtDepth(LinksOf(records), ids, d) && i < |ids|
    ensures HasDepth(LinksOf(records), ids[i], d)
    ensures SpanTrees(records, ids, d)[i] == SpanTree(records, ids[i], d)
    decreases |ids|
  {
    if i < |ids| - 1 { SpanTreesAt(records, ids[..|ids| - 1], d, i); }
  }

  /** Each record is filed under its own identity and has no children yet. */
  ghost predicate Filed(records: map<nat, Span>) {
    forall id :: id in records ==> records[id].id == id && records[id].children == []
  }

  // ---------- Sorting siblings ----------

  /** The spans built for a set of identities, in whatever order they were visited. */
  ghost predicate Built(records: map<nat, Span>, ids: set<nat>, d: nat, built: seq<Span>) {
    && (forall i, j :: 0 <= i < j < |built| ==> built[i].id != built[j].id)
    && (forall id :: id in ids <==> exists i :: 0 <= i < |built| && built[i].id == id)
    && (forall i :: 0 <= i < |built| ==>
          HasDepth(LinksOf(records), built[i].id, d) && built[i] == SpanTree(records, built[i].id, d))
  }

  function IdsOf(spans: seq<Span>): seq<nat> {
    seq(|spans|, i requires 0 <= i < |spans| => spans[i].id)
  }

  lemma SortedBuilt(records: map<nat, Span>, ids: set<nat>, d: nat, built: seq<Span>, i: nat)
    requires Built(records, ids, d, built) && Filed(records) && i < |StableSort(built, SpanKey)|
    ensures var s := StableSort(built, SpanKey)[i];
      && s.id in ids && HasDepth(LinksOf(records), s.id, d) && s == SpanTree(records, s.id, d)
      && SpanKey(s) == StartKey(LinksOf(records))(s.id)
  {
    hide StableSort, HasDepth;
    var sorted := StableSort(built, SpanKey);
    SortMember(built, SpanKey, sorted[i]);
    assert sorted[i] in sorted;
    var k :| 0 <= k < |built| && built[k] == sorted[i];
    IsIn(LinksOf(records), sorted[i].id, d);
  }

  lemma SortedIds(records: map<nat, Span>, ids: set<nat>, d: nat, built: seq<Span>, id: nat)
    requires Built(records, ids, d, built) && Filed(records)
    ensures id in IdsOf(StableSort(built, SpanKey)) <==> id in ids
  {
    hide StableSort, HasDepth;
    var sorted := StableSort(built, SpanKey);
    var xs := IdsOf(sorted);
    if id in ids {
      var i :| 0 <= i < |built| && built[i].id == id;
      SortMember(built, SpanKey, built[i]);
      var j :| 0 <= j < |sorted| && sorted[j] == built[i];
      assert xs[j] == id;
    }
    if id in xs {
      var j :| 0 <= j < |xs| && xs[j] == id;
      SortedBuilt(records, ids, d, built, j);
    }
  }

  /** Sorting them by start gives the siblings in their one order. */
  lemma BuiltSorts(records: map<nat, Span>, ids: set<nat>, d: nat, built: seq<Span>)
    requires Built(records, ids, d, built) && Filed(records)
    requires AllAtDepth(LinksOf(records), Arrange(LinksOf(records), ids), d)
    ensures StableSort(built, SpanKey) == SpanTrees(records, Arrange(LinksOf(records), ids), d)
  {
    hide StableSort, HasDepth, Arrange, SpanTree, SpanTrees, LinksOf;
    var links := LinksOf(records);
    var sorted := StableSort(built, SpanKey);
    var xs := IdsOf(sorted);
    SortAscending(built, SpanKey);
    forall id: nat ensures id in xs <==> id in ids { SortedIds(records, ids, d, built, id); }
    forall i | 0 <= i < |xs| ensures StartKey(links)(xs[i]) == SpanKey(sorted[i]) {
      SortedBuilt(records, ids, d, built, i);
    }
    AscendingIds(sorted, xs, links);
    ArrangeUnique(links, ids, xs);
    forall i | 0 <= i < |xs| ensures SpanTrees(records, xs, d)[i] == sorted[i] {
      SpanTreesAt(records, xs, d, i);
      SortedBuilt(records, ids, d, built, i);
    }
  }

  lemma {:induction false} AscendingIds(spans: seq<Span>, xs: seq<nat>, links: Links)
    requires Ascending(spans, SpanKey) && |xs| == |spans|
    requires forall i :: 0 <= i < |xs| ==> StartKey(links)(xs[i]) == SpanKey(spans[i])
    ensures Ascending(xs, StartKey(links))
  {
    forall i, j | 0 <= i < j < |xs| ensures Less(StartKey(links)(xs[i]), StartKey(links)(xs[j])) {
      assert Less(SpanKey(spans[i]), SpanKey(spans[j]));
    }
  }

  // ---------- The code ----------

  /** A child before its own subtree has been read: an identity and nothing else. */
  function Placeholder(id: nat): Span {
    Span(id, 0, "", "", 0, ZERO_TIME, ZERO_TIME, 0, NoStatus, [], [], [])
  }

  /** The map `nest` has filled: every record as filed, its children still placeholders. */
  ghost predicate Hung(spans: map<nat, Span>, records: map<nat, Span>, links: Links) {
    && spans.Keys == records.Keys
    && (forall id :: id in spans ==>
          Chronological(spans[id]).(children := []) == records[id] && Hangs(spans[id].children, Children(links, id)))
  }

  ghost predicate Hangs(children: seq<Span>, ids: set<nat>) {
    && (forall i, j :: 0 <= i < j < |children| ==> children[i].id != children[j].id)
    && (forall id :: id in ids <==> exists i :: 0 <= i < |children| && children[i].id == id)
  }

  method Subtree(spans: map<nat, Span>, identity: nat, ghost records: map<nat, Span>, ghost d: nat)
    returns (span: Span)
    requires Filed(records) && Hung(spans, records, LinksOf(records)) && HasDepth(LinksOf(records), identity, d)
    ensures span == SpanTree(records, identity, d)
    decreases |LinksOf(records)| - d
  {
    hide HasDepth, StableSort, Arrange;
    IsIn(LinksOf(records), identity, d);
    DepthBound(LinksOf(records), identity, d);
    span := spans[identity];
    var children: seq<Span> := [];
    for i := 0 to |span.children|
      invariant |children| == i
      invariant forall k :: 0 <= k < i ==> Fits(records, span.children[k].id, d + 1, children[k])
    {
      PlaceholderFits(records, identity, d, span.children, i);
      var child := Subtree(spans, span.children[i].id, records, d + 1);
      children := children + [child];
    }
    SiblingsFit(records, identity, d, span.children, children);
    children := StableSort(children, SpanKey);
    span := span.(children := children, events := StableSort(span.events, EventKey));
    assert Chronological(spans[identity]).(children := []) == records[identity];
  }

  ghost predicate Fits(records: map<nat, Span>, id: nat, d: nat, span: Span) {
    HasDepth(LinksOf(records), id, d) && span == SpanTree(records, id, d)
  }

  lemma PlaceholderFits(records: map<nat, Span>, id: nat, d: nat, children: seq<Span>, i: nat)
    requires HasDepth(LinksOf(records), id, d) && i < |children| && Hangs(children, Children(LinksOf(records), id))
    ensures HasDepth(LinksOf(records), children[i].id, d + 1)
  {
    assert children[i].id in Children(LinksOf(records), id);
    DepthOfChild(LinksOf(records), id, children[i].id, d);
  }

  lemma SiblingsFit(records: map<nat, Span>, id: nat, d: nat, children: seq<Span>, built: seq<Span>)
    requires Filed(records) && HasDepth(LinksOf(records), id, d)
    requires Hangs(children, Children(LinksOf(records), id)) && |built| == |children|
    requires forall k :: 0 <= k < |children| ==> Fits(records, children[k].id, d + 1, built[k])
    ensures SpanTree(records, id, d) == records[id].(children := StableSort(built, SpanKey))
  {
    hide HasDepth, StableSort, Arrange;
    var links := LinksOf(records);
    ChildrenAtDepth(links, id, d);
    HungBuilt(records, children, Children(links, id), d + 1, built);
    BuiltSorts(records, Children(links, id), d + 1, built);
  }

  lemma {:induction false} HungBuilt(records: map<nat, Span>, children: seq<Span>, ids: set<nat>, d: nat,
                                     built: seq<Span>)
    requires Filed(records) && Hangs(children, ids) && |built| == |children|
    requires forall k :: 0 <= k < |children| ==> Fits(records, children[k].id, d, built[k])
    ensures Built(records, ids, d, built)
  {
    forall k | 0 <= k < |built| ensures built[k].id == children[k].id {
      IsIn(LinksOf(records), children[k].id, d);
    }
  }

  lemma HangsOneMore(children: seq<Span>, ids: set<nat>, c: nat)
    requires Hangs(children, ids) && c !in ids
    ensures Hangs(children + [Placeholder(c)], ids + {c})
  {
    var more := children + [Placeholder(c)];
    assert more[|children|].id == c;
    forall id ensures id in ids + {c} <==> exists i :: 0 <= i < |more| && more[i].id == id {
      if id in ids {
        var i :| 0 <= i < |children| && children[i].id == id;
        assert more[i].id == id;
      }
      if i: nat :| i < |more| && more[i].id == id {
        if i < |children| { assert children[i].id in ids; }
      }
    }
  }

  function IdKey(id: nat): Key { Key(id, 0) }

  /** The keys of a map, in the order an iteration happens to visit them, then sorted. */
  method Identities(spans: map<nat, Span>) returns (identities: seq<nat>)
    ensures Distinct(identities) && forall id :: id in identities <==> id in spans
  {
    identities := [];
    var rest := spans.Keys;
    while rest != {}
      invariant rest <= spans.Keys
      invariant Distinct(identities)
      invariant forall id :: id in identities <==> id in spans && id !in rest
    {
      var id :| id in rest;
      identities := identities + [id];
      rest := rest - {id};
    }
    assert KeysDistinct(identities, IdKey);
    SortAscending(identities, IdKey);
    SortMembers(identities, IdKey);
    identities := StableSort(identities, IdKey);
  }

  /** The children of `p` among the identities seen so far. */
  function ChildrenSeen(links: Links, p: nat, seen: seq<nat>): set<nat> {
    set c | c in seen && Encloses(links, p, c)
  }

  ghost predicate PartlyHung(spans: map<nat, Span>, raw: map<nat, Span>, links: Links, seen: seq<nat>) {
    && spans.Keys == raw.Keys
    && (forall id :: id in spans ==>
          spans[id].(children := []) == raw[id] && Hangs(spans[id].children, ChildrenSeen(links, id, seen)))
  }

  lemma ChildrenSeenSnoc(links: Links, p: nat, seen: seq<nat>, c: nat)
    ensures ChildrenSeen(links, p, seen + [c]) == ChildrenSeen(links, p, seen) + if Encloses(links, p, c) then {c} else {}
  {
  }

  lemma RootHangsNowhere(spans: map<nat, Span>, raw: map<nat, Span>, links: Links, seen: seq<nat>, c: nat)
    requires PartlyHung(spans, raw, links, seen) && c in links && links.Keys == raw.Keys && IsRoot(links, c)
    ensures PartlyHung(spans, raw, links, seen + [c])
  {
    hide Hangs;
    forall id | id in spans ensures ChildrenSeen(links, id, seen + [c]) == ChildrenSeen(links, id, seen) {
      ChildrenSeenSnoc(links, id, seen, c);
    }
  }

  /** One identity hung under its parent. */
  lemma HangKeeps(spans: map<nat, Span>, raw: map<nat, Span>, links: Links, seen: seq<nat>, c: nat)
    requires PartlyHung(spans, raw, links, seen) && c !in seen && c in links && links.Keys == raw.Keys
    requires !IsRoot(links, c)
    ensures var p := links[c].parent;
      PartlyHung(spans[p := spans[p].(children := spans[p].children + [Placeholder(c)])], raw, links, seen + [c])
  {
    hide Hangs, ChildrenSeen;
    var p := links[c].parent;
    var now := spans[p := spans[p].(children := spans[p].children + [Placeholder(c)])];
    assert ChildrenSeen(links, p, seen) <= set x | x in seen by { SeenOnly(links, p, seen); }
    HangsOneMore(spans[p].children, ChildrenSeen(links, p, seen), c);
    forall id | id in now
      ensures now[id].(children := []) == raw[id] && Hangs(now[id].children, ChildrenSeen(links, id, seen + [c]))
    {
      ChildrenSeenSnoc(links, id, seen, c);
      assert spans[id].(children := []) == raw[id];
      assert ChildrenSeen(links, id, seen) + {} == ChildrenSeen(links, id, seen);
    }
  }

  lemma SeenOnly(links: Links, p: nat, seen: seq<nat>)
    ensures ChildrenSeen(links, p, seen) <= set x | x in seen
  {
  }

  ghost predicate RootsSeen(links: Links, seen: seq<nat>, roots: seq<nat>) {
    Distinct(roots) && forall r :: r in roots <==> r in seen && r in links && IsRoot(links, r)
  }

  lemma RootsSeenSnoc(links: Links, seen: seq<nat>, roots: seq<nat>, c: nat)
    requires RootsSeen(links, seen, roots) && c !in seen && c in links
    ensures RootsSeen(links, seen + [c], if IsRoot(links, c) then roots + [c] else roots)
  {
  }

  /** A record before its events are put in order. */
  ghost predicate Unsorted(raw: map<nat, Span>, records: map<nat, Span>) {
    && raw.Keys == records.Keys
    && (forall id :: id in raw ==> raw[id].id == id && raw[id].children == [] && Chronological(raw[id]) == records[id])
  }

  /** The first half of `nest`: every identity goes among the roots, or under its parent as a placeholder. */
  method Hang(raw: map<nat, Span>, ghost records: map<nat, Span>)
    returns (spans: map<nat, Span>, roots: seq<nat>)
    requires Unsorted(raw, records)
    ensures Filed(records) && Hung(spans, records, LinksOf(records))
    ensures Distinct(roots) && forall r :: r in roots <==> r in Roots(LinksOf(records))
  {
    hide StableSort, Hangs, PartlyHung, Hung, Filed, RootsSeen, Unsorted, LinksOf;
    ghost var links := LinksOf(records);
    var identities := Identities(raw);
    spans := raw;
    roots := [];
    NothingHung(raw, records, links);
    assert identities[..0] == [];
    for k := 0 to |identities|
      invariant PartlyHung(spans, raw, links, identities[..k])
      invariant RootsSeen(links, identities[..k], roots)
    {
      var identity := identities[k];
      assert identity in raw && identities[..k + 1] == identities[..k] + [identity];
      ReadsAsFiled(spans, raw, records, identities[..k], identity);
      RootsSeenSnoc(links, identities[..k], roots, identity);
      var span := spans[identity];
      if span.parentId !in spans || span.parentId == span.id {
        RootHangsNowhere(spans, raw, links, identities[..k], identity);
        roots := roots + [identity];
        continue;
      }
      HangKeeps(spans, raw, links, identities[..k], identity);
      var parent := spans[span.parentId];
      spans := spans[span.parentId := parent.(children := parent.children + [Placeholder(identity)])];
    }
    assert identities[..|identities|] == identities;
    AllHung(spans, raw, records, identities);
    AllRootsSeen(records, identities, roots);
  }

  lemma AllRootsSeen(records: map<nat, Span>, seen: seq<nat>, roots: seq<nat>)
    requires RootsSeen(LinksOf(records), seen, roots) && forall id :: id in seen <==> id in records
    ensures Distinct(roots) && forall r :: r in roots <==> r in Roots(LinksOf(records))
  {
  }

  lemma {:induction false} ReadsAsFiled(spans: map<nat, Span>, raw: map<nat, Span>, records: map<nat, Span>,
                                        seen: seq<nat>, id: nat)
    requires Unsorted(raw, records) && PartlyHung(spans, raw, LinksOf(records), seen) && id in raw
    ensures spans.Keys == raw.Keys == LinksOf(records).Keys && spans[id].id == id
    ensures LinksOf(records)[id].parent == spans[id].parentId
  {
    assert spans[id].(children := []) == raw[id];
  }

  method Nest(raw: map<nat, Span>, ghost records: map<nat, Span>) returns (tree: seq<Span>)
    requires Unsorted(raw, records)
    ensures tree == Nesting(records)
  {
    hide StableSort, Arrange, HasDepth, Hangs, Nesting;
    var spans, roots := Hang(raw, records);
    tree := [];
    for k := 0 to |roots|
      invariant |tree| == k
      invariant forall i :: 0 <= i < k ==> Fits(records, roots[i], 0, tree[i])
    {
      assert roots[k] in roots;
      RootFits(LinksOf(records), roots[k]);
      var root := Subtree(spans, roots[k], records, 0);
      tree := tree + [root];
    }
    RootsFit(records, roots, tree);
    tree := StableSort(tree, SpanKey);
  }

  lemma NothingHung(raw: map<nat, Span>, records: map<nat, Span>, links: Links)
    requires Unsorted(raw, records)
    ensures PartlyHung(raw, raw, links, []) && RootsSeen(links, [], []) && raw.Keys == records.Keys
  {
  }

  lemma AllHung(spans: map<nat, Span>, raw: map<nat, Span>, records: map<nat, Span>, seen: seq<nat>)
    requires Unsorted(raw, records) && PartlyHung(spans, raw, LinksOf(records), seen)
    requires forall id :: id in seen <==> id in raw
    ensures Filed(records) && Hung(spans, records, LinksOf(records))
  {
    hide StableSort, Hangs;
    var links := LinksOf(records);
    forall id | id in spans
      ensures Chronological(spans[id]).(children := []) == records[id]
      ensures ChildrenSeen(links, id, seen) == Children(links, id)
    {
      assert Chronological(spans[id]).(children := []) == Chronological(spans[id].(children := []));
    }
  }

  lemma RootFits(links: Links, r: nat)
    requires r in links && IsRoot(links, r)
    ensures HasDepth(links, r, 0)
  {
  }

  lemma RootsFit(records: map<nat, Span>, roots: seq<nat>, built: seq<Span>)
    requires Filed(records) && |built| == |roots| && Distinct(roots)
    requires forall r :: r in roots <==> r in Roots(LinksOf(records))
    requires forall k :: 0 <= k < |roots| ==> Fits(records, roots[k], 0, built[k])
    ensures Nesting(records) == StableSort(built, SpanKey)
  {
    hide HasDepth, StableSort, Arrange;
    var links := LinksOf(records);
    RootsAtDepth(links);
    forall k | 0 <= k < |built| ensures built[k].id == roots[k] { IsIn(links, roots[k], 0); }
    BuiltSorts(records, Roots(links), 0, built);
  }

  // ---------- Assemble ----------

  lemma ReadingSnoc(events: seq<Event>, seen: seq<Event>, e: Event, id: nat)
    requires id in Started(events)
    ensures var before, after := Reading(events, seen, id), Reading(events, seen + [e], id);
      if IsEnd(e) && e.spanId == id then after == Ended(before, e)
      else if !IsStart(e) && e.spanId == id then after == before.(events := before.events + [e])
      else after == before
  {
    FilterSnoc(seen, e, EndOf(id));
    FilterSnoc(seen, e, InsideOf(id));
    var ends, inside := Filter(seen, EndOf(id)), Filter(seen, InsideOf(id));
    assert (ends + [e])[..|ends|] == ends && ends + [] == ends && inside + [] == inside;
  }

  lemma ReadingsSnoc(events: seq<Event>, seen: seq<Event>, e: Event)
    ensures IsStart(e) || e.spanId !in Started(events) ==> Readings(events, seen + [e]) == Readings(events, seen)
    ensures IsEnd(e) && e.spanId in Started(events) ==>
      Readings(events, seen + [e]) == Readings(events, seen)[e.spanId := Ended(Readings(events, seen)[e.spanId], e)]
    ensures !IsEnd(e) && !IsStart(e) && e.spanId in Started(events) ==>
      var before := Readings(events, seen);
      Readings(events, seen + [e])
        == before[e.spanId := before[e.spanId].(events := before[e.spanId].events + [e])]
  {
    hide Reading;
    forall id | id in Started(events) { ReadingSnoc(events, seen, e, id); }
  }

  /** The first pass: only the last start of each identity remains. */
  ghost predicate StartsRead(events: seq<Event>, spans: map<nat, Span>) {
    && spans.Keys == Started(events)
    && forall id :: id in spans ==> spans[id] == NewSpan(LastStart(events, id))
  }

  lemma StartsReadSnoc(events: seq<Event>, e: Event, spans: map<nat, Span>)
    requires StartsRead(events, spans)
    ensures StartsRead(events + [e], if IsStart(e) then spans[e.spanId := NewSpan(e)] else spans)
  {
    hide LastStart;
    assert Started(events + [e]) == Started(events) + if IsStart(e) then {e.spanId} else {};
    forall id | id in Started(events + [e])
      ensures LastStart(events + [e], id) == if IsStart(e) && e.spanId == id then e else LastStart(events, id)
    {
      LastStartSnoc(events, e, id);
    }
  }

  lemma {:induction false} LastStartSnoc(events: seq<Event>, e: Event, id: nat)
    requires id in Started(events + [e])
    ensures IsStart(e) && e.spanId == id ==> LastStart(events + [e], id) == e
    ensures !(IsStart(e) && e.spanId == id) ==>
      id in Started(events) && LastStart(events + [e], id) == LastStart(events, id)
  {
    FilterSnoc(events, e, StartOf(id));
    if !(IsStart(e) && e.spanId == id) {
      StartedHasStart(events + [e], id);
      StartedHasStart(events, id);
    }
  }

  method Assemble(events: seq<Event>) returns (trace: Trace)
    ensures trace == TraceOf(events)
  {
    hide Started, LastStart, Reading, Chronological, Filter, LooseIn, Nesting;
    var spans: map<nat, Span> := map[];
    assert StartsRead(events[..0], spans) by { NothingRead(); }
    for k := 0 to |events|
      invariant StartsRead(events[..k], spans)
    {
      assert events[..k + 1] == events[..k] + [events[k]];
      StartsReadSnoc(events[..k], events[k], spans);
      if events[k].kind.SpanStarted? {
        spans := spans[events[k].spanId := NewSpan(events[k])];
      }
    }
    assert events[..|events|] == events;
    var loose: seq<Event> := [];
    StartReading(events, spans);
    for k := 0 to |events|
      invariant spans == Readings(events, events[..k])
      invariant loose == Filter(events[..k], LooseIn(Started(events)))
    {
      var event := events[k];
      assert events[..k + 1] == events[..k] + [event];
      ReadingsSnoc(events, events[..k], event);
      LooseSnoc(events, events[..k], event);
      match event.kind
      case SpanStarted => continue;
      case SpanEnded =>
        if event.spanId in spans {
          var ended := EndSpan(spans[event.spanId], event);
          spans := spans[event.spanId := ended];
          continue;
        }
        loose := loose + [event];
      case _ =>
        if event.spanId in spans {
          var span := spans[event.spanId];
          spans := spans[event.spanId := span.(events := span.events + [event])];
          continue;
        }
        loose := loose + [event];
    }
    assert Unsorted(spans, Records(events)) by { ReadingsUnsorted(events); }
    var roots := Nest(spans, Records(events));
    trace := Trace(roots, loose);
  }

  lemma NothingRead()
    ensures StartsRead([], map[])
  {
  }

  lemma StartReading(events: seq<Event>, spans: map<nat, Span>)
    requires StartsRead(events, spans)
    ensures spans == Readings(events, events[..0])
    ensures Filter(events[..0], LooseIn(Started(events))) == []
  {
  }

  lemma {:induction false} LooseSnoc(events: seq<Event>, seen: seq<Event>, e: Event)
    ensures Filter(seen + [e], LooseIn(Started(events)))
      == Filter(seen, LooseIn(Started(events))) + if !IsStart(e) && e.spanId !in Started(events) then [e] else []
  {
    FilterSnoc(seen, e, LooseIn(Started(events)));
  }

  lemma ReadingsUnsorted(events: seq<Event>)
    ensures Unsorted(Readings(events, events), Records(events))
  {
  }
}
