/** The tracker of running fibers, a fold of the events seen, and the tree it reads out. */
module LiveFibers {
  import opened Events
  import opened Sequences
  import opened Sorting
  import opened Forest
  import opened MapSums

  datatype Fiber = Fiber(
    id: nat, parentId: nat, operation: string, spanId: nat, startTime: Time, children: seq<Fiber>)

  function NewFiber(e: Event): Fiber { Fiber(e.fiberId, e.parentFiber, e.operation, e.spanId, e.timestamp, []) }

  datatype Running = Running(live: map<nat, Fiber>, starts: nat, ends: nat)

  function Observed(r: Running, e: Event): Running {
    match e.kind
    case FiberStarted => Running(r.live[e.fiberId := NewFiber(e)], r.starts + 1, r.ends)
    case FiberCompleted =>
      if e.fiberId in r.live then Running(r.live - {e.fiberId}, r.starts, r.ends + 1) else r
    case _ => r
  }

  function Track(events: seq<Event>): Running {
    if events == [] then Running(map[], 0, 0)
    else Observed(Track(events[..|events| - 1]), events[|events| - 1])
  }

  ghost predicate Filed(live: map<nat, Fiber>) {
    forall id :: id in live ==> live[id].id == id && live[id].children == []
  }

  lemma {:induction false} TrackFiled(events: seq<Event>)
    ensures Filed(Track(events).live)
  {
    if events != [] { TrackFiled(events[..|events| - 1]); }
  }

  function BoundaryOf(id: nat): Event -> bool {
    (e: Event) => (e.kind.FiberStarted? || e.kind.FiberCompleted?) && e.fiberId == id
  }

  /** A fiber is running when the last boundary seen of it is a start, and reads as that start. */
  lemma {:induction false} RunningIsLastStarted(events: seq<Event>, id: nat)
    ensures var bs := Filter(events, BoundaryOf(id));
      && (id in Track(events).live <==> bs != [] && bs[|bs| - 1].kind.FiberStarted?)
      && (id in Track(events).live ==>
            var f, start := Track(events).live[id], bs[|bs| - 1];
            f.id == id && f.parentId == start.parentFiber && f.operation == start.operation
            && f.spanId == start.spanId && f.startTime == start.timestamp && f.children == [])
  {
    if events != [] { RunningIsLastStarted(events[..|events| - 1], id); }
  }

  /** How often an identity was started again while still running. */
  function Restarts(events: seq<Event>): nat {
    if events == [] then 0
    else
      var front, e := events[..|events| - 1], events[|events| - 1];
      Restarts(front) + if e.kind.FiberStarted? && e.fiberId in Track(front).live then 1 else 0
  }

  function FiberStarts(): Event -> bool { (e: Event) => e.kind.FiberStarted? }

  /** The gap between starts and ends is the running fibers, and one more for each restart. */
  lemma {:induction false} StartsAndEnds(events: seq<Event>)
    ensures var r := Track(events);
      && r.starts == |Filter(events, FiberStarts())|
      && r.starts == r.ends + |r.live| + Restarts(events)
  {
    if events != [] {
      var front, e := events[..|events| - 1], events[|events| - 1];
      StartsAndEnds(front);
      MapGrows(Track(front).live, e.fiberId, NewFiber(e));
    }
  }

  // ---------- The tree, whatever order the map is visited in ----------

  function LinksOf(live: map<nat, Fiber>): Links {
    map id | id in live :: Link(live[id].parentId, live[id].startTime)
  }

  ghost function FiberTree(live: map<nat, Fiber>, id: nat, d: nat): Fiber
    requires HasDepth(LinksOf(live), id, d)
    decreases |LinksOf(live)| - d, 0, 0
  {
    ChildrenAtDepth(LinksOf(live), id, d);
    live[id].(children := FiberTrees(live, Arrange(LinksOf(live), Children(LinksOf(live), id)), d + 1))
  }

  ghost function FiberTrees(live: map<nat, Fiber>, ids: seq<nat>, d: nat): (ts: seq<Fiber>)
    requires AllAtDepth(LinksOf(live), ids, d)
    ensures |ts| == |ids|
    decreases |LinksOf(live)| - d, 1, |ids|
  {
    if ids == [] then []
    else FiberTrees(live, ids[..|ids| - 1], d) + [FiberTree(live, ids[|ids| - 1], d)]
  }

  ghost function TreeOf(live: map<nat, Fiber>): seq<Fiber> {
    RootsAtDepth(LinksOf(live));
    FiberTrees(live, Arrange(LinksOf(live), Roots(LinksOf(live))), 0)
  }

  // ---------- The code ----------

  /** A list of the identities in a set, each once. */
  ghost predicate Lists(xs: seq<nat>, ids: set<nat>) { Distinct(xs) && forall id :: id in xs <==> id in ids }

  function ChildIds(children: map<nat, seq<nat>>, p: nat): seq<nat> {
    if p in children then children[p] else []
  }

  function RootsAmong(links: Links, seen: set<nat>): set<nat> { set r | r in seen && r in links && IsRoot(links, r) }

  function ChildrenAmong(links: Links, seen: set<nat>, p: nat): set<nat> { set c | c in seen && Encloses(links, p, c) }

  /** What the grouping loop has done once it has visited `seen`. */
  ghost predicate Grouped(links: Links, seen: set<nat>, children: map<nat, seq<nat>>, roots: seq<nat>) {
    && Lists(roots, RootsAmong(links, seen))
    && forall p: nat :: Lists(ChildIds(children, p), ChildrenAmong(links, seen, p))
  }

  lemma ListsOneMore(xs: seq<nat>, ids: set<nat>, x: nat)
    requires Lists(xs, ids) && x !in ids
    ensures Lists(xs + [x], ids + {x})
  {
  }

  lemma GroupedRoot(links: Links, seen: set<nat>, children: map<nat, seq<nat>>, roots: seq<nat>, id: nat)
    requires Grouped(links, seen, children, roots) && id in links && id !in seen && IsRoot(links, id)
    ensures Grouped(links, seen + {id}, children, roots + [id])
  {
    ListsOneMore(roots, RootsAmong(links, seen), id);
    assert RootsAmong(links, seen + {id}) == RootsAmong(links, seen) + {id};
    forall p: nat ensures ChildrenAmong(links, seen + {id}, p) == ChildrenAmong(links, seen, p) {}
  }

  lemma GroupedChild(links: Links, seen: set<nat>, children: map<nat, seq<nat>>, roots: seq<nat>, id: nat)
    requires Grouped(links, seen, children, roots) && id in links && id !in seen && !IsRoot(links, id)
    ensures var p := links[id].parent;
      Grouped(links, seen + {id}, children[p := ChildIds(children, p) + [id]], roots)
  {
    hide Lists;
    var q := links[id].parent;
    var after := children[q := ChildIds(children, q) + [id]];
    assert RootsAmong(links, seen + {id}) == RootsAmong(links, seen);
    assert Lists(ChildIds(children, q), ChildrenAmong(links, seen, q));
    ListsOneMore(ChildIds(children, q), ChildrenAmong(links, seen, q), id);
    forall p: nat ensures Lists(ChildIds(after, p), ChildrenAmong(links, seen + {id}, p)) {
      assert Lists(ChildIds(children, p), ChildrenAmong(links, seen, p));
      assert ChildrenAmong(links, seen + {id}, p) == ChildrenAmong(links, seen, p) + if p == q then {id} else {};
      assert ChildrenAmong(links, seen, p) + {} == ChildrenAmong(links, seen, p);
    }
  }

  lemma ListsSort(links: Links, xs: seq<nat>, ids: set<nat>, sorted: seq<nat>)
    requires Lists(xs, ids) && multiset(sorted) == multiset(xs)
    requires Distinct(xs) ==> Ascending(sorted, StartKey(links))
    ensures sorted == Arrange(links, ids)
  {
    forall id: nat ensures id in sorted <==> id in ids {
      assert id in sorted <==> id in multiset(sorted);
      assert id in xs <==> id in multiset(xs);
    }
    ArrangeUnique(links, ids, sorted);
  }

  class Fibers {
    var live: map<nat, Fiber>
    var starts: nat
    var ends: nat
    ghost var history: seq<Event>

    ghost predicate Valid()
      reads this
    {
      Running(live, starts, ends) == Track(history)
    }

    constructor ()
      ensures Valid() && history == []
    {
      live, starts, ends, history := map[], 0, 0, [];
    }

    method Observe(event: Event)
      requires Valid()
      modifies this
      ensures Valid() && history == old(history) + [event]
    {
      history := history + [event];
      assert history[..|history| - 1] == old(history);
      match event.kind
      case FiberStarted => Begin(event);
      case FiberCompleted => Finish(event);
      case _ =>
    }

    method Begin(event: Event)
      modifies this`live, this`starts
      ensures live == old(live)[event.fiberId := NewFiber(event)] && starts == old(starts) + 1
    {
      live := live[event.fiberId := NewFiber(event)];
      starts := starts + 1;
    }

    method Finish(event: Event)
      modifies this`live, this`ends
      ensures if event.fiberId in old(live) then live == old(live) - {event.fiberId} && ends == old(ends) + 1
              else live == old(live) && ends == old(ends)
    {
      if event.fiberId !in live { return; }
      live := live - {event.fiberId};
      ends := ends + 1;
    }

    /** The identities by start and then identity: without repeats, the one order they can be in. */
    method SortOldestFirst(identities: seq<nat>) returns (sorted: seq<nat>)
      ensures multiset(sorted) == multiset(identities) && Sorted(sorted, StartKey(LinksOf(live)))
      ensures Distinct(identities) ==> Ascending(sorted, StartKey(LinksOf(live)))
    {
      sorted := StableSort(identities, StartKey(LinksOf(live)));
      SortMultiset(identities, StartKey(LinksOf(live)));
      SortSorted(identities, StartKey(LinksOf(live)));
      if Distinct(identities) { SortAscending(identities, StartKey(LinksOf(live))); }
    }

    /** However a set of siblings was listed, sorted it is the one arrangement of them. */
    method SortSiblings(identities: seq<nat>, ghost ids: set<nat>) returns (sorted: seq<nat>)
      requires Lists(identities, ids)
      ensures sorted == Arrange(LinksOf(live), ids)
    {
      hide Arrange, Sorted, Ascending;
      sorted := SortOldestFirst(identities);
      ListsSort(LinksOf(live), identities, ids, sorted);
    }

    method Tree() returns (tree: seq<Fiber>)
      requires Valid()
      ensures tree == TreeOf(Track(history).live)
    {
      hide Arrange, HasDepth, Grouped, Lists, Filed;
      ghost var links := LinksOf(live);
      TrackFiled(history);
      var children: map<nat, seq<nat>>, roots: seq<nat> := map[], [];
      GroupedNothing(links);
      var rest := live.Keys;
      assert live.Keys - rest == {};
      while rest != {}
        invariant rest <= live.Keys
        invariant Grouped(links, live.Keys - rest, children, roots)
      {
        var identity :| identity in rest;
        var fiber := live[identity];
        assert live.Keys - (rest - {identity}) == (live.Keys - rest) + {identity};
        rest := rest - {identity};
        if fiber.parentId in live && fiber.parentId != identity {
          GroupedChild(links, live.Keys - rest - {identity}, children, roots, identity);
          assert live.Keys - rest - {identity} + {identity} == live.Keys - rest;
          children := children[fiber.parentId := ChildIds(children, fiber.parentId) + [identity]];
          continue;
        }
        GroupedRoot(links, live.Keys - rest - {identity}, children, roots, identity);
        assert live.Keys - rest - {identity} + {identity} == live.Keys - rest;
        roots := roots + [identity];
      }
      GroupedAll(links, live.Keys - rest, children, roots);
      roots := SortSiblings(roots, Roots(links));
      RootsAtDepth(links);
      tree := [];
      for k := 0 to |roots|
        invariant tree == FiberTrees(live, roots[..k], 0)
      {
        assert roots[k] in roots && roots[..k + 1] == roots[..k] + [roots[k]];
        var root := Subtree(roots[k], children, 0);
        tree := tree + [root];
      }
      assert roots[..|roots|] == roots;
    }

    method Subtree(identity: nat, children: map<nat, seq<nat>>, ghost d: nat) returns (fiber: Fiber)
      requires HasDepth(LinksOf(live), identity, d)
      requires forall p: nat :: Lists(ChildIds(children, p), Children(LinksOf(live), p))
      ensures fiber == FiberTree(live, identity, d)
      decreases |LinksOf(live)| - d
    {
      hide Arrange, HasDepth, Lists;
      ghost var links := LinksOf(live);
      ChildrenAtDepth(links, identity, d);
      IsIn(links, identity, d);
      fiber := live[identity];
      var childIDs := SortSiblings(ChildIds(children, identity), Children(links, identity));
      var nested: seq<Fiber> := [];
      for k := 0 to |childIDs|
        invariant nested == FiberTrees(live, childIDs[..k], d + 1)
      {
        assert childIDs[k] in childIDs && childIDs[..k + 1] == childIDs[..k] + [childIDs[k]];
        var child := Subtree(childIDs[k], children, d + 1);
        nested := nested + [child];
      }
      assert childIDs[..|childIDs|] == childIDs;
      fiber := fiber.(children := nested);
    }

    method Count() returns (count: nat)
      requires Valid()
      ensures count == |Track(history).live|
    {
      count := |live|;
    }
  }

  lemma GroupedNothing(links: Links)
    ensures Grouped(links, {}, map[], [])
  {
  }

  lemma {:induction false} GroupedAll(links: Links, seen: set<nat>, children: map<nat, seq<nat>>, roots: seq<nat>)
    requires Grouped(links, seen, children, roots) && seen == links.Keys
    ensures forall p: nat :: Lists(ChildIds(children, p), Children(links, p))
    ensures Lists(roots, Roots(links))
  {
    assert RootsAmong(links, seen) == Roots(links);
    forall p: nat ensures Lists(ChildIds(children, p), Children(links, p)) {
      assert ChildrenAmong(links, seen, p) == Children(links, p);
    }
  }

  // ---------- What the tree holds ----------

  function Flatten(fiber: Fiber): seq<nat> { [fiber.id] + FlattenAll(fiber.children) }

  function FlattenAll(fibers: seq<Fiber>): seq<nat> {
    if fibers == [] then [] else FlattenAll(fibers[..|fibers| - 1]) + Flatten(fibers[|fibers| - 1])
  }

  lemma {:induction false} TreeIds(live: map<nat, Fiber>, id: nat, d: nat)
    requires Filed(live) && HasDepth(LinksOf(live), id, d)
    ensures Flatten(FiberTree(live, id, d)) == Preorder(Shape(LinksOf(live), id, d))
    decreases |LinksOf(live)| - d, 0, 0
  {
    hide HasDepth, Arrange;
    ChildrenAtDepth(LinksOf(live), id, d);
    IsIn(LinksOf(live), id, d);
    TreesIds(live, Arrange(LinksOf(live), Children(LinksOf(live), id)), d + 1);
  }

  lemma {:induction false} TreesIds(live: map<nat, Fiber>, ids: seq<nat>, d: nat)
    requires Filed(live) && AllAtDepth(LinksOf(live), ids, d)
    ensures FlattenAll(FiberTrees(live, ids, d)) == PreorderAll(Shapes(LinksOf(live), ids, d))
    decreases |LinksOf(live)| - d, 1, |ids|
  {
    hide HasDepth;
    if ids != [] {
      var last := |ids| - 1;
      TreesIds(live, ids[..last], d);
      TreeIds(live, ids[last], d);
      assert FiberTrees(live, ids, d)[..last] == FiberTrees(live, ids[..last], d);
      assert Shapes(LinksOf(live), ids, d)[..last] == Shapes(LinksOf(live), ids[..last], d);
    }
  }

  /** The tree of the running fibers holds each fiber whose parents lead to a root once, and no other. */
  lemma TreeHoldsReachable(events: seq<Event>)
    ensures var live := Track(events).live;
      multiset(FlattenAll(TreeOf(live))) == multiset(Reachable(LinksOf(live)))
      && forall id :: id in live ==> (id in Reachable(LinksOf(live)) <==> !RunsIntoCycle(LinksOf(live), id))
  {
    hide Arrange, HasDepth, RunsIntoCycle, Reaches;
    var live := Track(events).live;
    var links := LinksOf(live);
    TrackFiled(events);
    RootsAtDepth(links);
    TreesIds(live, Arrange(links, Roots(links)), 0);
    ForestHoldsReachable(links);
    forall id | id in live ensures id in Reachable(links) <==> !RunsIntoCycle(links, id) { ReachesIffAcyclic(links, id); }
  }

  /** The tree has at most as many nodes as fibers are running, and as many exactly when their parents are acyclic. */
  lemma TreeCounts(events: seq<Event>)
    ensures var live := Track(events).live;
      && |FlattenAll(TreeOf(live))| <= |live|
      && (|FlattenAll(TreeOf(live))| == |live| <==> forall id :: id in live ==> !RunsIntoCycle(LinksOf(live), id))
  {
    hide TreeOf, Reaches, RunsIntoCycle;
    var live := Track(events).live;
    var reached := Reachable(LinksOf(live));
    TreeHoldsReachable(events);
    assert |FlattenAll(TreeOf(live))| == |multiset(FlattenAll(TreeOf(live)))| == |multiset(reached)| == |reached|;
    assert reached <= live.Keys && |live.Keys| == |live|;
    SubsetSize(reached, live.Keys);
    if id :| id in live && RunsIntoCycle(LinksOf(live), id) { SubsetSize(reached, live.Keys - {id}); }
    if forall id :: id in live ==> !RunsIntoCycle(LinksOf(live), id) { assert reached == live.Keys; }
  }

  /** A fiber's children are those forked from it, strictly ascending. */
  lemma LevelsInOrder(live: map<nat, Fiber>, id: nat, d: nat)
    requires Filed(live) && HasDepth(LinksOf(live), id, d)
    ensures Ascending(FiberTree(live, id, d).children, FiberKey)
    ensures forall c :: c in IdsOf(FiberTree(live, id, d).children) <==> Encloses(LinksOf(live), id, c)
  {
    hide HasDepth, Arrange;
    var links := LinksOf(live);
    ChildrenAtDepth(links, id, d);
    ArrangeIs(links, Children(links, id));
    SiblingsAscend(live, Arrange(links, Children(links, id)), d + 1);
  }

  /** The roots ascend too, and are the fibers that are their own parent or whose parent is not running. */
  lemma RootsInOrder(live: map<nat, Fiber>)
    requires Filed(live)
    ensures Ascending(TreeOf(live), FiberKey) && OldestFirst(TreeOf(live))
    ensures forall r :: r in IdsOf(TreeOf(live)) <==>
              r in live && (live[r].parentId !in live || live[r].parentId == r)
  {
    hide HasDepth, Arrange;
    var links := LinksOf(live);
    RootsAtDepth(links);
    ArrangeIs(links, Roots(links));
    SiblingsAscend(live, Arrange(links, Roots(links)), 0);
    AscendingIsOldestFirst(TreeOf(live));
  }

  function FiberKey(fiber: Fiber): Key { Key(fiber.startTime, fiber.id) }

  function IdsOf(fibers: seq<Fiber>): seq<nat> {
    seq(|fibers|, i requires 0 <= i < |fibers| => fibers[i].id)
  }

  lemma {:induction false} TreesAt(live: map<nat, Fiber>, ids: seq<nat>, d: nat, i: nat)
    requires AllAtDepth(LinksOf(live), ids, d) && i < |ids|
    ensures HasDepth(LinksOf(live), ids[i], d)
    ensures FiberTrees(live, ids, d)[i] == FiberTree(live, ids[i], d)
    decreases |ids|
  {
    if i < |ids| - 1 { TreesAt(live, ids[..|ids| - 1], d, i); }
  }

  lemma SiblingsAscend(live: map<nat, Fiber>, ids: seq<nat>, d: nat)
    requires Filed(live) && AllAtDepth(LinksOf(live), ids, d) && Ascending(ids, StartKey(LinksOf(live)))
    ensures Ascending(FiberTrees(live, ids, d), FiberKey) && IdsOf(FiberTrees(live, ids, d)) == ids
  {
    hide HasDepth;
    var fibers := FiberTrees(live, ids, d);
    forall i | 0 <= i < |ids| ensures fibers[i].id == ids[i] && FiberKey(fibers[i]) == StartKey(LinksOf(live))(ids[i]) {
      TreesAt(live, ids, d, i);
      IsIn(LinksOf(live), ids[i], d);
    }
    forall i, j | 0 <= i < j < |fibers| ensures Less(FiberKey(fibers[i]), FiberKey(fibers[j])) {
      assert Less(StartKey(LinksOf(live))(ids[i]), StartKey(LinksOf(live))(ids[j]));
    }
  }

  // ---------- The tree in the fibers' own terms ----------

  /** Running longer, and of those that started together the lower identity. */
  predicate Older(a: Fiber, b: Fiber) { a.startTime < b.startTime || (a.startTime == b.startTime && a.id < b.id) }

  ghost predicate OldestFirst(fibers: seq<Fiber>) { forall i, j :: 0 <= i < j < |fibers| ==> Older(fibers[i], fibers[j]) }

  lemma {:induction false} AscendingIsOldestFirst(fibers: seq<Fiber>)
    requires Ascending(fibers, FiberKey)
    ensures OldestFirst(fibers)
  {
    forall i, j | 0 <= i < j < |fibers| ensures Older(fibers[i], fibers[j]) {
      assert Less(FiberKey(fibers[i]), FiberKey(fibers[j]));
    }
  }

  /** A fiber and all it forked, and what those forked. */
  function Nodes(fiber: Fiber): seq<Fiber> { [fiber] + NodesAll(fiber.children) }

  function NodesAll(fibers: seq<Fiber>): seq<Fiber> {
    if fibers == [] then [] else NodesAll(fibers[..|fibers| - 1]) + Nodes(fibers[|fibers| - 1])
  }

  /** A running fiber with just the running fibers forked from it beneath, oldest first. */
  ghost predicate Placed(live: map<nat, Fiber>, fiber: Fiber) {
    && fiber.id in live && fiber.(children := []) == live[fiber.id]
    && OldestFirst(fiber.children)
    && forall c :: c in IdsOf(fiber.children) <==> c in live && c != fiber.id && live[c].parentId == fiber.id
  }

  lemma {:induction false} NodesPlaced(live: map<nat, Fiber>, id: nat, d: nat, fiber: Fiber)
    requires Filed(live) && HasDepth(LinksOf(live), id, d) && fiber in Nodes(FiberTree(live, id, d))
    ensures Placed(live, fiber)
    decreases |LinksOf(live)| - d, 0, 0
  {
    hide HasDepth, Arrange;
    var links := LinksOf(live);
    ChildrenAtDepth(links, id, d);
    IsIn(links, id, d);
    if fiber == FiberTree(live, id, d) {
      LevelsInOrder(live, id, d);
      AscendingIsOldestFirst(fiber.children);
      assert forall c :: Encloses(links, id, c) <==> id in live && c in live && c != id && live[c].parentId == id;
    } else {
      hide Placed;
      NodesAllPlaced(live, Arrange(links, Children(links, id)), d + 1, fiber);
    }
  }

  lemma {:induction false} NodesAllPlaced(live: map<nat, Fiber>, ids: seq<nat>, d: nat, fiber: Fiber)
    requires Filed(live) && AllAtDepth(LinksOf(live), ids, d) && fiber in NodesAll(FiberTrees(live, ids, d))
    ensures Placed(live, fiber)
    decreases |LinksOf(live)| - d, 1, |ids|
  {
    hide HasDepth, Placed;
    var last := |ids| - 1;
    var fibers := FiberTrees(live, ids, d);
    assert fibers[..last] == FiberTrees(live, ids[..last], d);
    if fiber in Nodes(fibers[last]) {
      NodesPlaced(live, ids[last], d, fiber);
    } else {
      NodesAllPlaced(live, ids[..last], d, fiber);
    }
  }

  /** Every fiber of the tree is a running one as its start described it, above just those it forked, oldest first. */
  lemma FiberHolds(events: seq<Event>, fiber: Fiber)
    requires fiber in NodesAll(TreeOf(Track(events).live))
    ensures Placed(Track(events).live, fiber)
  {
    hide HasDepth, Arrange, Placed;
    var live := Track(events).live;
    TrackFiled(events);
    RootsAtDepth(LinksOf(live));
    NodesAllPlaced(live, Arrange(LinksOf(live), Roots(LinksOf(live))), 0, fiber);
  }

  // ---------- Counting completions ----------

  function Completions(): Event -> bool { (e: Event) => e.kind.FiberCompleted? }

  /** Ends counts every completion exactly when each completed a fiber running at that point. */
  lemma {:induction false} EndsCountedIff(events: seq<Event>)
    ensures Track(events).ends <= |Filter(events, Completions())|
    ensures Track(events).ends == |Filter(events, Completions())| <==>
      forall k :: 0 <= k < |events| && events[k].kind.FiberCompleted? ==> events[k].fiberId in Track(events[..k]).live
  {
    if events != [] {
      var last := |events| - 1;
      var front := events[..last];
      EndsCountedIff(front);
      forall k | 0 <= k < last ensures front[..k] == events[..k] {}
      if forall k :: 0 <= k < |events| && events[k].kind.FiberCompleted? ==>
           events[k].fiberId in Track(events[..k]).live {
        forall k | 0 <= k < last && front[k].kind.FiberCompleted?
          ensures front[k].fiberId in Track(front[..k]).live
        {
          assert events[k].fiberId in Track(events[..k]).live;
        }
      }
    }
  }
}
