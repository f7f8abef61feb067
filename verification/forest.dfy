/**
 The shape of a forest given by parent identities.

 Spans and fibers nest by the same rule: an identity whose parent is missing, or
 is itself, is a root, and siblings stand in order of (start, identity). Parents
 are arbitrary input, so they may form cycles; nothing inside a cycle, or below
 one, is ever reached from a root.
 */
module Forest {
  import opened Sequences
  import opened Sorting
  import opened Wrappers

  datatype Link = Link(parent: nat, start: int)

  type Links = map<nat, Link>

  datatype Tree = Node(id: nat, children: seq<Tree>)

  predicate IsRoot(links: Links, id: nat)
    requires id in links
  {
    links[id].parent !in links || links[id].parent == id
  }

  predicate Encloses(links: Links, p: nat, c: nat) {
    p in links && c in links && links[c].parent == p && p != c
  }

  // ---------- Climbing ----------

  /** The ancestor `k` steps above, if there is one. */
  function Climb(links: Links, id: nat, k: nat): Option<nat>
    decreases k
  {
    if id !in links then None
    else if k == 0 then Some(id)
    else if IsRoot(links, id) then None
    else Climb(links, links[id].parent, k - 1)
  }

  ghost predicate HasDepth(links: Links, id: nat, d: nat) {
    var top := Climb(links, id, d);
    top.Some? && top.value in links && IsRoot(links, top.value)
  }

  /** The parent chain ends at a root. */
  ghost predicate Reaches(links: Links, id: nat) { exists d: nat :: HasDepth(links, id, d) }

  /** The parent chain comes back to an identity it has passed. */
  ghost predicate RunsIntoCycle(links: Links, id: nat) {
    exists j: nat, k: nat :: 0 < k && Climb(links, id, j).Some?
                             && Climb(links, Climb(links, id, j).value, k) == Climb(links, id, j)
  }

  lemma {:induction false} ClimbStays(links: Links, id: nat, k: nat)
    requires Climb(links, id, k).Some?
    ensures id in links && Climb(links, id, k).value in links
    decreases k
  {
    if k > 0 { ClimbStays(links, links[id].parent, k - 1); }
  }

  lemma {:induction false} ClimbOn(links: Links, id: nat, j: nat, k: nat)
    requires Climb(links, id, j).Some?
    ensures Climb(links, id, j + k) == Climb(links, Climb(links, id, j).value, k)
    decreases j
  {
    if j > 0 { ClimbOn(links, links[id].parent, j - 1, k); }
  }

  lemma {:induction false} ClimbPrefix(links: Links, id: nat, j: nat, k: nat)
    requires j <= k && Climb(links, id, k).Some?
    ensures Climb(links, id, j).Some?
    decreases j
  {
    if j > 0 { ClimbPrefix(links, links[id].parent, j - 1, k - 1); }
  }

  lemma IsIn(links: Links, id: nat, d: nat)
    requires HasDepth(links, id, d)
    ensures id in links
  {
  }

  lemma DepthUnique(links: Links, id: nat, m: nat, n: nat)
    requires HasDepth(links, id, m) && HasDepth(links, id, n)
    ensures m == n
  {
    if m < n { ClimbOn(links, id, m, n - m); }
    if n < m { ClimbOn(links, id, n, m - n); }
  }

  lemma DepthOfChild(links: Links, p: nat, c: nat, d: nat)
    requires Encloses(links, p, c) && HasDepth(links, p, d)
    ensures HasDepth(links, c, d + 1)
  {
  }

  /** An identity climbs to another: the depths differ by the steps taken. */
  lemma DepthBelow(links: Links, id: nat, k: nat, top: nat, d: nat)
    requires Climb(links, id, k) == Some(top) && HasDepth(links, top, d)
    ensures HasDepth(links, id, k + d)
  {
    ClimbOn(links, id, k, d);
  }

  // ---------- Depths are bounded ----------

  ghost function Lineage(links: Links, id: nat, d: nat): set<nat>
    requires Climb(links, id, d).Some?
    decreases d
  {
    if d == 0 then {id} else {id} + Lineage(links, links[id].parent, d - 1)
  }

  lemma {:induction false} LineageSize(links: Links, id: nat, d: nat)
    requires HasDepth(links, id, d)
    ensures |Lineage(links, id, d)| == d + 1
    ensures Lineage(links, id, d) <= links.Keys
    ensures forall x :: x in Lineage(links, id, d) ==> exists m: nat :: m <= d && HasDepth(links, x, m)
    decreases d
  {
    if d > 0 {
      var rest := Lineage(links, links[id].parent, d - 1);
      LineageSize(links, links[id].parent, d - 1);
      if id in rest {
        var m: nat :| m <= d - 1 && HasDepth(links, id, m);
        DepthUnique(links, id, m, d);
      }
    }
  }

  lemma DepthBound(links: Links, id: nat, d: nat)
    requires HasDepth(links, id, d)
    ensures d < |links|
  {
    LineageSize(links, id, d);
    SubsetSize(Lineage(links, id, d), links.Keys);
    assert |links.Keys| == |links|;
  }

  // ---------- Exactly the acyclic chains reach a root ----------

  /** A parent chain reaches a root if and only if it does not run into a cycle. */
  lemma ReachesIffAcyclic(links: Links, id: nat)
    requires id in links
    ensures Reaches(links, id) <==> !RunsIntoCycle(links, id)
  {
    if Reaches(links, id) && RunsIntoCycle(links, id) {
      var d: nat :| HasDepth(links, id, d);
      var j: nat, k: nat :| 0 < k && Climb(links, id, j).Some?
        && Climb(links, Climb(links, id, j).value, k) == Climb(links, id, j);
      CycleHasNoDepth(links, id, d, j, k);
    }
    if !Reaches(links, id) {
      forall n: nat ensures Climb(links, id, n).Some? { ClimbsForever(links, id, n); }
      Pigeonhole(links, id);
    }
  }

  lemma CycleHasNoDepth(links: Links, id: nat, d: nat, j: nat, k: nat)
    requires 0 < k && Climb(links, id, j).Some?
    requires Climb(links, Climb(links, id, j).value, k) == Climb(links, id, j)
    ensures !HasDepth(links, id, d)
  {
    var y := Climb(links, id, j).value;
    if HasDepth(links, id, d) {
      if j <= d {
        ClimbOn(links, id, j, d - j);
        DepthBelow(links, y, k, y, d - j);
        DepthUnique(links, y, d - j, k + d - j);
      } else {
        ClimbOn(links, id, d, j - d);
      }
    }
  }

  lemma {:induction false} ClimbsForever(links: Links, id: nat, n: nat)
    requires id in links && !Reaches(links, id)
    ensures Climb(links, id, n).Some?
  {
    if n > 0 {
      ClimbsForever(links, id, n - 1);
      ClimbStays(links, id, n - 1);
      assert !HasDepth(links, id, n - 1);
      ClimbOn(links, id, n - 1, 1);
    }
  }

  /** The ancestors met in the first `n` steps. */
  ghost function Met(links: Links, id: nat, n: nat): set<nat> {
    if n == 0 then {} else Met(links, id, n - 1) + match Climb(links, id, n - 1) { case Some(x) => {x} case None => {} }
  }

  ghost predicate Within(links: Links, id: nat, n: nat, x: nat) {
    exists i: nat :: i < n && Climb(links, id, i) == Some(x)
  }

  lemma {:induction false} MetSize(links: Links, id: nat, n: nat)
    requires forall i: nat :: Climb(links, id, i).Some?
    requires !RunsIntoCycle(links, id)
    ensures |Met(links, id, n)| == n && Met(links, id, n) <= links.Keys
    ensures forall x :: x in Met(links, id, n) ==> Within(links, id, n, x)
  {
    if n > 0 {
      MetSize(links, id, n - 1);
      var x := Climb(links, id, n - 1).value;
      ClimbStays(links, id, n - 1);
      if x in Met(links, id, n - 1) {
        assert Within(links, id, n - 1, x);
        var i: nat :| i < n - 1 && Climb(links, id, i) == Some(x);
        ClimbOn(links, id, i, n - 1 - i);
        assert RunsIntoCycle(links, id);
      }
      forall y | y in Met(links, id, n) ensures Within(links, id, n, y) {
        if y != x { assert Within(links, id, n - 1, y); }
      }
    }
  }

  lemma Pigeonhole(links: Links, id: nat)
    requires forall n: nat :: Climb(links, id, n).Some?
    ensures RunsIntoCycle(links, id)
  {
    if !RunsIntoCycle(links, id) {
      assert |links.Keys| == |links|;
      MetSize(links, id, |links| + 1);
      SubsetSize(Met(links, id, |links| + 1), links.Keys);
    }
  }

  /** Identities handed out after their parents' reach a root, whatever else is missing. */
  lemma {:induction false} EarlierParentsReach(links: Links, id: nat)
    requires forall c :: c in links ==> links[c].parent <= c
    requires id in links
    ensures Reaches(links, id)
    decreases id
  {
    if IsRoot(links, id) {
      assert HasDepth(links, id, 0);
    } else {
      var p := links[id].parent;
      EarlierParentsReach(links, p);
      var d: nat :| HasDepth(links, p, d);
      DepthOfChild(links, p, id, d);
    }
  }

  // ---------- Siblings in order ----------

  function StartKey(links: Links): nat -> Key {
    (id: nat) => Key(if id in links then links[id].start else 0, id)
  }

  ghost function AnyOrder(ids: set<nat>): seq<nat> {
    if ids == {} then [] else var x :| x in ids; [x] + AnyOrder(ids - {x})
  }

  lemma {:induction false} AnyOrderIs(ids: set<nat>)
    ensures Distinct(AnyOrder(ids))
    ensures forall x :: x in AnyOrder(ids) <==> x in ids
  {
    if ids != {} {
      var x := AnyOrder(ids)[0];
      assert AnyOrder(ids) == [x] + AnyOrder(ids - {x});
      AnyOrderIs(ids - {x});
    }
  }

  /** A set of identities, oldest first, ties broken by identity. */
  ghost function Arrange(links: Links, ids: set<nat>): seq<nat> { StableSort(AnyOrder(ids), StartKey(links)) }

  lemma ArrangeIs(links: Links, ids: set<nat>)
    ensures Ascending(Arrange(links, ids), StartKey(links))
    ensures forall x :: x in Arrange(links, ids) <==> x in ids
  {
    AnyOrderIs(ids);
    SortAscending(AnyOrder(ids), StartKey(links));
    SortMembers(AnyOrder(ids), StartKey(links));
  }

  lemma ArrangeUnique(links: Links, ids: set<nat>, xs: seq<nat>)
    requires Ascending(xs, StartKey(links)) && forall x :: x in xs <==> x in ids
    ensures xs == Arrange(links, ids)
  {
    ArrangeIs(links, ids);
    AscendingUnique(xs, Arrange(links, ids), StartKey(links));
  }

  lemma AscendingDistinct(links: Links, xs: seq<nat>)
    requires Ascending(xs, StartKey(links))
    ensures Distinct(xs)
  {
  }

  function Children(links: Links, p: nat): set<nat> { set c | c in links && Encloses(links, p, c) }

  function Roots(links: Links): set<nat> { set r | r in links && IsRoot(links, r) }

  // ---------- The forest ----------

  ghost predicate AllAtDepth(links: Links, ids: seq<nat>, d: nat) {
    forall id :: id in ids ==> HasDepth(links, id, d)
  }

  lemma ChildrenAtDepth(links: Links, id: nat, d: nat)
    requires HasDepth(links, id, d)
    ensures AllAtDepth(links, Arrange(links, Children(links, id)), d + 1)
    ensures d < |links|
  {
    DepthBound(links, id, d);
    ArrangeIs(links, Children(links, id));
    forall c | c in Arrange(links, Children(links, id)) ensures HasDepth(links, c, d + 1) {
      DepthOfChild(links, id, c, d);
    }
  }

  lemma RootsAtDepth(links: Links)
    ensures AllAtDepth(links, Arrange(links, Roots(links)), 0)
  {
    ArrangeIs(links, Roots(links));
  }

  ghost function Shape(links: Links, id: nat, d: nat): Tree
    requires HasDepth(links, id, d)
    decreases |links| - d, 0, 0
  {
    ChildrenAtDepth(links, id, d);
    Node(id, Shapes(links, Arrange(links, Children(links, id)), d + 1))
  }

  ghost function Shapes(links: Links, ids: seq<nat>, d: nat): (ts: seq<Tree>)
    requires AllAtDepth(links, ids, d)
    ensures |ts| == |ids|
    decreases |links| - d, 1, |ids|
  {
    if ids == [] then []
    else
      var last := |ids| - 1;
      Shapes(links, ids[..last], d) + [Shape(links, ids[last], d)]
  }

  ghost function ForestOf(links: Links): seq<Tree> {
    RootsAtDepth(links);
    Shapes(links, Arrange(links, Roots(links)), 0)
  }

  lemma {:induction false} ShapesAt(links: Links, ids: seq<nat>, d: nat, i: nat)
    requires AllAtDepth(links, ids, d) && i < |ids|
    ensures HasDepth(links, ids[i], d) && Shapes(links, ids, d)[i] == Shape(links, ids[i], d)
    decreases |ids|
  {
    if i < |ids| - 1 { ShapesAt(links, ids[..|ids| - 1], d, i); }
  }

  // ---------- What the forest holds ----------

  /** The identities of a tree, parents before children. */
  function Preorder(t: Tree): seq<nat> { [t.id] + PreorderAll(t.children) }

  function PreorderAll(ts: seq<Tree>): seq<nat> {
    if ts == [] then [] else PreorderAll(ts[..|ts| - 1]) + Preorder(ts[|ts| - 1])
  }

  /** `id` is `x` or one of its ancestors. */
  ghost predicate Under(links: Links, x: nat, id: nat) { exists k: nat :: Climb(links, x, k) == Some(id) }

  ghost function Below(links: Links, id: nat): set<nat> { set x | x in links && Under(links, x, id) }

  ghost function BelowAny(links: Links, ids: seq<nat>): set<nat> {
    set x | x in links && exists id :: id in ids && Under(links, x, id)
  }

  lemma BelowSplits(links: Links, id: nat, d: nat)
    requires HasDepth(links, id, d)
    ensures var cs := Arrange(links, Children(links, id));
      Below(links, id) == {id} + BelowAny(links, cs) && id !in BelowAny(links, cs)
  {
    var cs := Arrange(links, Children(links, id));
    ArrangeIs(links, Children(links, id));
    forall x | x in Below(links, id) ensures x in {id} + BelowAny(links, cs) {
      var k: nat :| Climb(links, x, k) == Some(id);
      if k > 0 { LastStep(links, x, k, id); }
    }
    forall x | x in {id} + BelowAny(links, cs) ensures x in Below(links, id) {
      if x == id {
        assert Climb(links, id, 0) == Some(id);
      } else {
        var c :| c in cs && Under(links, x, c);
        var k: nat :| Climb(links, x, k) == Some(c);
        ClimbOn(links, x, k, 1);
        assert Climb(links, x, k + 1) == Climb(links, c, 1) == Climb(links, id, 0);
      }
    }
    if id in BelowAny(links, cs) {
      var c :| c in cs && Under(links, id, c);
      var k: nat :| Climb(links, id, k) == Some(c);
      DepthOfChild(links, id, c, d);
      DepthBelow(links, id, k, c, d + 1);
      DepthUnique(links, id, d, k + d + 1);
    }
  }

  lemma LastStep(links: Links, x: nat, k: nat, id: nat)
    requires 0 < k && Climb(links, x, k) == Some(id)
    ensures exists c :: Encloses(links, id, c) && Under(links, x, c)
  {
    ClimbPrefix(links, x, k - 1, k);
    var c := Climb(links, x, k - 1).value;
    ClimbStays(links, x, k - 1);
    ClimbOn(links, x, k - 1, 1);
    assert Climb(links, c, 1) == Some(id);
    assert Climb(links, links[c].parent, 0) == Some(id);
    assert Encloses(links, id, c);
  }

  lemma BelowAnySplits(links: Links, ids: seq<nat>, d: nat)
    requires ids != [] && Distinct(ids) && AllAtDepth(links, ids, d)
    ensures var last := |ids| - 1;
      BelowAny(links, ids) == BelowAny(links, ids[..last]) + Below(links, ids[last])
      && BelowAny(links, ids[..last]) !! Below(links, ids[last])
  {
    var last := |ids| - 1;
    assert ids == ids[..last] + [ids[last]];
    forall x | x in BelowAny(links, ids[..last]) && x in Below(links, ids[last]) ensures false {
      var a :| a in ids[..last] && Under(links, x, a);
      var j: nat :| Climb(links, x, j) == Some(a);
      var k: nat :| Climb(links, x, k) == Some(ids[last]);
      DepthBelow(links, x, j, a, d);
      DepthBelow(links, x, k, ids[last], d);
      DepthUnique(links, x, j + d, k + d);
    }
  }

  lemma DisjointUnion(a: set<nat>, b: set<nat>)
    requires a !! b
    ensures multiset(a + b) == multiset(a) + multiset(b)
  {
  }

  /** A tree holds each identity below its root exactly once, and nothing else. */
  lemma {:induction false} ShapeHolds(links: Links, id: nat, d: nat)
    requires HasDepth(links, id, d)
    ensures multiset(Preorder(Shape(links, id, d))) == multiset(Below(links, id))
    decreases |links| - d, 0, 0
  {
    hide HasDepth;
    ChildrenAtDepth(links, id, d);
    var cs := Arrange(links, Children(links, id));
    ArrangeIs(links, Children(links, id));
    AscendingDistinct(links, cs);
    ShapesHold(links, cs, d + 1);
    BelowSplits(links, id, d);
    DisjointUnion({id}, BelowAny(links, cs));
  }

  lemma {:induction false} ShapesHold(links: Links, ids: seq<nat>, d: nat)
    requires AllAtDepth(links, ids, d) && Distinct(ids)
    ensures multiset(PreorderAll(Shapes(links, ids, d))) == multiset(BelowAny(links, ids))
    decreases |links| - d, 1, |ids|
  {
    hide HasDepth, Under;
    if ids != [] {
      var last := |ids| - 1;
      ShapesHold(links, ids[..last], d);
      ShapeHolds(links, ids[last], d);
      BelowAnySplits(links, ids, d);
      DisjointUnion(BelowAny(links, ids[..last]), Below(links, ids[last]));
      var ts := Shapes(links, ids, d);
      assert ts[..last] == Shapes(links, ids[..last], d);
    }
  }

  ghost function Reachable(links: Links): set<nat> { set x | x in links && Reaches(links, x) }

  /** The forest holds exactly the identities whose parent chain reaches a root, each once. */
  lemma ForestHoldsReachable(links: Links)
    ensures multiset(PreorderAll(ForestOf(links))) == multiset(Reachable(links))
  {
    var rs := Arrange(links, Roots(links));
    ArrangeIs(links, Roots(links));
    AscendingDistinct(links, rs);
    RootsAtDepth(links);
    ShapesHold(links, rs, 0);
    forall x | x in links ensures x in BelowAny(links, rs) <==> x in Reachable(links) {
      if x in BelowAny(links, rs) {
        var r :| r in rs && Under(links, x, r);
        var k: nat :| Climb(links, x, k) == Some(r);
        assert HasDepth(links, x, k);
      }
      if Reaches(links, x) {
        var k: nat :| HasDepth(links, x, k);
        assert Under(links, x, Climb(links, x, k).value);
      }
    }
    assert BelowAny(links, rs) == Reachable(links);
  }

  /** The forest holds everything, as many nodes as identities, exactly when no chain runs into a cycle. */
  lemma ForestHoldsAll(links: Links)
    ensures var acyclic := forall id :: id in links ==> !RunsIntoCycle(links, id);
      && (acyclic ==> multiset(PreorderAll(ForestOf(links))) == multiset(links.Keys))
      && (|PreorderAll(ForestOf(links))| == |links| <==> acyclic)
  {
    hide RunsIntoCycle, Reaches;
    var reached := Reachable(links);
    ForestHoldsReachable(links);
    assert |PreorderAll(ForestOf(links))| == |multiset(PreorderAll(ForestOf(links)))| == |multiset(reached)| == |reached|;
    forall id | id in links ensures Reaches(links, id) <==> !RunsIntoCycle(links, id) { ReachesIffAcyclic(links, id); }
    assert |links.Keys| == |links| && reached <= links.Keys;
    if id :| id in links && RunsIntoCycle(links, id) {
      SubsetSize(reached, links.Keys - {id});
    } else {
      assert reached == links.Keys;
    }
  }
}
