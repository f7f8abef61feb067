/** What the model needs of sequences: filters, maps, distinctness, subsequences. */
module Sequences {
  /** The elements a predicate keeps, in order. Unfolds at the end, as a loop appends. */
  function Filter<T>(xs: seq<T>, keep: T -> bool): seq<T> {
    if xs == [] then []
    else
      var last := |xs| - 1;
      Filter(xs[..last], keep) + if keep(xs[last]) then [xs[last]] else []
  }

  lemma {:induction false} FilterSnoc<T>(xs: seq<T>, x: T, keep: T -> bool)
    ensures Filter(xs + [x], keep) == Filter(xs, keep) + if keep(x) then [x] else []
  {
    assert (xs + [x])[..|xs|] == xs;
  }

  lemma {:induction false} FilterConcat<T>(xs: seq<T>, ys: seq<T>, keep: T -> bool)
    ensures Filter(xs + ys, keep) == Filter(xs, keep) + Filter(ys, keep)
  {
    if ys == [] {
      assert xs + ys == xs;
    } else {
      var last := |ys| - 1;
      assert xs + ys == (xs + ys[..last]) + [ys[last]];
      FilterSnoc(xs + ys[..last], ys[last], keep);
      FilterConcat(xs, ys[..last], keep);
    }
  }

  lemma FilterCons<T>(x: T, xs: seq<T>, keep: T -> bool)
    ensures Filter([x] + xs, keep) == (if keep(x) then [x] else []) + Filter(xs, keep)
  {
    FilterConcat([x], xs, keep);
    assert [x] == [] + [x];
    FilterSnoc([], x, keep);
  }

  lemma {:induction false} FilterCount<T>(xs: seq<T>, keep: T -> bool, x: T)
    ensures multiset(Filter(xs, keep))[x] == if keep(x) then multiset(xs)[x] else 0
  {
    if xs != [] {
      var last := |xs| - 1;
      FilterCount(xs[..last], keep, x);
      assert xs == xs[..last] + [xs[last]];
    }
  }

  lemma {:induction false} FilterMembers<T>(xs: seq<T>, keep: T -> bool)
    ensures forall x :: x in Filter(xs, keep) <==> x in xs && keep(x)
  {
    forall x ensures x in Filter(xs, keep) <==> x in xs && keep(x) {
      FilterCount(xs, keep, x);
      assert x in Filter(xs, keep) <==> x in multiset(Filter(xs, keep));
      assert x in xs <==> x in multiset(xs);
    }
  }

  lemma SameCounts<T>(a: multiset<T>, b: multiset<T>)
    requires forall x: T :: a[x] == b[x]
    ensures a == b
  {
  }

  /** A filter of a permutation is a permutation of the filter. */
  lemma FilterPermuted<T>(xs: seq<T>, ys: seq<T>, keep: T -> bool)
    requires multiset(xs) == multiset(ys)
    ensures multiset(Filter(xs, keep)) == multiset(Filter(ys, keep))
  {
    var a, b := multiset(Filter(xs, keep)), multiset(Filter(ys, keep));
    forall x: T ensures a[x] == b[x] {
      FilterCount(xs, keep, x);
      FilterCount(ys, keep, x);
    }
    SameCounts(a, b);
  }

  lemma {:induction false} FilterAgree<T>(xs: seq<T>, p: T -> bool, q: T -> bool)
    requires forall x :: x in xs ==> p(x) == q(x)
    ensures Filter(xs, p) == Filter(xs, q)
  {
    if xs != [] { FilterAgree(xs[..|xs| - 1], p, q); }
  }

  lemma {:induction false} FilterNothing<T>(xs: seq<T>, keep: T -> bool)
    requires forall x :: x in xs ==> !keep(x)
    ensures Filter(xs, keep) == []
  {
    if xs != [] { FilterNothing(xs[..|xs| - 1], keep); }
  }

  lemma {:induction false} FilterAll<T>(xs: seq<T>, keep: T -> bool)
    requires forall x :: x in xs ==> keep(x)
    ensures Filter(xs, keep) == xs
  {
    if xs != [] {
      var front, x := xs[..|xs| - 1], xs[|xs| - 1];
      assert xs == front + [x];
      assert x in xs;
      forall y | y in front ensures keep(y) { assert y in xs; }
      FilterAll(front, keep);
    }
  }

  /** Positions in order, each once. */
  ghost predicate Rising(at: seq<nat>) { forall j, k :: 0 <= j < k < |at| ==> at[j] < at[k] }

  /** `kept` is what stands in `xs` at just the positions that satisfy the predicate. */
  ghost predicate KeptAt<T>(kept: seq<T>, xs: seq<T>, keep: T -> bool, at: seq<nat>) {
    && Rising(at) && |at| == |kept|
    && (forall k :: 0 <= k < |at| ==> at[k] < |xs| && xs[at[k]] == kept[k])
    && (forall p :: 0 <= p < |xs| ==> (p in at <==> keep(xs[p])))
  }

  lemma {:induction false} KeptAtSnoc<T>(kept: seq<T>, xs: seq<T>, keep: T -> bool, at: seq<nat>, x: T)
    requires KeptAt(kept, xs, keep, at)
    ensures if keep(x) then KeptAt(kept + [x], xs + [x], keep, at + [|xs|]) else KeptAt(kept, xs + [x], keep, at)
  {
    var after := if keep(x) then at + [|xs|] else at;
    forall p: nat | p < |xs + [x]| ensures p in after <==> keep((xs + [x])[p]) {
      if p < |xs| {
        assert (xs + [x])[p] == xs[p];
        assert p in at <==> keep(xs[p]);
      }
    }
  }

  /** What a filter keeps, by position: the elements that satisfy the predicate, each where it stood. */
  lemma {:induction false} FilterPositions<T>(xs: seq<T>, keep: T -> bool) returns (at: seq<nat>)
    ensures KeptAt(Filter(xs, keep), xs, keep, at)
  {
    if xs == [] {
      at := [];
    } else {
      hide Filter, KeptAt;
      var front, x := xs[..|xs| - 1], xs[|xs| - 1];
      assert xs == front + [x];
      at := FilterPositions(front, keep);
      FilterSnoc(front, x, keep);
      KeptAtSnoc(Filter(front, keep), front, keep, at, x);
      assert Filter(front, keep) + [] == Filter(front, keep);
      if keep(x) { at := at + [|front|]; }
    }
  }

  function Both<T>(p: T -> bool, q: T -> bool): T -> bool { (x: T) => p(x) && q(x) }

  lemma {:induction false} FilterTwice<T>(xs: seq<T>, p: T -> bool, q: T -> bool)
    ensures Filter(Filter(xs, p), q) == Filter(xs, Both(p, q))
  {
    if xs != [] {
      var front, x := xs[..|xs| - 1], xs[|xs| - 1];
      FilterTwice(front, p, q);
      if p(x) {
        FilterSnoc(Filter(front, p), x, q);
      } else {
        assert Filter(front, p) + [] == Filter(front, p);
      }
    }
  }

  ghost predicate Distinct<T>(xs: seq<T>) {
    forall i, j :: 0 <= i < j < |xs| ==> xs[i] != xs[j]
  }

  /** `xs` is `ys` with some elements left out. */
  ghost predicate IsSubsequence<T>(xs: seq<T>, ys: seq<T>) {
    if xs == [] then true
    else if ys == [] then false
    else if xs[|xs| - 1] == ys[|ys| - 1] && IsSubsequence(xs[..|xs| - 1], ys[..|ys| - 1]) then true
    else IsSubsequence(xs, ys[..|ys| - 1])
  }

  lemma {:induction false} SubsequenceSnoc<T>(xs: seq<T>, ys: seq<T>, y: T)
    requires IsSubsequence(xs, ys)
    ensures IsSubsequence(xs + [y], ys + [y]) && IsSubsequence(xs, ys + [y])
  {
    assert (xs + [y])[..|xs|] == xs;
    assert (ys + [y])[..|ys|] == ys;
  }

  /** A subsequence by position. */
  lemma {:induction false} SubsequencePositions<T>(xs: seq<T>, ys: seq<T>) returns (at: seq<nat>)
    requires IsSubsequence(xs, ys)
    ensures Rising(at) && |at| == |xs| && forall k :: 0 <= k < |at| ==> at[k] < |ys| && ys[at[k]] == xs[k]
  {
    if xs == [] {
      at := [];
    } else {
      var x, y := |xs| - 1, |ys| - 1;
      if xs[x] == ys[y] && IsSubsequence(xs[..x], ys[..y]) {
        at := SubsequencePositions(xs[..x], ys[..y]);
        at := at + [y];
      } else {
        at := SubsequencePositions(xs, ys[..y]);
      }
    }
  }

  lemma Associative<T>(a: seq<T>, b: seq<T>, c: seq<T>)
    ensures (a + b) + c == a + (b + c)
  {
  }

  lemma {:induction false} SubsetSize<T>(a: set<T>, b: set<T>)
    requires a <= b
    ensures |a| <= |b|
  {
    if a != {} {
      var x :| x in a;
      SubsetSize(a - {x}, b - {x});
    }
  }
}
