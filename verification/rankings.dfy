/** Accounts in order: the most bytes first, names breaking ties. Names order by their characters, not by a number. */
module Rankings {
  import opened Sorting

  datatype Rank = Rank(bytes: nat, name: string)

  /** Names compare character by character, a prefix before what extends it. */
  predicate Before(a: string, b: string) {
    b != "" && (a == "" || a[0] < b[0] || (a[0] == b[0] && Before(a[1..], b[1..])))
  }

  predicate Ahead(a: Rank, b: Rank) { a.bytes > b.bytes || (a.bytes == b.bytes && Before(a.name, b.name)) }

  lemma {:induction false} BeforeTotal(a: string, b: string)
    ensures a == b || Before(a, b) || Before(b, a)
    ensures !(Before(a, b) && Before(b, a)) && !Before(a, a)
  {
    if a != "" {
      BeforeTotal(a[1..], a[1..]);
      if b != "" {
        assert a == [a[0]] + a[1..] && b == [b[0]] + b[1..];
        BeforeTotal(a[1..], b[1..]);
      }
    }
  }

  lemma {:induction false} BeforeTransitive(a: string, b: string, c: string)
    requires Before(a, b) && Before(b, c)
    ensures Before(a, c)
  {
    if a != "" && a[0] == b[0] == c[0] { BeforeTransitive(a[1..], b[1..], c[1..]); }
  }

  /** Before by position: equal up to some place, and there `a` ends or has the lower character. */
  lemma {:induction false} BeforeIs(a: string, b: string)
    ensures Before(a, b) <==> exists k :: 0 <= k <= |a| && k < |b| && a[..k] == b[..k] && (k == |a| || a[k] < b[k])
  {
    if b == "" {
    } else if a == "" {
      assert a[..0] == b[..0];
    } else {
      BeforeIs(a[1..], b[1..]);
      if a[0] < b[0] { assert a[..0] == b[..0]; }
      if a[0] == b[0] && Before(a[1..], b[1..]) {
        var k :| 0 <= k <= |a[1..]| && k < |b[1..]| && a[1..][..k] == b[1..][..k] && (k == |a[1..]| || a[1..][k] < b[1..][k]);
        assert a[..k + 1] == [a[0]] + a[1..][..k] && b[..k + 1] == [b[0]] + b[1..][..k];
      }
      if k :| 0 <= k <= |a| && k < |b| && a[..k] == b[..k] && (k == |a| || a[k] < b[k]) {
        if k > 0 {
          assert a[0] == a[..k][0] == b[..k][0] == b[0];
          assert a[1..][..k - 1] == a[..k][1..] && b[1..][..k - 1] == b[..k][1..];
        }
      }
    }
  }

  lemma AheadOrders(a: Rank, b: Rank, c: Rank)
    ensures a == b || Ahead(a, b) || Ahead(b, a)
    ensures !(Ahead(a, b) && Ahead(b, a)) && !Ahead(a, a)
    ensures Ahead(a, b) && Ahead(b, c) ==> Ahead(a, c)
  {
    hide Before;
    BeforeTotal(a.name, b.name);
    BeforeTotal(a.name, a.name);
    if Before(a.name, b.name) && Before(b.name, c.name) { BeforeTransitive(a.name, b.name, c.name); }
  }

  // ---------- Sorting by rank ----------

  ghost predicate InRankOrder<T>(xs: seq<T>, rank: T -> Rank) {
    forall i, j :: 0 <= i < j < |xs| ==> Ahead(rank(xs[i]), rank(xs[j]))
  }

  function InsertRanked<T>(x: T, xs: seq<T>, rank: T -> Rank): seq<T> {
    if xs == [] || Ahead(rank(x), rank(xs[0])) then [x] + xs else [xs[0]] + InsertRanked(x, xs[1..], rank)
  }

  function SortRanked<T>(xs: seq<T>, rank: T -> Rank): seq<T> {
    if xs == [] then [] else InsertRanked(xs[0], SortRanked(xs[1..], rank), rank)
  }

  lemma {:induction false} InsertedMembers<T>(x: T, xs: seq<T>, rank: T -> Rank)
    ensures multiset(InsertRanked(x, xs, rank)) == multiset(xs) + multiset{x}
  {
    if xs != [] {
      assert xs == [xs[0]] + xs[1..];
      if !Ahead(rank(x), rank(xs[0])) { InsertedMembers(x, xs[1..], rank); }
    }
  }

  lemma {:induction false} InsertedRanked<T>(x: T, xs: seq<T>, rank: T -> Rank)
    requires InRankOrder(xs, rank) && forall y :: y in xs ==> rank(y) != rank(x)
    ensures InRankOrder(InsertRanked(x, xs, rank), rank)
  {
    hide Ahead;
    if xs != [] {
      AheadOrders(rank(x), rank(xs[0]), rank(x));
      if Ahead(rank(x), rank(xs[0])) {
        forall j | 0 <= j < |xs| ensures Ahead(rank(x), rank(xs[j])) { AheadOrders(rank(x), rank(xs[0]), rank(xs[j])); }
      } else {
        var rest := InsertRanked(x, xs[1..], rank);
        InsertedRanked(x, xs[1..], rank);
        InsertedMembers(x, xs[1..], rank);
        forall j | 0 <= j < |rest| ensures Ahead(rank(xs[0]), rank(rest[j])) {
          assert rest[j] in multiset(rest);
          if rest[j] != x {
            var i :| 1 <= i < |xs| && xs[i] == rest[j];
          }
        }
      }
    }
  }

  ghost predicate RanksDistinct<T>(xs: seq<T>, rank: T -> Rank) {
    forall i, j :: 0 <= i < j < |xs| ==> rank(xs[i]) != rank(xs[j])
  }

  lemma {:induction false} HeadRankFresh<T>(xs: seq<T>, rest: seq<T>, rank: T -> Rank)
    requires xs != [] && RanksDistinct(xs, rank) && multiset(rest) == multiset(xs[1..])
    ensures forall y :: y in rest ==> rank(y) != rank(xs[0])
  {
    forall y | y in rest ensures rank(y) != rank(xs[0]) {
      assert y in multiset(xs[1..]);
      var i :| 1 <= i < |xs| && xs[i] == y;
    }
  }

  /** Sorting permutes, and without ties leaves each ahead of all that follow. */
  lemma {:induction false} SortedRanked<T>(xs: seq<T>, rank: T -> Rank)
    requires RanksDistinct(xs, rank)
    ensures multiset(SortRanked(xs, rank)) == multiset(xs) && InRankOrder(SortRanked(xs, rank), rank)
  {
    if xs != [] {
      hide InRankOrder, InsertRanked, Ahead;
      assert RanksDistinct(xs[1..], rank);
      hide RanksDistinct;
      var rest := SortRanked(xs[1..], rank);
      SortedRanked(xs[1..], rank);
      HeadRankFresh(xs, rest, rank);
      InsertedMembers(xs[0], rest, rank);
      InsertedRanked(xs[0], rest, rank);
      assert xs == [xs[0]] + xs[1..];
    } else {
      assert InRankOrder(xs, rank);
    }
  }

  /** Two rankings of the same elements are the same ranking. */
  lemma {:induction false} RankedUnique<T>(xs: seq<T>, ys: seq<T>, rank: T -> Rank)
    requires InRankOrder(xs, rank) && InRankOrder(ys, rank)
    requires forall x :: x in xs <==> x in ys
    ensures xs == ys
  {
    hide Ahead;
    if xs == [] {
      EmptyIfNone(ys);
    } else {
      assert xs[0] in ys;
      assert ys != [] && ys[0] in xs;
      var i :| 0 <= i < |ys| && ys[i] == xs[0];
      var j :| 0 <= j < |xs| && xs[j] == ys[0];
      AheadOrders(rank(xs[0]), rank(ys[0]), rank(xs[0]));
      assert i == 0;
      forall x ensures x in xs[1..] <==> x in ys[1..] {
        AheadOrders(rank(x), rank(x), rank(x));
        if x in xs[1..] {
          var a :| 1 <= a < |xs| && xs[a] == x;
          assert x in ys && x != ys[0];
        }
        if x in ys[1..] {
          var a :| 1 <= a < |ys| && ys[a] == x;
          assert x in xs && x != xs[0];
        }
      }
      RankedUnique(xs[1..], ys[1..], rank);
    }
  }
}
