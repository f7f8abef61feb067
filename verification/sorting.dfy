/** The library sorts this repository calls, as functions, with what makes their results unique. */
module Sorting {
  import opened Sequences

  /** What a comparison looks at: one number, and another to break a tie. */
  datatype Key = Key(major: int, minor: int)

  predicate Leq(a: Key, b: Key) { a.major < b.major || (a.major == b.major && a.minor <= b.minor) }

  predicate Less(a: Key, b: Key) { a.major < b.major || (a.major == b.major && a.minor < b.minor) }

  function Insert<T>(x: T, xs: seq<T>, key: T -> Key): seq<T> {
    if xs == [] || Leq(key(x), key(xs[0])) then [x] + xs else [xs[0]] + Insert(x, xs[1..], key)
  }

  function StableSort<T>(xs: seq<T>, key: T -> Key): seq<T> {
    if xs == [] then [] else Insert(xs[0], StableSort(xs[1..], key), key)
  }

  ghost predicate Sorted<T>(xs: seq<T>, key: T -> Key) {
    forall i, j :: 0 <= i < j < |xs| ==> Leq(key(xs[i]), key(xs[j]))
  }

  ghost predicate Ascending<T>(xs: seq<T>, key: T -> Key) {
    forall i, j :: 0 <= i < j < |xs| ==> Less(key(xs[i]), key(xs[j]))
  }

  lemma {:induction false} InsertMultiset<T>(x: T, xs: seq<T>, key: T -> Key)
    ensures multiset(Insert(x, xs, key)) == multiset(xs) + multiset{x}
  {
    if xs != [] {
      assert xs == [xs[0]] + xs[1..];
      if !Leq(key(x), key(xs[0])) { InsertMultiset(x, xs[1..], key); }
    }
  }

  /** Sorting permutes. */
  lemma {:induction false} SortMultiset<T>(xs: seq<T>, key: T -> Key)
    ensures multiset(StableSort(xs, key)) == multiset(xs)
  {
    if xs != [] {
      SortMultiset(xs[1..], key);
      InsertMultiset(xs[0], StableSort(xs[1..], key), key);
      assert xs == [xs[0]] + xs[1..];
    }
  }

  lemma SortMember<T>(xs: seq<T>, key: T -> Key, x: T)
    ensures x in StableSort(xs, key) <==> x in xs
  {
    SortMultiset(xs, key);
    assert x in StableSort(xs, key) <==> x in multiset(StableSort(xs, key));
    assert x in xs <==> x in multiset(xs);
  }

  lemma SortMembers<T>(xs: seq<T>, key: T -> Key)
    ensures |StableSort(xs, key)| == |xs|
    ensures forall x :: x in StableSort(xs, key) <==> x in xs
  {
    SortMultiset(xs, key);
    assert |multiset(StableSort(xs, key))| == |multiset(xs)|;
    forall x ensures x in StableSort(xs, key) <==> x in xs { SortMember(xs, key, x); }
  }

  lemma NonEmptyHas<T>(xs: seq<T>)
    requires xs != []
    ensures exists x :: x in xs
  {
    assert xs[0] in xs;
  }

  lemma EmptyIfNone<T>(xs: seq<T>)
    requires forall x :: x !in xs
    ensures xs == []
  {
    if xs != [] { NonEmptyHas(xs); }
  }

  lemma {:induction false} InsertMembers<T>(x: T, xs: seq<T>, key: T -> Key, y: T)
    ensures y in Insert(x, xs, key) <==> y == x || y in xs
  {
    InsertMultiset(x, xs, key);
    assert y in Insert(x, xs, key) <==> y in multiset(Insert(x, xs, key));
    assert y in xs <==> y in multiset(xs);
  }

  lemma {:induction false} InsertSorted<T>(x: T, xs: seq<T>, key: T -> Key)
    requires Sorted(xs, key)
    ensures Sorted(Insert(x, xs, key), key)
  {
    if xs != [] && !Leq(key(x), key(xs[0])) {
      InsertSorted(x, xs[1..], key);
      var rest := Insert(x, xs[1..], key);
      InsertMultiset(x, xs[1..], key);
      forall j | 0 <= j < |rest| ensures Leq(key(xs[0]), key(rest[j])) {
        InsertMembers(x, xs[1..], key, rest[j]);
      }
    }
  }

  /** Sorting sorts. */
  lemma {:induction false} SortSorted<T>(xs: seq<T>, key: T -> Key)
    ensures Sorted(StableSort(xs, key), key)
  {
    if xs != [] {
      SortSorted(xs[1..], key);
      InsertSorted(xs[0], StableSort(xs[1..], key), key);
    }
  }

  function HasKey<T>(key: T -> Key, k: Key): T -> bool { (x: T) => key(x) == k }

  lemma {:induction false} InsertStable<T>(x: T, xs: seq<T>, key: T -> Key, k: Key)
    requires Sorted(xs, key)
    ensures Filter(Insert(x, xs, key), HasKey(key, k)) == (if key(x) == k then [x] else []) + Filter(xs, HasKey(key, k))
  {
    hide Filter;
    if xs == [] || Leq(key(x), key(xs[0])) {
      FilterCons(x, xs, HasKey(key, k));
    } else {
      InsertStable(x, xs[1..], key, k);
      FilterCons(xs[0], Insert(x, xs[1..], key), HasKey(key, k));
      FilterCons(xs[0], xs[1..], HasKey(key, k));
      assert xs == [xs[0]] + xs[1..];
    }
  }

  /** Sorting keeps equal elements in the order they came. */
  lemma {:induction false} SortStable<T>(xs: seq<T>, key: T -> Key, k: Key)
    ensures Filter(StableSort(xs, key), HasKey(key, k)) == Filter(xs, HasKey(key, k))
  {
    if xs != [] {
      SortStable(xs[1..], key, k);
      SortSorted(xs[1..], key);
      InsertStable(xs[0], StableSort(xs[1..], key), key, k);
      FilterCons(xs[0], xs[1..], HasKey(key, k));
      assert xs == [xs[0]] + xs[1..];
    }
  }

  /** Two strictly ascending sequences of the same elements are the same sequence. */
  lemma {:induction false} AscendingUnique<T>(xs: seq<T>, ys: seq<T>, key: T -> Key)
    requires Ascending(xs, key) && Ascending(ys, key)
    requires forall x :: x in xs <==> x in ys
    ensures xs == ys
  {
    if xs == [] {
      EmptyIfNone(ys);
    } else {
      assert xs[0] in ys;
      assert ys[0] in xs;
      var i :| 0 <= i < |ys| && ys[i] == xs[0];
      var j :| 0 <= j < |xs| && xs[j] == ys[0];
      assert i == 0;
      forall x ensures x in xs[1..] <==> x in ys[1..] {
        if x in xs[1..] {
          var a :| 1 <= a < |xs| && xs[a] == x;
          assert x in ys && x != ys[0];
        }
        if x in ys[1..] {
          var a :| 1 <= a < |ys| && ys[a] == x;
          assert x in xs && x != xs[0];
        }
      }
      AscendingUnique(xs[1..], ys[1..], key);
    }
  }

  ghost predicate KeysDistinct<T>(xs: seq<T>, key: T -> Key) {
    forall i, j :: 0 <= i < j < |xs| ==> key(xs[i]) != key(xs[j])
  }

  /** Without ties, sorting is strict. */
  lemma {:induction false} SortAscending<T>(xs: seq<T>, key: T -> Key)
    requires KeysDistinct(xs, key)
    ensures Ascending(StableSort(xs, key), key)
  {
    if xs != [] {
      SortAscending(xs[1..], key);
      var rest := StableSort(xs[1..], key);
      SortMembers(xs[1..], key);
      forall y | y in rest ensures key(y) != key(xs[0]) {
        SortMember(xs[1..], key, y);
        var i :| 0 <= i < |xs[1..]| && xs[1..][i] == y;
        assert xs[i + 1] == y;
      }
      InsertAscending(xs[0], rest, key);
    }
  }

  lemma {:induction false} InsertAscending<T>(x: T, xs: seq<T>, key: T -> Key)
    requires Ascending(xs, key)
    requires forall y :: y in xs ==> key(y) != key(x)
    ensures Ascending(Insert(x, xs, key), key)
  {
    if xs != [] && !Leq(key(x), key(xs[0])) {
      InsertAscending(x, xs[1..], key);
      var rest := Insert(x, xs[1..], key);
      InsertMultiset(x, xs[1..], key);
      forall j | 0 <= j < |rest| ensures Less(key(xs[0]), key(rest[j])) {
        InsertMembers(x, xs[1..], key, rest[j]);
      }
    }
  }

  /** Without ties, sorting forgets the order it was given. */
  lemma SortForgetsOrder<T>(xs: seq<T>, ys: seq<T>, key: T -> Key)
    requires multiset(xs) == multiset(ys)
    requires KeysDistinct(xs, key)
    ensures StableSort(xs, key) == StableSort(ys, key)
  {
    SortMembers(xs, key);
    SortMembers(ys, key);
    SortMultiset(xs, key);
    SortMultiset(ys, key);
    SortAscending(xs, key);
    SortSorted(ys, key);
    SortedPermutationAscends(StableSort(xs, key), StableSort(ys, key), key);
    forall x ensures x in StableSort(xs, key) <==> x in StableSort(ys, key) {
      assert x in xs <==> x in multiset(xs);
      assert x in ys <==> x in multiset(ys);
    }
    AscendingUnique(StableSort(xs, key), StableSort(ys, key), key);
  }

  lemma SortedPermutationAscends<T>(xs: seq<T>, ys: seq<T>, key: T -> Key)
    requires Ascending(xs, key) && Sorted(ys, key) && multiset(xs) == multiset(ys)
    ensures Ascending(ys, key)
  {
    forall i, j | 0 <= i < j < |ys| ensures Less(key(ys[i]), key(ys[j])) {
      assert Leq(key(ys[i]), key(ys[j]));
      if key(ys[i]) == key(ys[j]) {
        assert ys[i] in multiset(ys) && ys[j] in multiset(ys);
        var a :| 0 <= a < |xs| && xs[a] == ys[i];
        var b :| 0 <= b < |xs| && xs[b] == ys[j];
        assert a == b;
        CountTwice(ys, i, j);
        OnceOnly(xs, a, key);
        assert false;
      }
    }
  }

  lemma CountTwice<T>(xs: seq<T>, i: nat, j: nat)
    requires i < j < |xs| && xs[i] == xs[j]
    ensures multiset(xs)[xs[i]] >= 2
  {
    assert xs == xs[..i] + [xs[i]] + xs[i + 1..j] + [xs[j]] + xs[j + 1..];
  }

  lemma OnceOnly<T>(xs: seq<T>, a: nat, key: T -> Key)
    requires Ascending(xs, key) && a < |xs|
    ensures multiset(xs)[xs[a]] == 1
  {
    assert xs == xs[..a] + [xs[a]] + xs[a + 1..];
    assert xs[a] !in xs[..a] && xs[a] !in xs[a + 1..];
    assert multiset(xs[..a])[xs[a]] == 0 && multiset(xs[a + 1..])[xs[a]] == 0;
  }
}
