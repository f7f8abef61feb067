/** The accounts of named work: running totals, rings and size maps, proved to be folds of what was recorded. */
module ProcessCosts {
  import opened Sequences
  import opened Rankings
  import opened Rings
  import opened ProcessRuns
  import opened ProcessSizes

  const OTHER := "other"

  datatype Cost = Cost(
    name: string, times: nat, bytesDuring: nat, objectsDuring: nat, cpuSecondsDuring: real,
    duration: int, longest: int, collections: nat, spread: Spread, runs: seq<Run>)

  /** One call of Record or RecordSpread. */
  datatype Entry = Entry(name: string, change: Change, spread: Spread)

  function KeyFor(names: set<string>, name: string): string { if name in names then name else OTHER }

  // ---------- The accounts as folds over what was recorded ----------

  function Unspent(name: string): Cost { Cost(name, 0, 0, 0, 0.0, 0, 0, 0, NOTHING, []) }

  function Spent(cost: Cost, change: Change): Cost {
    cost.(times := cost.times + 1,
          bytesDuring := cost.bytesDuring + change.allocBytes,
          objectsDuring := cost.objectsDuring + change.allocObjects,
          cpuSecondsDuring := cost.cpuSecondsDuring + change.cpuSeconds,
          duration := cost.duration + change.duration,
          collections := cost.collections + change.gcCycles,
          longest := if change.duration > cost.longest then change.duration else cost.longest)
  }

  /** What one name's account adds up to. */
  function Spending(key: string, changes: seq<Change>): Cost {
    if changes == [] then Unspent(key) else Spent(Spending(key, changes[..|changes| - 1]), changes[|changes| - 1])
  }

  function Under(names: set<string>, key: string): Entry -> bool { (e: Entry) => KeyFor(names, e.name) == key }

  function ChangesOf(entries: seq<Entry>): seq<Change> {
    if entries == [] then [] else ChangesOf(entries[..|entries| - 1]) + [entries[|entries| - 1].change]
  }

  function RunsOf(entries: seq<Entry>): seq<Run> {
    if entries == [] then []
    else
      var change := entries[|entries| - 1].change;
      RunsOf(entries[..|entries| - 1]) + [Run(change.endTime, change)]
  }

  function SizesOf(entries: seq<Entry>): map<Edge, nat> {
    if entries == [] then map[] else Recorded(SizesOf(entries[..|entries| - 1]), entries[|entries| - 1].spread)
  }

  function History(names: set<string>, key: string, history: seq<Entry>): seq<Entry> {
    Filter(history, Under(names, key))
  }

  function SizesAt(sizes: map<string, map<Edge, nat>>, key: string): map<Edge, nat> {
    if key in sizes then sizes[key] else map[]
  }

  // ---------- The code ----------

  method NewNames(names: seq<string>) returns (kept: set<string>)
    ensures forall n :: n in kept <==> n in names && n != "" && n != OTHER
  {
    kept := {};
    for k := 0 to |names|
      invariant forall n :: n in kept <==> n in names[..k] && n != "" && n != OTHER
    {
      if names[k] != "" && names[k] != OTHER { kept := kept + {names[k]}; }
    }
  }

  ghost predicate Keeps(ring: Runs, kept: seq<Run>)
    reads ring, ring.slots
  {
    ring.Valid() && ring.history == kept
  }

  /** What each ring keeps, and the name each ring, and the slots of each, belong to. */
  datatype Book = Book(kept: map<string, seq<Run>>, owner: map<object, string>, repr: set<object>)

  /** A ring of runs for each name, shared by whoever holds it. */
  class RunBook {
    var at: map<string, Runs>
    ghost var book: Book

    ghost predicate Valid()
      reads this, book.repr
      ensures Valid() ==> this in book.repr
    {
      && this in book.repr
      && at.Keys == book.kept.Keys
      && book.owner.Keys <= book.repr && this !in book.owner
      && (forall k :: k in at ==>
            at[k] in book.owner && book.owner[at[k]] == k
            && (at[k].slots != null ==> at[k].slots in book.owner && book.owner[at[k].slots] == k)
            && Keeps(at[k], book.kept[k]))
    }

    constructor ()
      ensures Valid() && fresh(book.repr) && book.kept == map[]
    {
      at, book := map[], Book(map[], map[], {this});
    }

    /** A new ring is nobody's, and the others keep what they kept. */
    method NewRing() returns (ring: Runs)
      requires Valid()
      ensures Valid() && fresh(ring) && Keeps(ring, []) && ring.slots == null
    {
      hide Keeps;
      ring := NewRuns();
      forall k | k in at ensures Keeps(at[k], book.kept[k]) { assert old(Keeps(at[k], book.kept[k])); }
    }

    method RingFor(key: string) returns (ring: Runs)
      requires Valid()
      modifies this
      ensures Valid() && fresh(book.repr - old(book.repr)) && key in at && ring == at[key]
      ensures book.kept == old(book.kept)[key := if key in old(book.kept) then old(book.kept)[key] else []]
    {
      hide Keeps;
      if key !in at {
        var created := NewRing();
        at, book := at[key := created],
          Book(book.kept[key := []], book.owner[created := key], book.repr + {created});
        forall k | k in at ensures Keeps(at[k], book.kept[k]) {}
      }
      ring := at[key];
    }

    /** The run reaches its ring; the others keep what they kept. */
    method Write(key: string, run: Run)
      requires Valid() && key in at
      modifies at[key], at[key].slots
      ensures Keeps(at[key], book.kept[key] + [run])
      ensures at[key].slots != null && (at[key].slots == old(at[key].slots) || fresh(at[key].slots))
      ensures forall k :: k in at && k != key ==> Keeps(at[k], book.kept[k]) && at[k].slots == old(at[k].slots)
    {
      hide Keeps;
      AddRun(at[key], run, book.kept[key]);
      forall k | k in at && k != key ensures Keeps(at[k], book.kept[k]) && at[k].slots == old(at[k].slots) {
        assert old(book.owner[at[k]]) != old(book.owner[at[key]]);
      }
    }

    method AddTo(key: string, run: Run)
      requires Valid() && key in at
      modifies this`book, at[key], at[key].slots
      ensures Valid() && fresh(book.repr - old(book.repr))
      ensures book.kept == old(book.kept)[key := old(book.kept)[key] + [run]]
    {
      hide Keeps;
      Write(key, run);
      ghost var slots: object := at[key].slots;
      book := Book(book.kept[key := book.kept[key] + [run]], book.owner[slots := key], book.repr + {slots});
      forall k | k in at ensures Keeps(at[k], book.kept[k]) {}
      forall k | k in at && at[k].slots != null ensures at[k].slots in book.owner && book.owner[at[k].slots] == k {
        assert k != key ==> old(book.owner[at[k].slots]) == k;
      }
    }

    method Add(key: string, run: Run)
      requires Valid()
      modifies book.repr
      ensures Valid() && fresh(book.repr - old(book.repr))
      ensures book.kept == old(book.kept)[key := (if key in old(book.kept) then old(book.kept)[key] else []) + [run]]
    {
      hide Keeps;
      var _ := RingFor(key);
      AddTo(key, run);
    }
  }

  method NewRuns() returns (ring: Runs)
    ensures fresh(ring) && Keeps(ring, []) && ring.slots == null
  {
    ring := new Runs();
  }

  method AddRun(ring: Runs, run: Run, ghost kept: seq<Run>)
    requires Keeps(ring, kept)
    modifies ring, ring.slots
    ensures Keeps(ring, kept + [run])
    ensures ring.slots != null && (ring.slots == old(ring.slots) || fresh(ring.slots))
  {
    ring.Add(run);
  }

  class Costs {
    const names: set<string>
    const keepsSizes: bool
    var totals: map<string, Cost>
    var sizes: map<string, map<Edge, nat>>
    const runs: RunBook
    ghost var history: seq<Entry>

    ghost predicate Valid()
      reads this, runs, runs.book.repr
    {
      && runs.Valid() && this !in runs.book.repr
      && totals.Keys == runs.book.kept.Keys
      && forall k :: Accounts(names, keepsSizes, history, totals, sizes, runs.book.kept, k)
    }

    constructor (distinguished: set<string>, keeps: bool)
      ensures Valid() && fresh(runs.book.repr) && history == [] && names == distinguished && keepsSizes == keeps
    {
      names, keepsSizes := distinguished, keeps;
      totals, sizes, history := map[], map[], [];
      runs := new RunBook();
    }

    method Record(name: string, change: Change, spread: Spread)
      requires Valid()
      modifies this, runs.book.repr
      ensures Valid() && fresh(runs.book.repr - old(runs.book.repr))
      ensures history == old(history) + [Entry(name, change, spread)]
    {
      hide RunBook.Valid, Accounts;
      var key := OTHER;
      if name in names { key := name; }
      assert key == KeyFor(names, name);
      ghost var wereTotals, wereSizes, wereKept := totals, sizes, runs.book.kept;
      var cost := if key in totals then totals[key] else Unspent("");
      totals := totals[key := Spent(cost.(name := key), change)];
      runs.Add(key, Run(change.endTime, change));
      if keepsSizes && spread.total != 0 {
        var classes := Accumulate(SizesAt(sizes, key), spread.classes);
        sizes := sizes[key := classes];
      }
      forall k
        ensures Accounts(names, keepsSizes, history + [Entry(name, change, spread)], totals, sizes, runs.book.kept, k)
      {
        assert Accounts(names, keepsSizes, history, wereTotals, wereSizes, wereKept, k);
        AccountsStep(names, keepsSizes, history, Entry(name, change, spread), wereTotals, wereSizes, wereKept, k);
      }
      history := history + [Entry(name, change, spread)];
    }

    /** One report for each account, ranked; the order the map is visited in does not matter. */
    method Snapshot() returns (reports: seq<Cost>)
      requires Valid()
      ensures IsSnapshot(reports, names, keepsSizes, history)
    {
      hide Reads, TotalOf, LastOf, Reversed, Accounts, IsSnapshot, InRankOrder, RanksDistinct;
      reports := [];
      var rest := totals.Keys;
      NothingListed(rest);
      while rest != {}
        invariant rest <= totals.Keys
        invariant Lists(reports, totals.Keys - rest)
        invariant forall r :: r in reports ==>
          r.name in totals && Reported(r, totals[r.name], SizesAt(sizes, r.name), runs.book.kept[r.name])
      {
        var name :| name in rest;
        AccountNamed(names, keepsSizes, history, totals, sizes, runs.book.kept, name);
        var spread := SpreadOf(SizesAt(sizes, name));
        var latest := runs.at[name].Latest();
        var report := totals[name].(spread := spread, runs := latest);
        OneMoreListed(reports, totals.Keys - rest, report);
        assert totals.Keys - (rest - {name}) == (totals.Keys - rest) + {name};
        reports := reports + [report];
        rest := rest - {name};
      }
      assert totals.Keys - rest == totals.Keys;
      ghost var unsorted := reports;
      reports := SortRanked(reports, SpentRank);
      SnapshotSorts(unsorted, reports, names, keepsSizes, history, totals, sizes, runs.book.kept);
    }
  }

  // ---------- What a snapshot is ----------

  function SpentRank(cost: Cost): Rank { Rank(cost.bytesDuring, cost.name) }

  /** One report for each name recorded and for no other, in order. */
  ghost predicate IsSnapshot(reports: seq<Cost>, names: set<string>, keepsSizes: bool, history: seq<Entry>) {
    && InRankOrder(reports, SpentRank)
    && (forall k :: (exists r :: r in reports && r.name == k) <==> History(names, k, history) != [])
    && forall r :: r in reports ==> ReportOf(r, keepsSizes, History(names, r.name, history), r.name)
  }

  /** A list of one report for each name in a set. */
  ghost predicate Lists(reports: seq<Cost>, keys: set<string>) {
    && RanksDistinct(reports, SpentRank)
    && forall k :: k in keys <==> exists r :: r in reports && r.name == k
  }

  lemma NothingListed(keys: set<string>)
    ensures Lists([], keys - keys)
  {
  }

  lemma {:induction false} OneMoreListed(reports: seq<Cost>, keys: set<string>, report: Cost)
    requires Lists(reports, keys) && report.name !in keys
    ensures Lists(reports + [report], keys + {report.name})
  {
    var all := reports + [report];
    forall i, j | 0 <= i < j < |all| ensures SpentRank(all[i]) != SpentRank(all[j]) {
      assert reports[i] in reports && reports[i].name in keys;
    }
    forall k ensures k in keys + {report.name} <==> exists r :: r in all && r.name == k {
      if r :| r in reports && r.name == k { assert r in all; }
      assert report in all;
    }
  }

  lemma SnapshotSorts(listed: seq<Cost>, reports: seq<Cost>, names: set<string>, keepsSizes: bool, history: seq<Entry>,
                      totals: map<string, Cost>, sizes: map<string, map<Edge, nat>>, kept: map<string, seq<Run>>)
    requires Lists(listed, totals.Keys) && totals.Keys == kept.Keys && reports == SortRanked(listed, SpentRank)
    requires forall k :: Accounts(names, keepsSizes, history, totals, sizes, kept, k)
    requires forall r :: r in listed ==>
      r.name in totals && Reported(r, totals[r.name], SizesAt(sizes, r.name), kept[r.name])
    ensures IsSnapshot(reports, names, keepsSizes, history)
  {
    hide Reported, History, Accounts, SortRanked, InRankOrder, RanksDistinct;
    SortedRanked(listed, SpentRank);
    forall r ensures r in reports <==> r in listed {
      assert r in reports <==> r in multiset(reports);
      assert r in listed <==> r in multiset(listed);
    }
    forall k ensures (exists r :: r in reports && r.name == k) <==> History(names, k, history) != [] {
      assert Accounts(names, keepsSizes, history, totals, sizes, kept, k);
      AccountedIff(names, keepsSizes, history, totals, sizes, kept, k);
    }
    forall r | r in reports ensures ReportOf(r, keepsSizes, History(names, r.name, history), r.name) {
      ReportedIs(names, keepsSizes, history, totals, sizes, kept, r.name, r);
    }
  }

  /** The report of a name, from all that was recorded under it. */
  ghost predicate ReportOf(report: Cost, keepsSizes: bool, entries: seq<Entry>, key: string) {
    && report.(spread := NOTHING, runs := []) == Spending(key, ChangesOf(entries))
    && Reads(report.spread.classes, if keepsSizes then SizesOf(entries) else map[])
    && report.spread.total == TotalOf(report.spread.classes)
    && report.runs == Reversed(LastOf(RunsOf(entries), MAX_RUNS))
  }

  lemma ReportedIs(names: set<string>, keepsSizes: bool, history: seq<Entry>,
                   totals: map<string, Cost>, sizes: map<string, map<Edge, nat>>, kept: map<string, seq<Run>>,
                   k: string, report: Cost)
    requires Accounts(names, keepsSizes, history, totals, sizes, kept, k) && k in totals && k in kept
    requires Reported(report, totals[k], SizesAt(sizes, k), kept[k])
    ensures History(names, k, history) != [] && ReportOf(report, keepsSizes, History(names, k, history), k)
  {
    hide History, Spending, ChangesOf, RunsOf, SizesOf, Reads, TotalOf, LastOf, Reversed;
    SpendingPlain(k, ChangesOf(History(names, k, history)));
    assert report.(spread := NOTHING, runs := []) == totals[k].(spread := NOTHING, runs := []);
  }

  lemma AccountedIff(names: set<string>, keepsSizes: bool, history: seq<Entry>,
                     totals: map<string, Cost>, sizes: map<string, map<Edge, nat>>, kept: map<string, seq<Run>>,
                     k: string)
    requires Accounts(names, keepsSizes, history, totals, sizes, kept, k)
    ensures k in totals <==> History(names, k, history) != []
  {
  }

  lemma AccountNamed(names: set<string>, keepsSizes: bool, history: seq<Entry>,
                     totals: map<string, Cost>, sizes: map<string, map<Edge, nat>>, kept: map<string, seq<Run>>,
                     k: string)
    requires Accounts(names, keepsSizes, history, totals, sizes, kept, k) && k in totals
    ensures totals[k].name == k
  {
    SpendingName(k, ChangesOf(History(names, k, history)));
  }

  ghost predicate Reported(report: Cost, cost: Cost, sizes: map<Edge, nat>, kept: seq<Run>) {
    && report.(spread := cost.spread, runs := cost.runs) == cost
    && Reads(report.spread.classes, sizes) && report.spread.total == TotalOf(report.spread.classes)
    && report.runs == Reversed(LastOf(kept, MAX_RUNS))
  }

  lemma {:induction false} SpendingPlain(key: string, changes: seq<Change>)
    ensures Spending(key, changes).spread == NOTHING && Spending(key, changes).runs == []
  {
    if changes != [] { SpendingPlain(key, changes[..|changes| - 1]); }
  }

  method Accumulate(sizes: map<Edge, nat>, classes: seq<Class>) returns (after: map<Edge, nat>)
    ensures after == Accumulated(sizes, classes)
  {
    after := sizes;
    for k := 0 to |classes|
      invariant after == Accumulated(sizes, classes[..k])
    {
      assert classes[..k + 1][..k] == classes[..k];
      after := after[classes[k].atMost := Amount(after, classes[k].atMost) + classes[k].count];
    }
    assert classes[..|classes|] == classes;
  }

  // ---------- What the fields of the account say about one name ----------

  ghost predicate Accounts(names: set<string>, keepsSizes: bool, history: seq<Entry>,
                           totals: map<string, Cost>, sizes: map<string, map<Edge, nat>>,
                           kept: map<string, seq<Run>>, k: string)
  {
    var entries := History(names, k, history);
    && (k in totals <==> entries != []) && (k in kept <==> entries != [])
    && (k in totals ==> totals[k] == Spending(k, ChangesOf(entries)))
    && (k in kept ==> kept[k] == RunsOf(entries))
    && SizesAt(sizes, k) == if keepsSizes then SizesOf(entries) else map[]
  }

  lemma {:induction false} FoldsSnoc(key: string, entries: seq<Entry>, e: Entry)
    ensures Spending(key, ChangesOf(entries + [e])) == Spent(Spending(key, ChangesOf(entries)), e.change)
    ensures RunsOf(entries + [e]) == RunsOf(entries) + [Run(e.change.endTime, e.change)]
    ensures SizesOf(entries + [e]) == Recorded(SizesOf(entries), e.spread)
  {
    assert (entries + [e])[..|entries|] == entries;
    var changes := ChangesOf(entries);
    assert (changes + [e.change])[..|changes|] == changes;
  }

  lemma AccountsStep(names: set<string>, keepsSizes: bool, history: seq<Entry>, e: Entry,
                     totals: map<string, Cost>, sizes: map<string, map<Edge, nat>>,
                     kept: map<string, seq<Run>>, k: string)
    requires Accounts(names, keepsSizes, history, totals, sizes, kept, k)
    ensures var key := KeyFor(names, e.name);
      var cost := if key in totals then totals[key] else Unspent("");
      Accounts(names, keepsSizes, history + [e],
        totals[key := Spent(cost.(name := key), e.change)],
        if keepsSizes && e.spread.total != 0 then sizes[key := Accumulated(SizesAt(sizes, key), e.spread.classes)] else sizes,
        kept[key := (if key in kept then kept[key] else []) + [Run(e.change.endTime, e.change)]], k)
  {
    hide Filter, Spending, RunsOf, SizesOf, Accumulated;
    FilterSnoc(history, e, Under(names, k));
    var entries := History(names, k, history);
    assert entries + [] == entries;
    FoldsSnoc(k, entries, e);
    FoldsEmpty(k);
    SpendingName(k, ChangesOf(entries));
  }

  lemma FoldsEmpty(key: string)
    ensures Spending(key, ChangesOf([])) == Unspent(key) && RunsOf([]) == [] && SizesOf([]) == map[]
  {
  }

  lemma {:induction false} SpendingName(key: string, changes: seq<Change>)
    ensures Spending(key, changes).name == key
  {
    if changes != [] { SpendingName(key, changes[..|changes| - 1]); }
  }
}
