/** What a report of the accounts says about everything recorded under its name. */
module CostProperties {
  import opened Sequences
  import opened Rankings
  import opened Rings
  import opened OrderStatistics
  import opened ProcessRuns
  import opened ProcessSizes
  import opened SizeAccounts
  import opened ProcessBands
  import opened BandAccounts
  import opened ProcessCosts
  import opened SpreadOfRuns

  /** One figure of every entry, summed. */
  function SumOver(entries: seq<Entry>, of: Entry -> int): int {
    if entries == [] then 0 else SumOver(entries[..|entries| - 1], of) + of(entries[|entries| - 1])
  }

  function SumCpu(entries: seq<Entry>): real {
    if entries == [] then 0.0 else SumCpu(entries[..|entries| - 1]) + entries[|entries| - 1].change.cpuSeconds
  }

  /** An account counts each run once and sums what its runs spent. */
  lemma {:induction false} SpendingIs(key: string, entries: seq<Entry>)
    ensures var cost := Spending(key, ChangesOf(entries));
      && cost.name == key && cost.times == |entries|
      && cost.bytesDuring == SumOver(entries, (e: Entry) => e.change.allocBytes)
      && cost.objectsDuring == SumOver(entries, (e: Entry) => e.change.allocObjects)
      && cost.duration == SumOver(entries, (e: Entry) => e.change.duration)
      && cost.collections == SumOver(entries, (e: Entry) => e.change.gcCycles)
      && cost.cpuSecondsDuring == SumCpu(entries)
  {
    if entries != [] {
      var last := |entries| - 1;
      SpendingIs(key, entries[..last]);
      FoldsSnoc(key, entries[..last], entries[last]);
      assert entries == entries[..last] + [entries[last]];
    }
  }

  /** Its runs are the windows of its entries, one for each, in order. */
  lemma {:induction false} RunsAre(entries: seq<Entry>)
    ensures |RunsOf(entries)| == |entries|
    ensures forall i :: 0 <= i < |entries| ==>
      RunsOf(entries)[i].endTime == entries[i].change.endTime && RunsOf(entries)[i].change == entries[i].change
  {
    if entries != [] { RunsAre(entries[..|entries| - 1]); }
  }

  // ---------- Whose account an entry goes to ----------

  function Named(name: string): Entry -> bool { (e: Entry) => e.name == name }

  function Unlisted(names: set<string>): Entry -> bool { (e: Entry) => e.name !in names || e.name == "other" }

  /** A declared name's account is of the entries that give that name; Other's, of those that give no declared one. */
  lemma {:induction false} HistoryByName(names: set<string>, history: seq<Entry>, name: string)
    ensures name in names && name != "other" ==> History(names, name, history) == Filter(history, Named(name))
    ensures History(names, "other", history) == Filter(history, Unlisted(names))
    ensures name !in names && name != "other" ==> History(names, name, history) == []
  {
    hide Filter;
    if name in names && name != "other" {
      FilterAgree(history, Under(names, name), Named(name));
    } else if name != "other" {
      FilterNothing(history, Under(names, name));
    }
    FilterAgree(history, Under(names, "other"), Unlisted(names));
  }

  /**
   A snapshot reports a declared name exactly when it was recorded, and Other exactly when some undeclared one was,
   each from those entries and no others.
   */
  lemma SnapshotByName(reports: seq<Cost>, names: set<string>, keepsSizes: bool, history: seq<Entry>, name: string)
    requires IsSnapshot(reports, names, keepsSizes, history)
    ensures name in names && name != "other" ==>
      ((exists r :: r in reports && r.name == name) <==> exists e :: e in history && e.name == name)
    ensures (exists r :: r in reports && r.name == "other") <==>
      exists e :: e in history && (e.name !in names || e.name == "other")
    ensures forall r :: r in reports ==>
      if r.name == "other" then ReportOf(r, keepsSizes, Filter(history, Unlisted(names)), "other")
      else r.name in names && ReportOf(r, keepsSizes, Filter(history, Named(r.name)), r.name)
  {
    hide Filter, ReportOf, InRankOrder, History;
    HistoryByName(names, history, name);
    FilterMembers(history, Named(name));
    FilterMembers(history, Unlisted(names));
    NonEmptyIff(Filter(history, Named(name)));
    NonEmptyIff(Filter(history, Unlisted(names)));
    assert (exists r :: r in reports && r.name == "other") <==> History(names, "other", history) != [];
    assert (exists r :: r in reports && r.name == name) <==> History(names, name, history) != [];
    forall r | r in reports
      ensures if r.name == "other" then ReportOf(r, keepsSizes, Filter(history, Unlisted(names)), "other")
              else r.name in names && ReportOf(r, keepsSizes, Filter(history, Named(r.name)), r.name)
    {
      HistoryByName(names, history, r.name);
    }
  }

  lemma NonEmptyIff(entries: seq<Entry>)
    ensures entries != [] <==> exists e :: e in entries
  {
    if entries != [] { assert entries[0] in entries; }
  }

  /** Reports stand by what they allocated, the most first, and by name where they allocated the same. */
  lemma SnapshotInOrder(reports: seq<Cost>, names: set<string>, keepsSizes: bool, history: seq<Entry>, i: nat, j: nat)
    requires IsSnapshot(reports, names, keepsSizes, history) && i < j < |reports|
    ensures reports[i].bytesDuring >= reports[j].bytesDuring
    ensures reports[i].bytesDuring == reports[j].bytesDuring ==>
      var a, b := reports[i].name, reports[j].name;
      exists k :: 0 <= k <= |a| && k < |b| && a[..k] == b[..k] && (k == |a| || a[k] < b[k])
  {
    hide ReportOf, History;
    assert Ahead(SpentRank(reports[i]), SpentRank(reports[j]));
    BeforeIs(reports[i].name, reports[j].name);
  }

  /** The longest run is a run's duration that no other exceeds, or zero when none is positive. */
  lemma {:induction false} LongestIs(key: string, entries: seq<Entry>)
    ensures var longest := Spending(key, ChangesOf(entries)).longest;
      && 0 <= longest
      && (forall e :: e in entries ==> e.change.duration <= longest)
      && (longest > 0 ==> exists e :: e in entries && e.change.duration == longest)
  {
    if entries != [] {
      var last := |entries| - 1;
      LongestIs(key, entries[..last]);
      assert entries == entries[..last] + [entries[last]];
      FoldsSnoc(key, entries[..last], entries[last]);
      assert entries[last] in entries;
    }
  }

  /** However many names are asked for, the accounts are one for each declared name and one for the rest. */
  lemma KeysBounded(names: set<string>, history: seq<Entry>, k: string)
    requires History(names, k, history) != []
    ensures k in names + {OTHER}
  {
    FilterMembers(history, Under(names, k));
    assert History(names, k, history)[0] in History(names, k, history);
  }

  /** What was recorded under a name leaves one report of it. */
  lemma ReportIsOne(a: Cost, b: Cost, keepsSizes: bool, entries: seq<Entry>, key: string)
    requires ReportOf(a, keepsSizes, entries, key) && ReportOf(b, keepsSizes, entries, key)
    ensures a == b
  {
    hide Spending, ChangesOf, RunsOf, SizesOf, Reads, TotalOf, LastOf, Reversed;
    ReadsOnce(a.spread.classes, b.spread.classes, if keepsSizes then SizesOf(entries) else map[]);
    assert a.(spread := NOTHING, runs := []) == b.(spread := NOTHING, runs := []);
  }

  /** So a history has one snapshot, and the order the maps were visited in does not show. */
  lemma SnapshotIsOne(a: seq<Cost>, b: seq<Cost>, names: set<string>, keepsSizes: bool, history: seq<Entry>)
    requires IsSnapshot(a, names, keepsSizes, history) && IsSnapshot(b, names, keepsSizes, history)
    ensures a == b
  {
    hide ReportOf, History, InRankOrder;
    forall x ensures x in a <==> x in b {
      if x in a { SameReport(x, a, b, names, keepsSizes, history); }
      if x in b { SameReport(x, b, a, names, keepsSizes, history); }
    }
    RankedUnique(a, b, SpentRank);
  }

  lemma SameReport(x: Cost, a: seq<Cost>, b: seq<Cost>, names: set<string>, keepsSizes: bool, history: seq<Entry>)
    requires IsSnapshot(a, names, keepsSizes, history) && IsSnapshot(b, names, keepsSizes, history) && x in a
    ensures x in b
  {
    hide ReportOf, History, InRankOrder;
    assert History(names, x.name, history) != [];
    var y :| y in b && y.name == x.name;
    ReportIsOne(x, y, keepsSizes, History(names, x.name, history), x.name);
  }

  /** What the entries of a name had under one edge; an entry whose total is zero was not recorded. */
  function UnderEach(entries: seq<Entry>, e: Edge): nat {
    if entries == [] then 0
    else
      var spread := entries[|entries| - 1].spread;
      UnderEach(entries[..|entries| - 1], e) + if spread.total == 0 then 0 else HeldUnder(spread.classes, e)
  }

  lemma {:induction false} SizesAre(entries: seq<Entry>, e: Edge)
    ensures Amount(SizesOf(entries), e) == UnderEach(entries, e)
    ensures e in SizesOf(entries) <==>
      exists x, c :: x in entries && x.spread.total != 0 && c in x.spread.classes && c.atMost == e
  {
    if entries != [] {
      hide Accumulated;
      var front, x := entries[..|entries| - 1], entries[|entries| - 1];
      assert entries == front + [x];
      SizesAre(front, e);
      AccumulatedIs(SizesOf(front), x.spread.classes, e);
      assert x in entries;
      if y, c :| y in front && y.spread.total != 0 && c in y.spread.classes && c.atMost == e { assert y in entries; }
    }
  }

  /** A report of sizes has one class for each edge its recorded entries name, holding what they had under it. */
  lemma ReportedSizes(report: Cost, entries: seq<Entry>, key: string, c: Class)
    requires ReportOf(report, true, entries, key)
    ensures c in report.spread.classes <==>
      c.count == UnderEach(entries, c.atMost)
      && exists x, d :: x in entries && x.spread.total != 0 && d in x.spread.classes && d.atMost == c.atMost
    ensures SmallestFirst(report.spread.classes)
  {
    hide Spending, ChangesOf, RunsOf, SizesOf, TotalOf, LastOf, Reversed, Reads;
    SizesAre(entries, c.atMost);
    ReadsInOrder(report.spread.classes, SizesOf(entries));
  }

  /** An account that keeps no sizes reports none. */
  lemma {:induction false} NoSizesReported(report: Cost, entries: seq<Entry>, key: string)
    requires ReportOf(report, false, entries, key)
    ensures report.spread.classes == [] && report.spread.total == 0
  {
    hide Spending, ChangesOf, RunsOf, LastOf, Reversed;
    ReadsOnce(report.spread.classes, [], map[]);
  }

  /** The entries record the difference of every consecutive pair of readings. */
  ghost predicate Windowed(entries: seq<Entry>, rs: seq<Sizes>) {
    |rs| == |entries| + 1 && forall i :: 0 <= i < |entries| ==> entries[i].spread == Difference(rs[i], rs[i + 1])
  }

  lemma {:induction false} SizesAreWindows(entries: seq<Entry>, rs: seq<Sizes>)
    requires Windowed(entries, rs)
    ensures SizesOf(entries) == Windows(rs)
  {
    hide Difference, Recorded;
    if entries != [] { SizesAreWindows(entries[..|entries| - 1], rs[..|rs| - 1]); }
  }

  /** Sizes recorded window by window under one name report as the difference of the first and last readings. */
  lemma ReportTelescopes(report: Cost, entries: seq<Entry>, key: string, rs: seq<Sizes>, bounds: seq<Edge>, n: nat)
    requires ReportOf(report, true, entries, key) && Windowed(entries, rs) && Readings(rs, bounds, n)
    ensures report.spread == Difference(rs[0], rs[|rs| - 1])
  {
    assert 0 < |rs|;
    hide Difference, Windows, SizesOf, Reads, TotalOf, Readings, Windowed;
    SizesAreWindows(entries, rs);
    WindowsTelescope(rs, bounds, n, report.spread);
  }

  /** A report keeps the last 256 runs, newest first, and its figures at a share are measurements of those runs. */
  lemma ReportedRuns(report: Cost, keepsSizes: bool, entries: seq<Entry>, key: string, share: real, of: Run -> int)
    requires ReportOf(report, keepsSizes, entries, key) && entries != []
    requires 0.0 < share <= 1.0 && RanksAgree(share, |report.runs|)
    ensures report.times == |entries| && |report.runs| == if |entries| < 256 then |entries| else 256
    ensures forall i :: 0 <= i < |report.runs| ==>
      var change := entries[|entries| - 1 - i].change; report.runs[i] == Run(change.endTime, change)
    ensures 0 <= IndexOf(share, |report.runs|) < |report.runs|
    ensures Ranked(Each(report.runs, of), IndexOf(share, |report.runs|) + 1) == Exact(Each(report.runs, of), share)
  {
    hide Spending, RunsOf, ChangesOf, Reads, TotalOf, RanksAgree, Ranked, IndexOf, RankFor;
    RunsAre(entries);
    SpendingIs(key, entries);
    assert report.times == report.(spread := NOTHING, runs := []).times;
    AtShareIsExact(report.runs, share, of);
  }

  /** Gathering moves no entry to another name. */
  lemma {:induction false} GatheredHistory(names: set<string>, key: string, history: seq<Entry>)
    ensures History(names, key, GatheredEntries(history)) == GatheredEntries(History(names, key, history))
  {
    if history != [] {
      hide Filter, GatheredEntries, BandsOf;
      var front, e := history[..|history| - 1], history[|history| - 1];
      assert history == front + [e];
      GatheredHistory(names, key, front);
      GatheredSnoc(front, e);
      GatheredSnoc(History(names, key, front), e);
      FilterSnoc(front, e, Under(names, key));
      FilterSnoc(GatheredEntries(front), GatheredEntry(e), Under(names, key));
      var kept := History(names, key, front);
      assert kept + [] == kept && GatheredEntries(kept) + [] == GatheredEntries(kept);
    } else {
      assert GatheredEntries([]) == [];
    }
  }

  lemma {:induction false} GatheredFolds(entries: seq<Entry>)
    ensures ChangesOf(GatheredEntries(entries)) == ChangesOf(entries)
    ensures RunsOf(GatheredEntries(entries)) == RunsOf(entries)
  {
    hide BandsOf;
    if entries != [] {
      var front := GatheredEntries(entries[..|entries| - 1]);
      GatheredFolds(entries[..|entries| - 1]);
      assert GatheredEntries(entries)[..|front|] == front;
    }
  }

  lemma {:induction false} GatheredSnoc(entries: seq<Entry>, e: Entry)
    ensures GatheredEntries(entries + [e]) == GatheredEntries(entries) + [GatheredEntry(e)]
  {
    assert (entries + [e])[..|entries|] == entries;
  }

  /** Gathering every spread before it is recorded changes a report in nothing but its spread, which is gathered. */
  lemma ReportsGather(report: Cost, gathered: Cost, keepsSizes: bool, names: set<string>, key: string,
                      history: seq<Entry>)
    requires ReportOf(report, keepsSizes, History(names, key, history), key)
    requires ReportOf(gathered, keepsSizes, History(names, key, GatheredEntries(history)), key)
    ensures gathered == report.(spread := BandsOf(report.spread))
  {
    hide History, Spending, ChangesOf, RunsOf, SizesOf, Reads, TotalOf, LastOf, Reversed, BandsOf;
    GatheredHistory(names, key, history);
    GatheredFolds(History(names, key, history));
    var entries := if keepsSizes then History(names, key, history) else [];
    FoldsEmpty(key);
    assert GatheredEntries([]) == [];
    BandsCommute(entries, report.spread, gathered.spread);
    assert report.(spread := NOTHING, runs := []) == gathered.(spread := NOTHING, runs := []);
  }
}
