/** What a snapshot says about the events behind it, for every history. */
module CollectorProperties {
  import opened Events
  import opened Sequences
  import opened OrderStatistics
  import opened Distributions
  import opened Collectors
  import opened MapSums

  /** Whether two operations are told apart: declared names are, undeclared ones are not, and naming none is its own. */
  predicate SameSeries(names: set<string>, a: string, b: string) {
    a == b || (a != "" && b != "" && a !in names && b !in names)
  }

  /** Two events share a label exactly when they agree in kind, status and series. */
  lemma {:induction false} LabelDistinguishes(names: set<string>, a: Event, b: Event)
    requires ANONYMOUS !in names && OTHER !in names
    ensures LabelFor(names, a) == LabelFor(names, b) <==>
      a.kind == b.kind && a.status == b.status && SameSeries(names, a.operation, b.operation)
    ensures a.operation in names ==> LabelFor(names, a).operation == a.operation
    ensures LabelFor(names, a).operation == ANONYMOUS <==> a.operation == ""
  {
    assert |ANONYMOUS| != |OTHER|;
  }

  function Labelled(names: set<string>, l: Label): Event -> bool { (e: Event) => LabelFor(names, e) == l }

  function Carries(names: set<string>, m: Measure, l: Label): Event -> bool {
    (e: Event) => LabelFor(names, e) == l && Value(m, e) > 0
  }

  function Values(m: Measure, events: seq<Event>): seq<int> {
    seq(|events|, i requires 0 <= i < |events| => Value(m, events[i]))
  }

  lemma {:induction false} MeasuredAdds(names: set<string>, m: Measure, samples: map<Label, seq<int>>, e: Event,
                                        l: Label)
    ensures var after, carries := Measured(names, m, samples, e), Carries(names, m, l)(e);
      && Get(after, l) == Get(samples, l) + (if carries then [Value(m, e)] else [])
      && (l in after <==> l in samples || carries)
  {
    assert Get(samples, l) + [] == Get(samples, l);
  }

  lemma {:induction false} CarriedSnoc(names: set<string>, m: Measure, history: seq<Event>, e: Event, l: Label)
    ensures var before, after, carries := Filter(history, Carries(names, m, l)),
        Filter(history + [e], Carries(names, m, l)), Carries(names, m, l)(e);
      && Values(m, after) == Values(m, before) + (if carries then [Value(m, e)] else [])
      && (after != [] <==> before != [] || carries)
  {
    hide Filter, Values;
    FilterSnoc(history, e, Carries(names, m, l));
    var before := Filter(history, Carries(names, m, l));
    assert before + [] == before && Values(m, before) + [] == Values(m, before);
    ValuesSnoc(m, before, e);
  }

  /** The measurements filed under a label are the positive ones its events carry, in order. */
  lemma {:induction false} SamplesAre(names: set<string>, m: Measure, history: seq<Event>, l: Label)
    ensures Get(Samples(names, m, history), l) == Values(m, Filter(history, Carries(names, m, l)))
    ensures l in Samples(names, m, history) <==> Filter(history, Carries(names, m, l)) != []
  {
    if history != [] {
      hide Filter, Values, Measured, Get, Carries;
      var front, e := history[..|history| - 1], history[|history| - 1];
      assert history == front + [e];
      SamplesAre(names, m, front, l);
      MeasuredAdds(names, m, Samples(names, m, front), e, l);
      CarriedSnoc(names, m, front, e, l);
    }
  }

  lemma ValuesSnoc(m: Measure, events: seq<Event>, e: Event)
    ensures Values(m, events + [e]) == Values(m, events) + [Value(m, e)]
  {
  }

  /** A label is counted once for each event that carries it, and is absent when none does. */
  lemma {:induction false} CountsAre(names: set<string>, history: seq<Event>, l: Label)
    ensures l in Counts(names, history) <==> Filter(history, Labelled(names, l)) != []
    ensures l in Counts(names, history) ==> Counts(names, history)[l] == |Filter(history, Labelled(names, l))|
  {
    if history != [] { CountsAre(names, history[..|history| - 1], l); }
  }

  lemma {:induction false} SamplesPositive(names: set<string>, m: Measure, history: seq<Event>, l: Label)
    requires l in Samples(names, m, history)
    ensures Samples(names, m, history)[l] != [] && Positive(Samples(names, m, history)[l])
  {
    hide Filter, Samples;
    SamplesAre(names, m, history, l);
    var events := Filter(history, Carries(names, m, l));
    FilterMembers(history, Carries(names, m, l));
    forall x | x in Values(m, events) ensures 0 < x {
      var i :| 0 <= i < |events| && Values(m, events)[i] == x;
      assert events[i] in events;
    }
  }

  /** The measurements of one measure that a snapshot is the summary of bracket their quantile. */
  lemma MeasuredQuantile(names: set<string>, bounds: seq<int>, history: seq<Event>, m: Measure, l: Label, share: real)
    requires l in Samples(names, m, history) && 0.0 < share <= 1.0
    ensures var measured := Get(Samples(names, m, history), l);
      Answers(QuantileOf(DistributionOf(SortBoundaries(bounds), measured), share), measured, SortBoundaries(bounds), share)
  {
    hide Samples, Filter, Exact, QuantileOf, DistributionOf, SortBoundaries, Largest;
    SamplesPositive(names, m, history, l);
    BoundariesAscend(bounds);
    QuantileBrackets(SortBoundaries(bounds), Samples(names, m, history)[l], share);
  }

  // ---------- A snapshot in the events' own fields ----------

  /** The event has the label: its kind, its status, and its operation, none, or one not declared. */
  function Bears(names: set<string>, l: Label): Event -> bool {
    (e: Event) =>
      e.kind == l.kind && e.status == l.status
      && if l.operation == "" then e.operation == ""
         else if l.operation == "other" then e.operation != "" && e.operation !in names
         else e.operation == l.operation && e.operation in names
  }

  /** The positive durations of some events, in order. */
  function DurationsOf(events: seq<Event>): seq<int> {
    if events == [] then []
    else
      var duration := events[|events| - 1].duration;
      DurationsOf(events[..|events| - 1]) + if duration > 0 then [duration] else []
  }

  /** And their positive delays. */
  function DelaysOf(events: seq<Event>): seq<int> {
    if events == [] then []
    else
      var delay := events[|events| - 1].delay;
      DelaysOf(events[..|events| - 1]) + if delay > 0 then [delay] else []
  }

  lemma {:induction false} LabelledBears(names: set<string>, l: Label, e: Event)
    requires "" !in names && "other" !in names
    ensures Labelled(names, l)(e) == Bears(names, l)(e)
  {
    assert |ANONYMOUS| != |OTHER|;
  }

  lemma {:induction false} DurationsFiled(names: set<string>, history: seq<Event>, l: Label)
    requires "" !in names && "other" !in names
    ensures Get(Samples(names, Duration, history), l) == DurationsOf(Filter(history, Bears(names, l)))
    ensures Get(Samples(names, Delay, history), l) == DelaysOf(Filter(history, Bears(names, l)))
  {
    if history != [] {
      hide Filter, Measured, Get, Carries, DurationsOf, DelaysOf, Bears;
      var front, e := history[..|history| - 1], history[|history| - 1];
      assert history == front + [e];
      DurationsFiled(names, front, l);
      MeasuredAdds(names, Duration, Samples(names, Duration, front), e, l);
      MeasuredAdds(names, Delay, Samples(names, Delay, front), e, l);
      LabelledBears(names, l, e);
      MeasuresSnoc(Filter(front, Bears(names, l)), e);
      CarriesIs(names, l, e);
      FilterSnoc(front, e, Bears(names, l));
      var mine := Filter(front, Bears(names, l));
      assert mine + [] == mine;
    }
  }

  lemma CarriesIs(names: set<string>, l: Label, e: Event)
    ensures Carries(names, Duration, l)(e) == (Labelled(names, l)(e) && e.duration > 0)
    ensures Carries(names, Delay, l)(e) == (Labelled(names, l)(e) && e.delay > 0)
    ensures Value(Duration, e) == e.duration && Value(Delay, e) == e.delay
  {
  }

  lemma {:induction false} MeasuresSnoc(events: seq<Event>, e: Event)
    ensures DurationsOf(events + [e]) == DurationsOf(events) + if e.duration > 0 then [e.duration] else []
    ensures DelaysOf(events + [e]) == DelaysOf(events) + if e.delay > 0 then [e.delay] else []
  {
    assert (events + [e])[..|events|] == events;
  }

  /**
   What a snapshot says of a label: how many events bear it, and the distribution of their positive durations, and
   of their positive delays; nothing of a label without any.
   */
  lemma SnapshotIs(names: set<string>, boundaries: seq<int>, history: seq<Event>, l: Label)
    requires "" !in names && "other" !in names
    ensures var snapshot, mine := SnapshotOf(names, boundaries, history), Filter(history, Bears(names, l));
      && (l in snapshot.counts <==> mine != []) && (l in snapshot.counts ==> snapshot.counts[l] == |mine|)
      && (l in snapshot.durations <==> DurationsOf(mine) != [])
      && (l in snapshot.durations ==> snapshot.durations[l] == DistributionOf(boundaries, DurationsOf(mine)))
      && (l in snapshot.delays <==> DelaysOf(mine) != [])
      && (l in snapshot.delays ==> snapshot.delays[l] == DistributionOf(boundaries, DelaysOf(mine)))
  {
    hide Samples, Counts, Filter, DistributionOf, DurationsOf, DelaysOf, Labelled, Bears;
    forall e | e in history ensures Labelled(names, l)(e) == Bears(names, l)(e) { LabelledBears(names, l, e); }
    FilterAgree(history, Labelled(names, l), Bears(names, l));
    CountsAre(names, history, l);
    DurationsFiled(names, history, l);
    if l in Samples(names, Duration, history) { SamplesPositive(names, Duration, history, l); }
    if l in Samples(names, Delay, history) { SamplesPositive(names, Delay, history, l); }
  }

  /** The answer is the least bound at or above the exact measurement, or the last one when that lies past it. */
  ghost predicate Answers(q: int, measured: seq<int>, boundaries: seq<int>, share: real)
    requires 0.0 < share <= 1.0
  {
    && measured != [] && boundaries != []
    && if Exact(measured, share) <= boundaries[|boundaries| - 1] then
         && Exact(measured, share) <= q <= Largest(measured)
         && (exists i :: Brackets(boundaries, i, Exact(measured, share)) && q == Min(boundaries[i], Largest(measured)))
       else q == boundaries[|boundaries| - 1] && q < Exact(measured, share)
  }

  /** A snapshot's quantiles of a label bracket the exact durations, and the exact delays, of that label's events. */
  lemma CollectedQuantile(names: set<string>, bounds: seq<int>, history: seq<Event>, l: Label, share: real)
    requires "" !in names && "other" !in names && 0.0 < share <= 1.0
    ensures var boundaries, mine := SortBoundaries(bounds), Filter(history, Bears(names, l));
      var snapshot := SnapshotOf(names, boundaries, history);
      && (l in snapshot.durations ==>
            Answers(QuantileOf(snapshot.durations[l], share), DurationsOf(mine), boundaries, share))
      && (l in snapshot.delays ==> Answers(QuantileOf(snapshot.delays[l], share), DelaysOf(mine), boundaries, share))
  {
    hide Samples, Filter, QuantileOf, DistributionOf, SortBoundaries, Answers, DurationsOf, DelaysOf, Bears;
    DurationsFiled(names, history, l);
    if l in Samples(names, Duration, history) { MeasuredQuantile(names, bounds, history, Duration, l, share); }
    if l in Samples(names, Delay, history) { MeasuredQuantile(names, bounds, history, Delay, l, share); }
  }

  /** A label with a measurement is a label with a count, so whatever bounds the counts bounds the whole snapshot. */
  lemma MeasuredAreCounted(names: set<string>, boundaries: seq<int>, history: seq<Event>)
    ensures var snapshot := SnapshotOf(names, boundaries, history);
      snapshot.durations.Keys <= snapshot.counts.Keys && snapshot.delays.Keys <= snapshot.counts.Keys
  {
    hide Samples, Counts;
    forall l | l in Samples(names, Duration, history) ensures l in Counts(names, history) {
      MeasuredIsCounted(names, history, Duration, l);
    }
    forall l | l in Samples(names, Delay, history) ensures l in Counts(names, history) {
      MeasuredIsCounted(names, history, Delay, l);
    }
  }

  lemma {:induction false} MeasuredIsCounted(names: set<string>, history: seq<Event>, m: Measure, l: Label)
    requires l in Samples(names, m, history)
    ensures l in Counts(names, history)
  {
    hide Samples, Counts, Filter;
    SamplesAre(names, m, history, l);
    CountsAre(names, history, l);
    FilterMembers(history, Carries(names, m, l));
    FilterMembers(history, Labelled(names, l));
    var carrier := Filter(history, Carries(names, m, l))[0];
    assert carrier in Filter(history, Carries(names, m, l));
    assert carrier in Filter(history, Labelled(names, l));
  }

  // ---------- Totals ----------

  function Where(m: map<Label, nat>, keep: Label -> bool): set<Label> { set l | l in m && keep(l) }

  function Fits(names: set<string>, keep: Label -> bool): Event -> bool { (e: Event) => keep(LabelFor(names, e)) }

  lemma CountedAddsOne(names: set<string>, m: map<Label, nat>, e: Event, keep: Label -> bool)
    ensures var after := Counted(names, m, e);
      SumOf(after, Where(after, keep)) == SumOf(m, Where(m, keep)) + if keep(LabelFor(names, e)) then 1 else 0
  {
    var l, after := LabelFor(names, e), Counted(names, m, e);
    if keep(l) {
      assert Where(after, keep) == Where(m, keep) + {l};
      SumOfAdd(m, l, 1, Where(m, keep), Where(after, keep));
    } else {
      assert Where(after, keep) == Where(m, keep);
      SumOfAgree(after, m, Where(m, keep));
    }
  }

  /** The counts of any group of labels add up to the events that carry one of them. */
  lemma {:induction false} CountsAddUp(names: set<string>, history: seq<Event>, keep: Label -> bool)
    ensures var m := Counts(names, history); SumOf(m, Where(m, keep)) == |Filter(history, Fits(names, keep))|
  {
    if history != [] {
      var last := |history| - 1;
      CountsAddUp(names, history[..last], keep);
      CountedAddsOne(names, Counts(names, history[..last]), history[last], keep);
    }
  }

  function OfKind(kind: Kind): Label -> bool { (l: Label) => l.kind == kind }

  function FailuresOfKind(kind: Kind): Label -> bool { 
    (l: Label) => l.kind == kind && (l.status.Failed? || l.status.Defective? || l.status.Interrupted?)
  }

  function Anything(): Label -> bool { (l: Label) => true }

  method Total(snapshot: Snapshot, kind: Kind) returns (total: nat)
    ensures total == SumOf(snapshot.counts, Where(snapshot.counts, OfKind(kind)))
  {
    var counts := snapshot.counts;
    total := 0;
    var rest := counts.Keys;
    while rest != {}
      invariant rest <= counts.Keys
      invariant total == SumOf(counts, Where(counts, OfKind(kind)) - rest)
    {
      var key :| key in rest;
      ghost var before, after := Where(counts, OfKind(kind)) - rest, Where(counts, OfKind(kind)) - (rest - {key});
      if key.kind == kind {
        SumOfRemove(counts, after, key);
        assert after - {key} == before;
        total := total + counts[key];
      } else {
        assert after == before;
      }
      rest := rest - {key};
    }
    assert Where(counts, OfKind(kind)) - rest == Where(counts, OfKind(kind));
  }

  method Unsuccessful(snapshot: Snapshot, kind: Kind) returns (total: nat)
    ensures total == SumOf(snapshot.counts, Where(snapshot.counts, FailuresOfKind(kind)))
  {
    var counts := snapshot.counts;
    total := 0;
    var rest := counts.Keys;
    while rest != {}
      invariant rest <= counts.Keys
      invariant total == SumOf(counts, Where(counts, FailuresOfKind(kind)) - rest)
    {
      var key :| key in rest;
      ghost var before, after :=
        Where(counts, FailuresOfKind(kind)) - rest, Where(counts, FailuresOfKind(kind)) - (rest - {key});
      rest := rest - {key};
      if key.kind != kind {
        assert after == before;
        continue;
      }
      match key.status
      case Failed | Defective | Interrupted =>
        SumOfRemove(counts, after, key);
        assert after - {key} == before;
        total := total + counts[key];
      case _ => assert after == before;
    }
    assert Where(counts, FailuresOfKind(kind)) - rest == Where(counts, FailuresOfKind(kind));
  }

  function EventOfKind(kind: Kind): Event -> bool { (e: Event) => e.kind == kind }

  function FailedOfKind(kind: Kind): Event -> bool { 
    (e: Event) => e.kind == kind && (e.status.Failed? || e.status.Defective? || e.status.Interrupted?)
  }

  /** Total and Unsuccessful count events, whatever their operations; all counts together count them all. */
  lemma TotalsCountEvents(names: set<string>, history: seq<Event>, kind: Kind)
    ensures var m := Counts(names, history);
      && SumOf(m, Where(m, OfKind(kind))) == |Filter(history, EventOfKind(kind))|
      && SumOf(m, Where(m, FailuresOfKind(kind))) == |Filter(history, FailedOfKind(kind))|
      && SumOf(m, Where(m, Anything())) == |history|
  {
    hide Filter, SumOf, Counts;
    CountsAddUp(names, history, OfKind(kind));
    CountsAddUp(names, history, FailuresOfKind(kind));
    CountsAddUp(names, history, Anything());
    forall e | e in history
      ensures Fits(names, OfKind(kind))(e) == EventOfKind(kind)(e)
      ensures Fits(names, FailuresOfKind(kind))(e) == FailedOfKind(kind)(e)
    {
      var l := LabelFor(names, e);
      assert OfKind(kind)(l) == (l.kind == kind);
      assert FailuresOfKind(kind)(l) == FailedOfKind(kind)(e);
    }
    FilterAgree(history, Fits(names, OfKind(kind)), EventOfKind(kind));
    FilterAgree(history, Fits(names, FailuresOfKind(kind)), FailedOfKind(kind));
    FilterAll(history, Fits(names, Anything()));
  }

  // ---------- How many labels there can be ----------

  function Product(kinds: set<Kind>, statuses: set<Status>, names: set<string>): set<Label> {
    set k, s, n | k in kinds && s in statuses && n in names :: Label(k, s, n)
  }

  lemma {:induction false} ProductOfOneKind(k: Kind, statuses: set<Status>, names: set<string>)
    ensures |Product({k}, statuses, names)| == |statuses| * |names|
    decreases |statuses|
  {
    if statuses == {} {
      assert Product({k}, statuses, names) == {};
    } else {
      var s :| s in statuses;
      ProductOfOneKind(k, statuses - {s}, names);
      ProductOfOne(k, s, names);
      var row, rest := Product({k}, {s}, names), Product({k}, statuses - {s}, names);
      ProductByStatus(k, statuses, s, names);
      OneMoreRow(row, rest, Product({k}, statuses, names), |statuses| - 1, |names|);
    }
  }

  lemma ProductByStatus(k: Kind, statuses: set<Status>, s: Status, names: set<string>)
    requires s in statuses
    ensures Product({k}, statuses, names) == Product({k}, {s}, names) + Product({k}, statuses - {s}, names)
    ensures Product({k}, {s}, names) !! Product({k}, statuses - {s}, names)
  {
  }

  /** Disjoint rows add up. */
  lemma {:induction false} OneMoreRow(row: set<Label>, rest: set<Label>, all: set<Label>, rows: nat, width: nat)
    requires all == row + rest && row !! rest && |row| == width && |rest| == rows * width
    ensures |all| == (rows + 1) * width
  {
    assert |row + rest| == |row| + |rest|;
  }

  lemma {:induction false} ProductOfOne(k: Kind, s: Status, names: set<string>)
    ensures |Product({k}, {s}, names)| == |names|
    decreases |names|
  {
    if names == {} {
      assert Product({k}, {s}, names) == {};
    } else {
      var n :| n in names;
      ProductOfOne(k, s, names - {n});
      assert Product({k}, {s}, names) == Product({k}, {s}, names - {n}) + {Label(k, s, n)};
    }
  }

  lemma ProductByKind(kinds: set<Kind>, k: Kind, statuses: set<Status>, names: set<string>)
    requires k in kinds
    ensures Product(kinds, statuses, names) == Product({k}, statuses, names) + Product(kinds - {k}, statuses, names)
    ensures Product({k}, statuses, names) !! Product(kinds - {k}, statuses, names)
  {
  }

  /** kinds x statuses x so many operations. */
  function Series(kinds: set<Kind>, statuses: set<Status>, operations: nat): nat {
    |kinds| * (|statuses| * operations)
  }

  lemma {:induction false} ProductSize(kinds: set<Kind>, statuses: set<Status>, names: set<string>)
    ensures |Product(kinds, statuses, names)| == Series(kinds, statuses, |names|)
    decreases |kinds|
  {
    if kinds == {} {
      assert Product(kinds, statuses, names) == {};
    } else {
      hide Product;
      var k :| k in kinds;
      ProductSize(kinds - {k}, statuses, names);
      ProductOfOneKind(k, statuses, names);
      ProductByKind(kinds, k, statuses, names);
      OneMoreRow(Product({k}, statuses, names), Product(kinds - {k}, statuses, names),
                 Product(kinds, statuses, names), |kinds| - 1, |statuses| * |names|);
    }
  }

  function OperationOf(names: set<string>, n: string): string {
    if n == "" then ANONYMOUS else if n in names then n else OTHER
  }

  /** What a label's operation may be, given what the events may name. */
  function Operations(names: set<string>, named: set<string>): set<string> {
    set n | n in named :: OperationOf(names, n)
  }

  ghost predicate Drawn(history: seq<Event>, kinds: set<Kind>, statuses: set<Status>, named: set<string>) {
    forall e :: e in history ==> e.kind in kinds && e.status in statuses && e.operation in named
  }

  lemma {:induction false} LabelsDrawn(names: set<string>, history: seq<Event>, kinds: set<Kind>,
                                       statuses: set<Status>, named: set<string>)
    requires Drawn(history, kinds, statuses, named)
    ensures Counts(names, history).Keys <= Product(kinds, statuses, Operations(names, named))
  {
    hide Counts, Filter;
    forall l | l in Counts(names, history) ensures l in Product(kinds, statuses, Operations(names, named)) {
      CountsAre(names, history, l);
      FilterMembers(history, Labelled(names, l));
      var e := Filter(history, Labelled(names, l))[0];
      assert e in Filter(history, Labelled(names, l));
      assert e.operation in named && l.operation in Operations(names, named);
    }
  }

  /** Traffic cannot grow the labels past (names + 2) x kinds x statuses: Other and Anonymous are two. */
  lemma LabelsBounded(names: set<string>, history: seq<Event>, kinds: set<Kind>, statuses: set<Status>,
                      named: set<string>)
    requires Drawn(history, kinds, statuses, named)
    ensures |Counts(names, history)| <= Series(kinds, statuses, |names| + 2)
  {
    hide Counts;
    LabelsDrawn(names, history, kinds, statuses, named);
    var room := names + {ANONYMOUS, OTHER};
    assert Operations(names, named) <= room;
    assert |room| <= |names| + 2 by { SmallUnion(names); }
    SubsetSize(Counts(names, history).Keys, Product(kinds, statuses, Operations(names, named)));
    SubsetSize(Product(kinds, statuses, Operations(names, named)), Product(kinds, statuses, room));
    ProductSize(kinds, statuses, room);
    assert |Counts(names, history).Keys| == |Counts(names, history)|;
    SeriesGrow(kinds, statuses, |room|, |names| + 2);
  }

  lemma {:induction false} SmallUnion(names: set<string>)
    ensures |names + {ANONYMOUS, OTHER}| <= |names| + 2
  {
    assert |names + {ANONYMOUS}| <= |names| + 1;
    assert names + {ANONYMOUS, OTHER} == (names + {ANONYMOUS}) + {OTHER};
  }

  lemma {:induction false} SeriesGrow(kinds: set<Kind>, statuses: set<Status>, a: nat, b: nat)
    requires a <= b
    ensures Series(kinds, statuses, a) <= Series(kinds, statuses, b)
    ensures a < b && kinds != {} && statuses != {} ==> Series(kinds, statuses, a) < Series(kinds, statuses, b)
  {
    var k, s := |kinds|, |statuses|;
    assert s * b - s * a == s * (b - a) && 0 <= s * (b - a);
    assert k * (s * b) - k * (s * a) == k * (s * (b - a)) && 0 <= k * (s * (b - a));
    if a < b && kinds != {} && statuses != {} { assert 0 < s * (b - a) && 0 < k * (s * (b - a)); }
  }

  /** One label past the documented (names + 1): an anonymous event and an undeclared one are two labels of none. */
  lemma DocumentedBoundExceeded(kind: Kind, status: Status, anonymous: Event, undeclared: Event)
    requires anonymous.kind == undeclared.kind == kind && anonymous.status == undeclared.status == status
    requires anonymous.operation == "" && undeclared.operation != ""
    ensures Drawn([anonymous, undeclared], {kind}, {status}, {"", undeclared.operation})
    ensures |Counts({}, [anonymous, undeclared])| == 2
  {
    var a, b := LabelFor({}, anonymous), LabelFor({}, undeclared);
    assert a.operation == ANONYMOUS && b.operation == OTHER;
    assert |ANONYMOUS| != |OTHER|;
    var m := Counts({}, [anonymous, undeclared]);
    FoldsOnce({}, [], anonymous);
    FoldsOnce({}, [anonymous], undeclared);
    assert [] + [anonymous] == [anonymous] && [anonymous] + [undeclared] == [anonymous, undeclared];
    assert m.Keys == {a, b};
    assert |m.Keys| == |m|;
  }

  /** Some history of the drawn events makes each of the labels there can be. */
  lemma {:induction false} LabelsSaturate(names: set<string>, kinds: set<Kind>, statuses: set<Status>,
                                          named: set<string>, labels: set<Label>)
    returns (history: seq<Event>)
    requires labels <= Product(kinds, statuses, Operations(names, named))
    ensures Drawn(history, kinds, statuses, named) && labels <= Counts(names, history).Keys
  {
    if labels == {} {
      history := [];
    } else {
      var l :| l in labels;
      history := LabelsSaturate(names, kinds, statuses, named, labels - {l});
      var n :| n in named && OperationOf(names, n) == l.operation;
      var e := Event(l.kind, 0, 0, 0, 0, n, "", ZERO_TIME, 0, 0, l.status, 0, []);
      assert LabelFor(names, e) == l;
      FoldsOnce(names, history, e);
      history := history + [e];
    }
  }

  /** The most labels the drawn events can make, which some history of them does make. */
  lemma LabelsReach(names: set<string>, kinds: set<Kind>, statuses: set<Status>, named: set<string>)
    returns (most: seq<Event>)
    ensures var room := Series(kinds, statuses, |Operations(names, named)|);
      && (forall h :: Drawn(h, kinds, statuses, named) ==> |Counts(names, h)| <= room)
      && Drawn(most, kinds, statuses, named) && |Counts(names, most)| == room
  {
    hide Counts, Drawn;
    var all := Product(kinds, statuses, Operations(names, named));
    ProductSize(kinds, statuses, Operations(names, named));
    forall h | Drawn(h, kinds, statuses, named) ensures |Counts(names, h)| <= |all| {
      LabelsDrawn(names, h, kinds, statuses, named);
      SubsetSize(Counts(names, h).Keys, all);
      assert |Counts(names, h).Keys| == |Counts(names, h)|;
    }
    most := LabelsSaturate(names, kinds, statuses, named, all);
    LabelsDrawn(names, most, kinds, statuses, named);
    assert Counts(names, most).Keys == all && |Counts(names, most).Keys| == |Counts(names, most)|;
  }

  lemma {:induction false} OperationsAre(names: set<string>, named: set<string>)
    ensures Operations(names, named) == (names * named - {""})
      + (if "" in named then {ANONYMOUS} else {}) + (if named <= names + {""} then {} else {OTHER})
  {
    var all := (names * named - {""})
      + (if "" in named then {ANONYMOUS} else {}) + (if named <= names + {""} then {} else {OTHER});
    forall n | n in named ensures OperationOf(names, n) in all {}
    forall o | o in all ensures o in Operations(names, named) {
      var n :| n in named && OperationOf(names, n) == o;
    }
  }

  /** How many operations labels can tell apart. */
  lemma {:induction false} OperationsSize(names: set<string>, named: set<string>)
    requires ANONYMOUS !in names && OTHER !in names
    ensures |Operations(names, named)| == |names * named|
      + (if "" in named then 1 else 0) + (if named <= names + {""} then 0 else 1)
  {
    hide Operations;
    OperationsAre(names, named);
    var declared := names * named;
    assert declared - {""} == declared;
    assert |ANONYMOUS| != |OTHER|;
  }

  /** Two more than the names is no more than can happen: it takes all of them, none, and an undeclared one. */
  lemma LabelsBoundReached(names: set<string>, kinds: set<Kind>, statuses: set<Status>, undeclared: string)
    returns (most: seq<Event>)
    requires ANONYMOUS !in names && OTHER !in names && undeclared != "" && undeclared !in names
    ensures Drawn(most, kinds, statuses, names + {"", undeclared})
    ensures |Counts(names, most)| == Series(kinds, statuses, |names| + 2)
  {
    hide Counts, Drawn, Operations, Series;
    var named := names + {"", undeclared};
    most := LabelsReach(names, kinds, statuses, named);
    OperationsSize(names, named);
    assert names * named == names && undeclared in named;
  }

  lemma OperationsFew(names: set<string>, named: set<string>)
    requires ANONYMOUS !in names && OTHER !in names
    ensures |Operations(names, named)| <= |names| + 1
      <==> "" !in named || named <= names + {""} || !(names <= named)
  {
    hide Operations;
    OperationsSize(names, named);
    SomeUnused(names, named);
  }

  /**
   The documented (names + 1) x kinds x statuses bounds every history of the drawn events if and only if they
   cannot show all the declared names, none, and an undeclared one: each of these is a label of its own.
   */
  lemma DocumentedBoundIff(names: set<string>, kinds: set<Kind>, statuses: set<Status>, named: set<string>)
    requires ANONYMOUS !in names && OTHER !in names && kinds != {} && statuses != {}
    ensures (forall h :: Drawn(h, kinds, statuses, named) ==>
               |Counts(names, h)| <= Series(kinds, statuses, |names| + 1))
      <==> "" !in named || named <= names + {""} || !(names <= named)
  {
    hide Counts, Drawn, Operations, Series;
    var most := LabelsReach(names, kinds, statuses, named);
    var operations := |Operations(names, named)|;
    OperationsFew(names, named);
    if operations <= |names| + 1 {
      SeriesGrow(kinds, statuses, operations, |names| + 1);
    } else {
      SeriesGrow(kinds, statuses, |names| + 1, |names| + 2);
      SeriesGrow(kinds, statuses, |names| + 2, operations);
      assert |Counts(names, most)| > Series(kinds, statuses, |names| + 1);
    }
  }

  lemma {:induction false} SomeUnused(names: set<string>, named: set<string>)
    ensures |names * named| <= |names| && (names <= named <==> |names * named| == |names|)
  {
    SubsetSize(names * named, names);
    if n :| n in names && n !in named { SubsetSize(names * named, names - {n}); }
    if names <= named { assert names * named == names; }
  }
}
