/** The collector: two maps of histograms and a map of counts, proved to be folds of the events seen. */
module Collectors {
  import opened Events
  import opened Distributions

  // ---------- Labels ----------

  const OTHER := "other"
  const ANONYMOUS := ""

  datatype Label = Label(kind: Kind, status: Status, operation: string)

  method NewVocabulary(operations: seq<string>) returns (names: set<string>)
    ensures forall n :: n in names <==> n in operations && n != "" && n != "other"
  {
    names := {};
    for k := 0 to |operations|
      invariant forall n :: n in names <==> n in operations[..k] && n != ANONYMOUS && n != OTHER
    {
      if operations[k] != "" && operations[k] != OTHER {
        names := names + {operations[k]};
      }
    }
  }

  function LabelFor(names: set<string>, e: Event): Label {
    Label(e.kind, e.status,
          if e.operation == "" then ANONYMOUS else if e.operation in names then e.operation else OTHER)
  }

  // ---------- What the collector holds: a fold over the history ----------

  /** The two things an event may carry a measurement of. */
  datatype Measure = Duration | Delay

  function Value(m: Measure, e: Event): int { if m.Duration? then e.duration else e.delay }

  function Get(samples: map<Label, seq<int>>, l: Label): seq<int> { if l in samples then samples[l] else [] }

  function Measured(names: set<string>, m: Measure, samples: map<Label, seq<int>>, e: Event): map<Label, seq<int>> {
    if Value(m, e) > 0 then samples[LabelFor(names, e) := Get(samples, LabelFor(names, e)) + [Value(m, e)]] else samples
  }

  /** The positive measurements of each label, in the order they came. */
  function Samples(names: set<string>, m: Measure, history: seq<Event>): map<Label, seq<int>> {
    if history == [] then map[]
    else Measured(names, m, Samples(names, m, history[..|history| - 1]), history[|history| - 1])
  }

  function Counted(names: set<string>, counts: map<Label, nat>, e: Event): map<Label, nat> {
    var l := LabelFor(names, e);
    counts[l := (if l in counts then counts[l] else 0) + 1]
  }

  function Counts(names: set<string>, history: seq<Event>): map<Label, nat> {
    if history == [] then map[] else Counted(names, Counts(names, history[..|history| - 1]), history[|history| - 1])
  }

  datatype Snapshot = Snapshot(
    counts: map<Label, nat>, durations: map<Label, Distribution>, delays: map<Label, Distribution>)

  function Summarised(boundaries: seq<int>, samples: map<Label, seq<int>>): map<Label, Distribution> {
    map l | l in samples :: DistributionOf(boundaries, samples[l])
  }

  function SnapshotOf(names: set<string>, boundaries: seq<int>, history: seq<Event>): Snapshot {
    Snapshot(Counts(names, history), Summarised(boundaries, Samples(names, Duration, history)),
             Summarised(boundaries, Samples(names, Delay, history)))
  }

  // ---------- The code ----------

  ghost predicate Serves(h: Histogram, boundaries: seq<int>, samples: seq<int>)
    reads h, h.counts
  {
    h.Valid() && h.boundaries == boundaries && h.samples == samples
  }

  ghost predicate Separate(at: map<Label, Histogram>) {
    forall l, m :: l in at && m in at && l != m ==> at[l] != at[m] && at[l].counts != at[m].counts
  }

  lemma SeparateFrom(at: map<Label, Histogram>, key: Label)
    requires Separate(at) && key in at
    ensures forall l :: l in at && l != key ==> at[l] != at[key] && at[l].counts != at[key].counts
  {
  }

  method AddSample(h: Histogram, value: int, ghost boundaries: seq<int>, ghost samples: seq<int>)
    requires Serves(h, boundaries, samples)
    modifies h, h.counts
    ensures Serves(h, boundaries, samples + [value])
  {
    h.Add(value);
  }

  method NewHistogram(boundaries: seq<int>) returns (h: Histogram)
    ensures fresh(h) && fresh(h.counts) && Serves(h, boundaries, [])
  {
    h := new Histogram(boundaries);
  }

  /** A map from labels to histograms, shared by whoever holds it. */
  class Histograms {
    const boundaries: seq<int>
    var at: map<Label, Histogram>
    ghost var samples: map<Label, seq<int>>
    ghost var Repr: set<object>

    /** Each label has a histogram of its own, holding that label's samples. */
    ghost predicate Valid()
      reads this, Repr
      ensures Valid() ==> this in Repr
    {
      && this in Repr
      && at.Keys == samples.Keys
      && (forall l :: l in at ==>
            at[l] in Repr && at[l].counts in Repr && Serves(at[l], boundaries, samples[l]))
      && Separate(at)
    }

    constructor (bounds: seq<int>)
      ensures Valid() && fresh(Repr) && boundaries == bounds && samples == map[]
    {
      boundaries, at, samples := bounds, map[], map[];
      Repr := {this};
    }

    method HistogramFor(key: Label) returns (histogram: Histogram)
      requires Valid()
      modifies this
      ensures Valid() && fresh(Repr - old(Repr)) && samples == old(samples)[key := Get(old(samples), key)]
      ensures key in at && histogram == at[key]
    {
      hide Serves;
      if key !in at {
        var created := NewHistogram(boundaries);
        assert Separate(at[key := created]);
        at := at[key := created];
        samples := samples[key := []];
        Repr := Repr + {created, created.counts};
        forall l | l in at
          ensures at[l] in Repr && at[l].counts in Repr && Serves(at[l], boundaries, samples[l])
        {
          if l != key { assert old(Serves(at[l], boundaries, samples[l])); }
        }
      }
      histogram := at[key];
    }

    method AddTo(key: Label, value: int)
      requires Valid() && key in at
      modifies this`samples, at[key], at[key].counts
      ensures Valid() && samples == old(samples)[key := old(samples)[key] + [value]]
    {
      hide Histogram.Valid, Separate, Serves;
      SeparateFrom(at, key);
      AddSample(at[key], value, boundaries, samples[key]);
      samples := samples[key := samples[key] + [value]];
    }

    method Measure(key: Label, value: int)
      requires Valid()
      modifies Repr
      ensures Valid() && fresh(Repr - old(Repr))
      ensures samples == old(samples)[key := Get(old(samples), key) + [value]]
    {
      hide Serves, Separate;
      var _ := HistogramFor(key);
      AddTo(key, value);
    }

    /** The histograms read out, whatever order the map is visited in. */
    method Read() returns (read: map<Label, Distribution>)
      requires Valid()
      ensures read == Summarised(boundaries, samples)
    {
      read := map[];
      var rest := at.Keys;
      while rest != {}
        invariant rest <= at.Keys
        invariant read.Keys == at.Keys - rest
        invariant forall l :: l in read ==> read[l] == DistributionOf(boundaries, samples[l])
      {
        var key :| key in rest;
        var distribution := at[key].Snapshot();
        read := read[key := distribution];
        rest := rest - {key};
      }
    }
  }

  class Collector {
    const names: set<string>
    const boundaries: seq<int>
    var counts: map<Label, nat>
    const durations: Histograms
    const delays: Histograms
    ghost var history: seq<Event>

    ghost predicate Valid()
      reads this, durations, delays, durations.Repr, delays.Repr
    {
      && counts == Counts(names, history)
      && durations.Valid() && durations.samples == Samples(names, Duration, history)
      && delays.Valid() && delays.samples == Samples(names, Delay, history)
      && durations.boundaries == boundaries == delays.boundaries
      && durations.Repr !! delays.Repr && this !in durations.Repr && this !in delays.Repr
    }

    constructor (vocabulary: set<string>, bounds: seq<int>)
      ensures Valid() && fresh(durations.Repr) && fresh(delays.Repr)
      ensures history == [] && names == vocabulary && boundaries == SortBoundaries(bounds)
    {
      names := vocabulary;
      boundaries := SortBoundaries(bounds);
      counts, history := map[], [];
      durations := new Histograms(SortBoundaries(bounds));
      delays := new Histograms(SortBoundaries(bounds));
    }

    method Observe(event: Event)
      requires Valid()
      modifies this, durations.Repr, delays.Repr
      ensures Valid() && history == old(history) + [event]
      ensures fresh(durations.Repr - old(durations.Repr)) && fresh(delays.Repr - old(delays.Repr))
    {
      hide Samples, Counts, Histograms.Valid;
      var key := LabelFor(names, event);
      FoldsOnce(names, history, event);
      counts := counts[key := (if key in counts then counts[key] else 0) + 1];
      if event.duration > 0 { durations.Measure(key, event.duration); }
      if event.delay > 0 { delays.Measure(key, event.delay); }
      history := history + [event];
    }

    /** A copy: a value, which nothing observed later can change. */
    method TakeSnapshot() returns (snapshot: Snapshot)
      requires Valid()
      ensures snapshot == SnapshotOf(names, boundaries, history)
    {
      hide Samples, Counts;
      var longs := durations.Read();
      var waits := delays.Read();
      snapshot := Snapshot(counts, longs, waits);
    }
  }

  lemma {:induction false} FoldsOnce(names: set<string>, history: seq<Event>, e: Event)
    ensures Counts(names, history + [e]) == Counted(names, Counts(names, history), e)
    ensures Samples(names, Duration, history + [e]) == Measured(names, Duration, Samples(names, Duration, history), e)
    ensures Samples(names, Delay, history + [e]) == Measured(names, Delay, Samples(names, Delay, history), e)
  {
    assert (history + [e])[..|history|] == history;
  }
}
