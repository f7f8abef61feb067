/** A ring of an account's runs, proved to hold the end of its history. */
module ProcessRuns {
  import opened Events
  import opened Rings

  /** What the process did over a window. */
  datatype Change = Change(
    duration: int, endTime: Time, allocBytes: nat, allocObjects: nat, freeBytes: nat, gcCycles: nat,
    cpuSeconds: real, gcCpuSeconds: real, threads: nat)

  datatype Run = Run(endTime: Time, change: Change)

  const MAX_RUNS: nat := 256

  /** The ring has no slots until the first run is added. */
  class Runs {
    var slots: array?<Run>
    var next: nat
    var full: bool
    ghost var history: seq<Run>

    ghost predicate Valid()
      reads this, slots
    {
      if slots == null then next == 0 && !full && history == []
      else slots.Length == MAX_RUNS && Holds(slots[..], next, full, history)
    }

    constructor ()
      ensures Valid() && history == [] && slots == null
    {
      slots, next, full, history := null, 0, false, [];
    }

    method Add(run: Run)
      requires Valid()
      modifies this, slots
      ensures Valid() && history == old(history) + [run]
      ensures slots != null && (old(slots) != null ==> slots == old(slots)) && (old(slots) == null ==> fresh(slots))
    {
      if slots == null { slots := new Run[MAX_RUNS]; }
      HoldsNext(slots[..], next, full, history, run);
      ghost var before := slots[..];
      slots[next] := run;
      assert slots[..] == before[next := run];
      next := (next + 1) % MAX_RUNS;
      history := history + [run];
      if next == 0 { full := true; }
    }

    /** Newest first. */
    method Latest() returns (latest: seq<Run>)
      requires Valid()
      ensures latest == Reversed(LastOf(history, MAX_RUNS))
    {
      var count := if full then MAX_RUNS else next;
      ghost var kept := LastOf(history, MAX_RUNS);
      latest := [];
      var step := 1;
      while step <= count
        invariant 1 <= step <= count + 1
        invariant |kept| == count
        invariant latest == Reversed(kept)[..step - 1]
      {
        var at := (next - step + MAX_RUNS) % MAX_RUNS;
        HoldsBack(slots[..], next, full, history, step);
        latest := latest + [slots[at]];
        step := step + 1;
      }
    }
  }
}
