/** Why one offer can discard two events: another producer takes the room it made. */
module BufferPressure {
  import opened Events
  import opened Buffer
  import opened BufferSafety
  import opened BufferGuarantees
  import opened BufferLate

  // ---------- It can happen ----------

  /** A full queue of one, and a call between its eviction and its second send. */
  function MadeRoom(e: Event, f: Event): State {
    Holding(1, DropOldest, e).(
      queue := [], readers := {1}, calls := [Call(e, Returned, Queued, 0), Call(f, CountingEvicted, Undecided, 1)],
      log := Log([e], [Evicted(e)], [], [], []))
  }

  lemma MadeRoomReachable(e: Event, f: Event)
    ensures Reachable(MadeRoom(e, f))
  {
    hide Reachable;
    var s := Holding(1, DropOldest, e);
    HoldingReachable(1, DropOldest, e);
    ReachableStep(s, Arrive(f));
    var s1 := Apply(s, Arrive(f));
    ReachableStep(s1, StepCall(1));
    var s2 := Apply(s1, StepCall(1));
    ReachableStep(s2, StepCall(1));
    var s3 := Apply(s2, StepCall(1));
    ReachableStep(s3, StepCall(1));
    var s4 := Apply(s3, StepCall(1));
    ReachableStep(s4, StepCall(1));
    assert Apply(s4, StepCall(1)) == MadeRoom(e, f);
  }

  /** A second call sends before the first does: the first has discarded the oldest event and its own. */
  lemma TwoDiscardsReachable(e: Event, f: Event, g: Event) returns (s: State)
    ensures Reachable(s) && s.capacity == 1 && s.overflow == DropOldest
    ensures |s.calls| == 3 && Discards(s.calls[1]) == 2
    ensures s.queue == [g] && EvictedEvents(s.log.removed) == [e] && s.log.refused == [f]
  {
    hide Reachable;
    var t := MadeRoom(e, f);
    MadeRoomReachable(e, f);
    ReachableStep(t, Arrive(g));
    var t1 := Apply(t, Arrive(g));
    ReachableStep(t1, StepCall(2));
    var t2 := Apply(t1, StepCall(2));
    ReachableStep(t2, StepCall(2));
    var t3 := Apply(t2, StepCall(2));
    ReachableStep(t3, StepCall(2));
    var t4 := Apply(t3, StepCall(2));
    ReachableStep(t4, StepCall(1));
    var t5 := Apply(t4, StepCall(1));
    ReachableStep(t5, StepCall(1));
    s := Apply(t5, StepCall(1));
  }

  // ---------- It happens only so ----------

  /** Step `j` of the run is another call putting its event on the queue. */
  ghost predicate OtherEnqueues(s: State, acts: seq<Action>, i: nat, j: nat) {
    && j < |acts| && acts[j].StepCall? && acts[j].i != i
    && var m, n := Execute(s, acts[..j]), Execute(s, acts[..j + 1]);
       m.Some? && n.Some? && acts[j].i < |m.value.calls|
       && n.value.log.enqueued == m.value.log.enqueued + [m.value.calls[acts[j].i].event]
  }

  /** The call has tried to receive and not sent again while there is room, or its event is on the queue. */
  ghost predicate RoomKept(s: State, i: nat) {
    && i < |s.calls|
    && (s.calls[i].fate.Queued?
        || ((s.calls[i].pc.CountingEvicted? || s.calls[i].pc.Resending?) && |s.queue| < s.capacity))
  }

  lemma {:induction false} StepKeepsRoom(s: State, a: Action, i: nat)
    requires Inv(s) && RoomKept(s, i) && Enabled(s, a)
    ensures RoomKept(Apply(s, a), i)
      || (a.StepCall? && a.i != i && a.i < |s.calls|
          && Apply(s, a).log.enqueued == s.log.enqueued + [s.calls[a.i].event])
  {
    hide RemovedEvents, TakenEvents, EvictedEvents, Total, LockInv, FateInv, CountInv, FlushOk;
    assert CallOk(s.stopped, s.overflow, s.calls[i]);
  }

  lemma OtherEnqueuesStill(s: State, acts: seq<Action>, i: nat, j: nat)
    requires acts != []
    ensures OtherEnqueues(s, acts[..|acts| - 1], i, j) ==> OtherEnqueues(s, acts, i, j)
  {
    hide Execute;
    var last := |acts| - 1;
    if j < last { assert acts[..last][..j] == acts[..j] && acts[..last][..j + 1] == acts[..j + 1]; }
  }

  lemma OtherEnqueuesLast(s: State, acts: seq<Action>, i: nat)
    requires acts != [] && Execute(s, acts[..|acts| - 1]).Some? && Execute(s, acts).Some?
    requires var m, a := Execute(s, acts[..|acts| - 1]).value, acts[|acts| - 1];
      a.StepCall? && a.i != i && a.i < |m.calls|
      && Execute(s, acts).value.log.enqueued == m.log.enqueued + [m.calls[a.i].event]
    ensures OtherEnqueues(s, acts, i, |acts| - 1)
  {
    hide Execute;
    assert acts[..|acts| - 1 + 1] == acts;
  }

  lemma {:induction false} RunKeepsRoom(s: State, acts: seq<Action>, i: nat)
    requires Inv(s) && RoomKept(s, i) && Execute(s, acts).Some?
    requires forall j :: !OtherEnqueues(s, acts, i, j)
    ensures Inv(Execute(s, acts).value) && RoomKept(Execute(s, acts).value, i)
  {
    if acts != [] {
      hide Inv, RoomKept, OtherEnqueues, Apply, Enabled;
      var last := |acts| - 1;
      forall j: nat ensures !OtherEnqueues(s, acts[..last], i, j) { OtherEnqueuesStill(s, acts, i, j); }
      RunKeepsRoom(s, acts[..last], i);
      var m := Execute(s, acts[..last]).value;
      StepKeeps(m, acts[last]);
      StepKeepsRoom(m, acts[last], i);
      if !RoomKept(Apply(m, acts[last]), i) { OtherEnqueuesLast(s, acts, i); }
    }
  }

  /**
   A second send is refused only if another call took the room since the receive, whether that one evicted an event
   or found the queue already drained: the worker never takes it.
   */
  lemma RefusalNeedsAnother(s: State, i: nat, acts: seq<Action>)
    requires Reachable(s) && i < |s.calls| && s.calls[i].pc.Evicting?
    requires var t := Execute(ApplyCall(s, i), acts);
      t.Some? && i < |t.value.calls| && t.value.calls[i].fate.Refused?
    ensures exists j :: OtherEnqueues(ApplyCall(s, i), acts, i, j)
  {
    hide Inv, Execute, OtherEnqueues;
    ReachableInv(s);
    assert |s.queue| <= s.capacity && 1 <= s.capacity && !s.closed by { NeverPanics(s); }
    StepKeeps(s, StepCall(i));
    assert Apply(s, StepCall(i)) == ApplyCall(s, i);
    assert RoomKept(ApplyCall(s, i), i);
    if forall j :: !OtherEnqueues(ApplyCall(s, i), acts, i, j) {
      RunKeepsRoom(ApplyCall(s, i), acts, i);
      NotRefused(Execute(ApplyCall(s, i), acts).value, i);
    }
  }

  lemma {:induction false} NotRefused(t: State, i: nat)
    requires Inv(t) && RoomKept(t, i)
    ensures !t.calls[i].fate.Refused?
  {
    hide RemovedEvents, TakenEvents, EvictedEvents, Total, LockInv, FateInv, CountInv, FlushOk;
    assert CallOk(t.stopped, t.overflow, t.calls[i]);
  }
}
