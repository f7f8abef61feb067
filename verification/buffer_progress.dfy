/** That the buffer finishes: nothing deadlocks, and no schedule runs for ever. */
module BufferProgress {
  import opened Buffer
  import opened BufferSafety

  // ---------- No deadlock ----------

  predicate FlushReturned(pc: FlushPc) { pc.ReturnedEarly? || pc.ReturnedDrained? || pc.ReturnedCancelled? }

  /** Every call has returned and the worker is done, or waits on an open empty queue. */
  predicate Final(s: State) {
    && (forall i :: 0 <= i < |s.calls| ==> s.calls[i].pc.Returned?)
    && (forall f :: 0 <= f < |s.flushes| ==> FlushReturned(s.flushes[f]))
    && (s.worker.Ended? || (s.worker.Receiving? && s.queue == [] && !s.closed))
  }

  /** Some thread can move without a new call, and without any context ending. */
  ghost predicate CanMove(s: State) { exists a :: Internal(a) && !a.Cancel? && Enabled(s, a) }

  lemma WorkerMoves(s: State)
    requires !s.worker.Ended? && (s.queue != [] || s.closed || !s.worker.Receiving?)
    ensures CanMove(s)
  {
    assert Enabled(s, StepWorker);
  }

  /** A call inside the lock moves, unless it is parked on a full queue: then the worker does. */
  lemma ReaderMoves(s: State, i: nat)
    requires QueueInv(s) && i < |s.calls| && HoldsRead(s.calls[i].pc)
    ensures CanMove(s)
  {
    hide RemovedEvents, TakenEvents;
    if !Enabled(s, StepCall(i)) { WorkerMoves(s); }
  }

  /** The writer moves, or waits for a reader that does. */
  lemma WriterMoves(s: State)
    requires QueueInv(s) && LockInv(s) && s.writer.Some?
    ensures CanMove(s)
  {
    hide RemovedEvents, TakenEvents;
    var f := s.writer.value;
    if !Enabled(s, StepFlush(f)) {
      var i :| i in s.readers;
      ReaderMoves(s, i);
    }
  }

  /** A Block producer parked on a full queue, holding the lock Flush waits for, is no deadlock. */
  lemma NoDeadlock(s: State)
    requires Reachable(s) && !Final(s)
    ensures CanMove(s)
  {
    hide RemovedEvents, TakenEvents, EvictedEvents, Total, CallOk;
    ReachableInv(s);
    if s.writer.Some? {
      WriterMoves(s);
    } else if exists i :: 0 <= i < |s.calls| && !s.calls[i].pc.Returned? {
      var i :| 0 <= i < |s.calls| && !s.calls[i].pc.Returned?;
      if s.calls[i].pc.Called? { assert Enabled(s, StepCall(i)); } else { ReaderMoves(s, i); }
    } else if exists f :: 0 <= f < |s.flushes| && !FlushReturned(s.flushes[f]) {
      var f :| 0 <= f < |s.flushes| && !FlushReturned(s.flushes[f]);
      assert FlushOk(s.stopped, s.closed, s.done, s.flushes[f]);
      if !Enabled(s, StepFlush(f)) { WorkerMoves(s); }
    } else {
      WorkerMoves(s);
    }
  }

  /** In a final state only a new call, or a new flush, moves anything. */
  lemma {:induction false} FinalIsStill(s: State)
    requires Final(s)
    ensures !CanMove(s)
  {
    forall a | Internal(a) && !a.Cancel? ensures !Enabled(s, a) {
      match a
      case StepCall(i) => if i < |s.calls| { assert s.calls[i].pc.Returned?; }
      case StepFlush(f) => if f < |s.flushes| { assert FlushReturned(s.flushes[f]); }
      case StepWorker =>
    }
  }

  // ---------- A measure ----------

  function CallRank(c: Call): nat {
    match c.pc
    case Called => 9
    case Testing => 8
    case Sending => 7
    case Evicting => 6
    case CountingEvicted => 5
    case Resending => 4
    case CountingRefused => 2
    case Inline => 2
    case Unlocking => 1
    case Returned => 0
  }

  function FlushRank(pc: FlushPc): nat {
    match pc
    case Requested => 8
    case Announced => 7
    case Locked => 6
    case Marking => 5
    case Closing => 4
    case Releasing => 3
    case Awaiting => 2
    case LeavingEarly => 1
    case _ => 0
  }

  function WorkerRank(w: Worker): nat {
    match w
    case Delivering(_) => 3
    case Receiving => 2
    case Finishing => 1
    case Ended => 0
  }

  function FlushTotal(flushes: seq<FlushPc>): nat {
    if flushes == [] then 0 else FlushTotal(flushes[..|flushes| - 1]) + FlushRank(flushes[|flushes| - 1])
  }

  /** How many more steps the calls made so far can cause. */
  function Measure(s: State): nat {
    Total(s.calls, CallRank) + FlushTotal(s.flushes) + 2 * |s.queue| + WorkerRank(s.worker)
  }

  lemma {:induction false} FlushTotalUpdate(flushes: seq<FlushPc>, f: nat, pc: FlushPc)
    requires f < |flushes|
    ensures FlushTotal(flushes[f := pc]) + FlushRank(flushes[f]) == FlushTotal(flushes) + FlushRank(pc)
  {
    var last := |flushes| - 1;
    if f == last {
      assert flushes[f := pc][..last] == flushes[..last];
    } else {
      assert flushes[f := pc][..last] == flushes[..last][f := pc];
      FlushTotalUpdate(flushes[..last], f, pc);
    }
  }

  lemma CallShrinks(s: State, i: nat)
    requires Enabled(s, StepCall(i))
    ensures var e := EffectOfCall(s, i, s.calls[i]); CallRank(e.call) + 2 * |e.queue| < CallRank(s.calls[i]) + 2 * |s.queue|
  {
  }

  lemma StepShrinks(s: State, a: Action)
    requires Internal(a) && Enabled(s, a)
    ensures Measure(Apply(s, a)) < Measure(s)
  {
    hide Total, FlushTotal;
    match a
    case StepCall(i) =>
      hide EffectOfCall, CallRank;
      CallShrinks(s, i);
      TotalUpdate(s.calls, CallRank, i, EffectOfCall(s, i, s.calls[i]).call);
    case StepFlush(f) => FlushTotalUpdate(s.flushes, f, EffectOfFlush(s, f, s.flushes[f]).pc);
    case Cancel(f) => FlushTotalUpdate(s.flushes, f, ReturnedCancelled);
    case StepWorker =>
  }

  /** However the threads are scheduled, the calls made so far finish within Measure(s) steps. */
  lemma {:induction false} RunsAreFinite(s: State, acts: seq<Action>)
    requires forall k :: 0 <= k < |acts| ==> Internal(acts[k])
    requires Execute(s, acts).Some?
    ensures |acts| + Measure(Execute(s, acts).value) <= Measure(s)
  {
    hide Measure, Enabled, Apply;
    if acts != [] {
      var last := |acts| - 1;
      RunsAreFinite(s, acts[..last]);
      StepShrinks(Execute(s, acts[..last]).value, acts[last]);
    }
  }

  /** A run that can go no further has finished: with a flush in it, the worker ended and all was drained. */
  lemma MaximalRunsFinish(s: State, acts: seq<Action>)
    requires Reachable(s) && Execute(s, acts).Some?
    requires !CanMove(Execute(s, acts).value)
    ensures Reachable(Execute(s, acts).value) && Final(Execute(s, acts).value)
    ensures |s.flushes| > 0 ==>
      var t := Execute(s, acts).value; t.worker.Ended? && t.queue == [] && t.done
  {
    hide Measure, Enabled, Apply, CanMove, Total, RemovedEvents, TakenEvents, EvictedEvents;
    ReachableRun(s, acts);
    var t := Execute(s, acts).value;
    if !Final(t) { NoDeadlock(t); }
    ReachableInv(t);
    if |s.flushes| > 0 {
      FlushesStay(s, acts);
      assert FlushReturned(t.flushes[0]);
      assert FlushOk(t.stopped, t.closed, t.done, t.flushes[0]);
      assert t.stopped && !t.closed ==> t.writer.Some?;
    }
  }

  lemma {:induction false} ReachableRun(s: State, acts: seq<Action>)
    requires Reachable(s) && Execute(s, acts).Some?
    ensures Reachable(Execute(s, acts).value)
  {
    hide Reachable, Enabled, Apply;
    if acts != [] {
      var last := |acts| - 1;
      ReachableRun(s, acts[..last]);
      ReachableStep(Execute(s, acts[..last]).value, acts[last]);
    }
  }

  lemma {:induction false} FlushesStay(s: State, acts: seq<Action>)
    requires Execute(s, acts).Some?
    ensures |s.flushes| <= |Execute(s, acts).value.flushes|
  {
    if acts != [] { FlushesStay(s, acts[..|acts| - 1]); }
  }
}
