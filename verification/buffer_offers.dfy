/** When an offer finds room, when it discards, and when a thread has to wait. */
module BufferOffers {
  import opened Wrappers
  import opened Buffer
  import opened BufferSafety
  import opened BufferGuarantees

  // ---------- Nothing is discarded while there is room ----------

  /** No call has found the queue full. */
  ghost predicate Unpressed(s: State) {
    forall i :: 0 <= i < |s.calls| ==>
      var c := s.calls[i];
      && !c.pc.Evicting? && !c.pc.CountingEvicted? && !c.pc.Resending? && !c.pc.CountingRefused?
      && !c.fate.Refused? && c.evictions == 0
  }

  lemma {:induction false} QueuedUnfolds(calls: seq<Call>)
    requires calls != []
    ensures var last := |calls| - 1;
      |WithFate(calls, Queued)| == |WithFate(calls[..last], Queued)| + if calls[last].fate.Queued? then 1 else 0
  {
    var last := |calls| - 1;
    assert |WithFate(calls[..last], Queued) + Mark(calls[last], Queued)|
        == |WithFate(calls[..last], Queued)| + |Mark(calls[last], Queued)|;
  }

  lemma {:induction false} QueuedAtMost(calls: seq<Call>)
    ensures |WithFate(calls, Queued)| <= |calls|
  {
    if calls != [] {
      hide WithFate;
      QueuedAtMost(calls[..|calls| - 1]);
      QueuedUnfolds(calls);
    }
  }

  lemma {:induction false} QueuedFew(calls: seq<Call>, i: nat)
    requires i < |calls| && !calls[i].fate.Queued?
    ensures |WithFate(calls, Queued)| < |calls|
  {
    hide WithFate;
    var last := |calls| - 1;
    QueuedAtMost(calls[..last]);
    if i < last { QueuedFew(calls[..last], i); }
    QueuedUnfolds(calls);
  }

  /** A call that has not queued its event leaves room for it, as long as the calls do not outnumber the capacity. */
  lemma RoomForOne(s: State, i: nat)
    requires QueueInv(s) && FateInv(s.calls, s.log)
    requires i < |s.calls| <= s.capacity && !s.calls[i].fate.Queued?
    ensures |s.queue| < s.capacity
  {
    hide WithFate, RemovedEvents, TakenEvents;
    QueuedFew(s.calls, i);
    assert Ledger(s.calls, Queued, s.log.enqueued);
    assert |multiset(s.log.enqueued)| == |s.log.enqueued|;
  }

  lemma {:induction false} StepUnpressed(s: State, a: Action)
    requires Inv(s) && Unpressed(s) && Enabled(s, a) && |Apply(s, a).calls| <= s.capacity
    ensures Unpressed(Apply(s, a))
  {
    hide RemovedEvents, TakenEvents, EvictedEvents, Total, LockInv, FateInv, CountInv, FlushOk, Unpressed;
    match a
    case StepCall(i) => CallUnpressed(s, i);
    case _ => OthersUnpressed(s, a);
  }

  lemma {:induction false} OthersUnpressed(s: State, a: Action)
    requires Unpressed(s) && Enabled(s, a) && !a.StepCall?
    ensures Unpressed(Apply(s, a))
  {
  }

  lemma {:induction false} CallUnpressed(s: State, i: nat)
    requires Inv(s) && Unpressed(s) && Enabled(s, StepCall(i)) && |s.calls| <= s.capacity
    ensures Unpressed(ApplyCall(s, i))
  {
    hide RemovedEvents, TakenEvents, EvictedEvents, Total, LockInv, FateInv, CountInv, FlushOk;
    assert CallOk(s.stopped, s.overflow, s.calls[i]);
    if s.calls[i].pc.Sending? { RoomForOne(s, i); }
  }

  lemma {:induction false} CallsGrow(s: State, a: Action)
    requires Enabled(s, a)
    ensures |s.calls| <= |Apply(s, a).calls| && Apply(s, a).capacity == s.capacity
  {
  }

  lemma {:induction false} RunUnpressed(s: State, acts: seq<Action>)
    requires Inv(s) && Unpressed(s)
    ensures var t := Execute(s, acts);
      t.Some? && |t.value.calls| <= s.capacity ==>
        Inv(t.value) && Unpressed(t.value) && t.value.capacity == s.capacity
    ensures var t := Execute(s, acts); t.Some? ==> t.value.capacity == s.capacity
  {
    if acts != [] {
      hide Inv, Unpressed, Apply, Enabled;
      var last := |acts| - 1;
      RunUnpressed(s, acts[..last]);
      if Execute(s, acts).Some? {
        var m := Execute(s, acts[..last]).value;
        CallsGrow(m, acts[last]);
        if |Apply(m, acts[last]).calls| <= s.capacity {
          StepKeeps(m, acts[last]);
          StepUnpressed(m, acts[last]);
        }
      }
    }
  }

  /** However the threads are scheduled, as many offers as the queue has slots lose nothing. */
  lemma NothingLostWithinCapacity(s: State)
    requires Reachable(s) && |s.calls| <= s.capacity
    ensures s.drops == 0 && s.log.refused == [] && EvictedEvents(s.log.removed) == []
  {
    hide RemovedEvents, TakenEvents, EvictedEvents, Total, LockInv, FlushOk, CallOk, Execute;
    var acts :| Execute(Init(s.capacity, s.overflow), acts) == Some(s);
    InitInv(s.capacity, s.overflow);
    RunUnpressed(Init(s.capacity, s.overflow), acts);
    TotalZero(s.calls, Owed);
    TotalZero(s.calls, Evictions);
    NoneRefused(s.calls);
    assert Ledger(s.calls, Refused, s.log.refused);
    assert |multiset(s.log.refused)| == |s.log.refused|;
  }

  // ---------- What an offer does ----------

  /** An offer goes on the queue exactly when there is room; full, the policy decides whose event is lost. */
  lemma OfferTakesRoom(s: State, i: nat)
    requires Reachable(s) && i < |s.calls| && s.calls[i].pc.Sending? && Enabled(s, StepCall(i))
    ensures var c, t := s.calls[i], Apply(s, StepCall(i));
      && (|s.queue| < s.capacity <==> t.calls[i].fate.Queued?)
      && (|s.queue| < s.capacity <==> t.queue == s.queue + [c.event])
      && (|s.queue| == s.capacity ==> t.queue == s.queue && t.drops == s.drops && s.overflow != Block)
      && (|s.queue| == s.capacity && s.overflow == DropOldest ==>
            t.calls[i] == c.(pc := Evicting) && t.log == s.log)
      && (|s.queue| == s.capacity && s.overflow == DropNewest ==>
            t.calls[i] == c.(pc := CountingRefused, fate := Refused) && t.log.refused == s.log.refused + [c.event])
  {
    hide RemovedEvents, TakenEvents, EvictedEvents, Total, LockInv, FateInv, CountInv, FlushOk;
    ReachableInv(s);
    assert CallOk(s.stopped, s.overflow, s.calls[i]);
  }

  /** Making room takes the event that has waited longest, and nothing at all from a queue already drained. */
  lemma EvictionTakesOldest(s: State, i: nat)
    requires Reachable(s) && i < |s.calls| && s.calls[i].pc.Evicting?
    ensures Enabled(s, StepCall(i))
    ensures var c, t := s.calls[i], Apply(s, StepCall(i));
      && (s.queue != [] ==>
            s.queue == [s.queue[0]] + t.queue && t.log.removed == s.log.removed + [Evicted(s.queue[0])]
            && t.calls[i] == c.(pc := CountingEvicted, evictions := c.evictions + 1))
      && (s.queue == [] ==> t.queue == [] && t.log == s.log && t.calls[i] == c.(pc := Resending))
  {
    hide RemovedEvents, TakenEvents, EvictedEvents, Total, LockInv, FateInv, CountInv, FlushOk;
    ReachableInv(s);
    assert CallOk(s.stopped, s.overflow, s.calls[i]);
  }

  /** The second send too goes on the queue exactly when there is room, and otherwise gives its own event up. */
  lemma SecondSendTakesRoom(s: State, i: nat)
    requires Reachable(s) && i < |s.calls| && s.calls[i].pc.Resending?
    ensures Enabled(s, StepCall(i))
    ensures var c, t := s.calls[i], Apply(s, StepCall(i));
      && (|s.queue| < s.capacity ==> t.queue == s.queue + [c.event] && t.calls[i].fate.Queued?)
      && (|s.queue| == s.capacity ==>
            t.queue == s.queue && t.calls[i] == c.(pc := CountingRefused, fate := Refused)
            && t.log.refused == s.log.refused + [c.event])
  {
    hide RemovedEvents, TakenEvents, EvictedEvents, Total, LockInv, FateInv, CountInv, FlushOk;
    ReachableInv(s);
    assert CallOk(s.stopped, s.overflow, s.calls[i]);
  }

  // ---------- Who waits for what ----------

  /** No flush has announced itself or holds the write lock. */
  ghost predicate NobodyWrites(s: State) {
    forall f :: 0 <= f < |s.flushes| ==> !s.flushes[f].Announced? && !HoldsWrite(s.flushes[f])
  }

  /** A call waits only to enter, while a flush is about, and, under Block, for room: never in between. */
  lemma CallWaitsIff(s: State, i: nat)
    requires Reachable(s) && i < |s.calls| && !s.calls[i].pc.Returned?
    ensures !Enabled(s, StepCall(i)) <==>
      (s.calls[i].pc.Called? && !NobodyWrites(s))
      || (s.calls[i].pc.Sending? && s.overflow == Block && |s.queue| == s.capacity)
  {
    hide RemovedEvents, TakenEvents, EvictedEvents, Total, FateInv, CountInv, FlushOk;
    ReachableInv(s);
    assert CallOk(s.stopped, s.overflow, s.calls[i]);
    if s.writer.Some? { assert s.flushes[s.writer.value].Announced? || HoldsWrite(s.flushes[s.writer.value]); }
  }

  /** A flush waits for other flushes, then for the calls inside, and at last for the worker to end. */
  lemma FlushWaitsIff(s: State, f: nat)
    requires Reachable(s) && f < |s.flushes|
    requires !s.flushes[f].ReturnedEarly? && !s.flushes[f].ReturnedDrained? && !s.flushes[f].ReturnedCancelled?
    ensures !Enabled(s, StepFlush(f)) <==>
      (s.flushes[f].Requested? && !NobodyWrites(s))
      || (s.flushes[f].Announced? && exists i :: 0 <= i < |s.calls| && HoldsRead(s.calls[i].pc))
      || (s.flushes[f].Awaiting? && !s.worker.Ended?)
  {
    hide RemovedEvents, TakenEvents, EvictedEvents, Total, FateInv, CountInv, FlushOk;
    ReachableInv(s);
    if s.writer.Some? { assert s.flushes[s.writer.value].Announced? || HoldsWrite(s.flushes[s.writer.value]); }
    if s.flushes[f].Announced? && !Enabled(s, StepFlush(f)) {
      var i :| i in s.readers;
      assert HoldsRead(s.calls[i].pc);
    }
  }

  /** The worker waits only for an event, on an open queue. */
  lemma WorkerWaitsIff(s: State)
    requires !s.worker.Ended?
    ensures !Enabled(s, StepWorker) <==> s.worker.Receiving? && s.queue == [] && !s.closed
  {
  }

  /** A flush whose context ends while it waits returns at once, and leaves the worker to drain. */
  lemma CancelledReturns(s: State, f: nat)
    requires f < |s.flushes|
    ensures Enabled(s, Cancel(f)) <==> s.flushes[f].Awaiting?
    ensures s.flushes[f].Awaiting? ==> Apply(s, Cancel(f)) == s.(flushes := s.flushes[f := ReturnedCancelled])
  {
  }
}
