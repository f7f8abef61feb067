/** What a user of the buffer may rely on, for every run of it. */
module BufferGuarantees {
  import opened Wrappers
  import opened Sequences
  import opened Buffer
  import opened BufferSafety

  /** A refusal is exactly a missing observer or a capacity below one; a new buffer starts a run. */
  lemma NewBufferStarts(hasObserver: bool, capacity: int, overflow: Overflow)
    ensures NewBuffer(hasObserver, capacity, overflow).Failure? <==> !hasObserver || capacity < 1
    ensures NewBuffer(hasObserver, capacity, overflow) == Failure(NoObserver) <==> !hasObserver
    ensures var b := NewBuffer(hasObserver, capacity, overflow);
      b.Success? ==> Reachable(b.value) && b.value.capacity == capacity && b.value.overflow == overflow
  {
    if hasObserver && 1 <= capacity {
      assert Execute(Init(capacity, overflow), []) == Some(Init(capacity, overflow));
    }
  }

  /** No event is lost, invented or delivered twice, and every discard is counted. */
  lemma Conservation(s: State)
    requires Reachable(s)
    ensures Offered(s.calls) == WithFate(s.calls, Undecided) + multiset(s.queue) + multiset(Hand(s.worker))
      + multiset(s.log.delivered) + multiset(s.log.inlined)
      + multiset(EvictedEvents(s.log.removed)) + multiset(s.log.refused)
    ensures forall i :: 0 <= i < |s.calls| ==> (s.calls[i].fate.Undecided? <==> Deciding(s.calls[i].pc))
    ensures s.drops + Total(s.calls, Owed) == |EvictedEvents(s.log.removed)| + |s.log.refused|
  {
    hide WithFate, Offered, RemovedEvents, TakenEvents, EvictedEvents, Total, FlushOk, LockInv, StopInv;
    ReachableInv(s);
    FatesPartition(s.calls);
    RemovedSplit(s.log.removed);
    assert forall i :: 0 <= i < |s.calls| ==> CallOk(s.stopped, s.overflow, s.calls[i]);
  }

  /** No run sends on a closed queue or closes a channel twice; the queue stays within its capacity. */
  lemma NeverPanics(s: State)
    requires Reachable(s)
    ensures !s.panicked && |s.queue| <= s.capacity
    ensures forall i :: 0 <= i < |s.calls| && Offering(s.calls[i].pc) ==> !s.closed
    ensures forall f :: 0 <= f < |s.flushes| && s.flushes[f].Closing? ==> !s.closed
  {
    hide RemovedEvents, TakenEvents, EvictedEvents, Total;
    ReachableInv(s);
    forall i | 0 <= i < |s.calls| && Offering(s.calls[i].pc) ensures !s.closed {
      assert CallOk(s.stopped, s.overflow, s.calls[i]);
    }
    forall f | 0 <= f < |s.flushes| && s.flushes[f].Closing? ensures !s.closed {
      assert FlushOk(s.stopped, s.closed, s.done, s.flushes[f]);
    }
  }

  /** The write lock excludes the readers and every other writer. */
  lemma LockExcludes(s: State, f: nat, g: nat)
    requires Reachable(s) && f < |s.flushes| && HoldsWrite(s.flushes[f])
    requires g < |s.flushes| && HoldsWrite(s.flushes[g])
    ensures f == g && forall i :: 0 <= i < |s.calls| ==> !HoldsRead(s.calls[i].pc)
  {
    hide RemovedEvents, TakenEvents, EvictedEvents, Total, QueueInv, FateInv, CountInv;
    ReachableInv(s);
  }

  /** A Flush that returns through `done` leaves nothing behind, whatever the policy. */
  lemma FlushDrains(s: State, f: nat)
    requires Reachable(s) && f < |s.flushes| && s.flushes[f].ReturnedDrained?
    ensures s.worker.Ended? && s.queue == [] && s.closed
    ensures forall i :: 0 <= i < |s.calls| ==> !Offering(s.calls[i].pc)
    ensures WithFate(s.calls, Queued) == multiset(s.log.delivered) + multiset(EvictedEvents(s.log.removed))
    ensures WithFate(s.calls, Refused) == multiset(s.log.refused)
    ensures s.drops == |EvictedEvents(s.log.removed)| + |s.log.refused|
    ensures s.overflow == Block ==> s.log.delivered == s.log.enqueued && s.drops == 0
  {
    hide WithFate, RemovedEvents, TakenEvents, EvictedEvents, Total, LockInv;
    ReachableInv(s);
    assert FlushOk(s.stopped, s.closed, s.done, s.flushes[f]);
    forall i | 0 <= i < |s.calls| ensures !Offering(s.calls[i].pc) {
      assert CallOk(s.stopped, s.overflow, s.calls[i]);
    }
    TotalZero(s.calls, Owed);
    RemovedSplit(s.log.removed);
    if s.overflow == Block { NothingEvicted(s.log.removed); }
  }

  // ---------- What a flush that returns without an error says ----------

  /** The flush that found the buffer running: it stops it, and waits. */
  predicate Stops(pc: FlushPc) {
    pc.Closing? || pc.Releasing? || pc.Awaiting? || pc.ReturnedDrained? || pc.ReturnedCancelled?
  }

  ghost predicate StoppedBySome(s: State) {
    s.stopped ==> exists f :: 0 <= f < |s.flushes| && Stops(s.flushes[f])
  }

  lemma {:induction false} StepKeepsStopper(s: State, a: Action)
    requires StoppedBySome(s) && Enabled(s, a)
    ensures StoppedBySome(Apply(s, a))
  {
    var t := Apply(s, a);
    if t.stopped && s.stopped {
      var f :| 0 <= f < |s.flushes| && Stops(s.flushes[f]);
      assert Stops(t.flushes[f]);
    } else if t.stopped {
      assert Stops(t.flushes[a.f]);
    }
  }

  lemma {:induction false} RunKeepsStopper(s: State, acts: seq<Action>)
    requires StoppedBySome(s)
    ensures Execute(s, acts).Some? ==> StoppedBySome(Execute(s, acts).value)
  {
    if acts != [] {
      hide StoppedBySome, Apply, Enabled;
      var last := |acts| - 1;
      RunKeepsStopper(s, acts[..last]);
      if Execute(s, acts).Some? { StepKeepsStopper(Execute(s, acts[..last]).value, acts[last]); }
    }
  }

  /** A flush returns early only behind another one, which may still be waiting for the drain. */
  lemma EarlyReturnFollows(s: State, f: nat)
    requires Reachable(s) && f < |s.flushes| && s.flushes[f].ReturnedEarly?
    ensures exists g :: 0 <= g < |s.flushes| && g != f && Stops(s.flushes[g])
  {
    hide RemovedEvents, TakenEvents, EvictedEvents, Total, LockInv;
    ReachableInv(s);
    assert FlushOk(s.stopped, s.closed, s.done, s.flushes[f]);
    var acts :| Execute(Init(s.capacity, s.overflow), acts) == Some(s);
    RunKeepsStopper(Init(s.capacity, s.overflow), acts);
  }

  predicate ReturnedNil(pc: FlushPc) { pc.ReturnedEarly? || pc.ReturnedDrained? }

  /** So an only flush that returns without an error has drained the queue and ended the worker. */
  lemma OnlyFlushDrains(s: State)
    requires Reachable(s) && |s.flushes| == 1 && ReturnedNil(s.flushes[0])
    ensures s.flushes[0].ReturnedDrained? && s.worker.Ended? && s.queue == [] && s.closed
  {
    hide Reachable;
    if s.flushes[0].ReturnedEarly? { EarlyReturnFollows(s, 0); }
    FlushDrains(s, 0);
  }

  // ---------- Order ----------

  /** The worker delivers in enqueue order; only DropOldest leaves gaps, and the queue is always a suffix. */
  lemma DeliveryOrder(s: State)
    requires Reachable(s)
    ensures IsSubsequence(s.log.delivered + Hand(s.worker), RemovedEvents(s.log.removed))
    ensures s.log.enqueued == RemovedEvents(s.log.removed) + s.queue
    ensures s.overflow != DropOldest ==> s.log.delivered + Hand(s.worker) + s.queue == s.log.enqueued
  {
    hide RemovedEvents, TakenEvents, EvictedEvents, Total, LockInv, FlushOk, CallOk, FateInv, IsSubsequence;
    ReachableInv(s);
    TakenInOrder(s.log.removed);
    if s.overflow != DropOldest { NothingEvicted(s.log.removed); }
  }

  /** The same by position: each event the worker has taken stood later in the queue's history than the one before. */
  lemma DeliveryPositions(s: State) returns (at: seq<nat>)
    requires Reachable(s)
    ensures var taken := s.log.delivered + Hand(s.worker);
      && Rising(at) && |at| == |taken|
      && forall k :: 0 <= k < |at| ==> at[k] < |s.log.enqueued| && s.log.enqueued[at[k]] == taken[k]
  {
    hide Reachable, IsSubsequence, RemovedEvents;
    DeliveryOrder(s);
    at := SubsequencePositions(s.log.delivered + Hand(s.worker), RemovedEvents(s.log.removed));
  }

  function Discards(c: Call): nat { c.evictions + if c.fate.Refused? then 1 else 0 }

  /** One offer discards at most two events, two only under DropOldest, none under Block. */
  lemma DiscardsPerOffer(s: State, i: nat)
    requires Reachable(s) && i < |s.calls|
    ensures Discards(s.calls[i]) <= if s.overflow == DropOldest then 2 else if s.overflow == DropNewest then 1 else 0
  {
    hide RemovedEvents, TakenEvents, EvictedEvents, Total, LockInv, FateInv;
    ReachableInv(s);
    assert CallOk(s.stopped, s.overflow, s.calls[i]);
  }

  // ---------- One producer ----------

  /** Every action of the run is taken by one producer, the flushers or the worker: calls do not overlap. */
  ghost predicate OneProducer(s: State, acts: seq<Action>) {
    acts == [] ||
    var last := |acts| - 1;
    OneProducer(s, acts[..last]) &&
    (acts[last].Arrive? ==>
       var m := Execute(s, acts[..last]);
       m.Some? && forall i :: 0 <= i < |m.value.calls| ==> m.value.calls[i].pc.Returned?)
  }

  ghost predicate SoloInv(s: State) {
    && (forall i :: 0 <= i < |s.calls| - 1 ==> s.calls[i].pc.Returned?)
    && (forall i :: 0 <= i < |s.calls| ==> !s.calls[i].fate.Refused?)
    && (forall i :: 0 <= i < |s.calls| && (s.calls[i].pc.CountingEvicted? || s.calls[i].pc.Resending?)
                    ==> |s.queue| < s.capacity)
  }

  lemma {:induction false} SoloStep(s: State, a: Action)
    requires Inv(s) && SoloInv(s) && s.overflow == DropOldest && Enabled(s, a)
    requires a.Arrive? ==> forall i :: 0 <= i < |s.calls| ==> s.calls[i].pc.Returned?
    ensures SoloInv(Apply(s, a)) && Apply(s, a).overflow == DropOldest
  {
    hide RemovedEvents, TakenEvents, EvictedEvents, Total, LockInv, FateInv, CountInv, FlushOk;
    match a
    case StepCall(i) => SoloCallStep(s, i);
    case _ =>
  }

  lemma {:induction false} SoloCallStep(s: State, i: nat)
    requires CallsOk(s) && StopInv(s) && |s.queue| <= s.capacity && 1 <= s.capacity
    requires SoloInv(s) && s.overflow == DropOldest && Enabled(s, StepCall(i))
    ensures SoloInv(ApplyCall(s, i))
  {
    assert CallOk(s.stopped, s.overflow, s.calls[i]);
    assert i == |s.calls| - 1;
  }

  lemma {:induction false} SoloRun(s: State, acts: seq<Action>)
    requires Inv(s) && SoloInv(s) && s.overflow == DropOldest && OneProducer(s, acts)
    ensures var m := Execute(s, acts);
      m.Some? ==> Inv(m.value) && SoloInv(m.value) && m.value.overflow == DropOldest
  {
    hide Inv, SoloInv, Apply;
    if acts != [] {
      var last := |acts| - 1;
      SoloRun(s, acts[..last]);
      if Execute(s, acts).Some? {
        var m := Execute(s, acts[..last]).value;
        StepKeeps(m, acts[last]);
        SoloStep(m, acts[last]);
      }
    }
  }

  /** With one producer, DropOldest never discards the arriving event and evicts at most one to make room. */
  lemma OneProducerKeepsItsOwn(capacity: nat, acts: seq<Action>, i: nat)
    requires 1 <= capacity && OneProducer(Init(capacity, DropOldest), acts)
    requires var m := Execute(Init(capacity, DropOldest), acts); m.Some? && i < |m.value.calls|
    ensures var c := Execute(Init(capacity, DropOldest), acts).value.calls[i];
      !c.fate.Refused? && Discards(c) <= 1
    ensures Execute(Init(capacity, DropOldest), acts).value.log.refused == []
  {
    hide RemovedEvents, TakenEvents, EvictedEvents, Total, LockInv, FlushOk, Execute, OneProducer;
    var s := Execute(Init(capacity, DropOldest), acts).value;
    InitInv(capacity, DropOldest);
    SoloRun(Init(capacity, DropOldest), acts);
    assert CallOk(s.stopped, s.overflow, s.calls[i]);
    NoneRefused(s.calls);
    assert Ledger(s.calls, Refused, s.log.refused);
  }

  lemma {:induction false} NoneRefused(calls: seq<Call>)
    requires forall i :: 0 <= i < |calls| ==> !calls[i].fate.Refused?
    ensures WithFate(calls, Refused) == multiset{}
  {
    if calls != [] { NoneRefused(calls[..|calls| - 1]); }
  }
}
