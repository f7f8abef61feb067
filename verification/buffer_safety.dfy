/** What every reachable state of the buffer satisfies, under every policy and interleaving. */
module BufferSafety {
  import opened Events
  import opened Wrappers
  import opened Sequences
  import opened Buffer

  // ---------- Sums over the calls ----------

  function Total(calls: seq<Call>, weight: Call -> nat): nat {
    if calls == [] then 0 else Total(calls[..|calls| - 1], weight) + weight(calls[|calls| - 1])
  }

  lemma {:induction false} TotalUpdate(calls: seq<Call>, weight: Call -> nat, i: nat, c: Call)
    requires i < |calls|
    ensures Total(calls[i := c], weight) + weight(calls[i]) == Total(calls, weight) + weight(c)
  {
    var last := |calls| - 1;
    if i == last {
      assert calls[i := c][..last] == calls[..last];
    } else {
      assert calls[i := c][..last] == calls[..last][i := c];
      TotalUpdate(calls[..last], weight, i, c);
    }
  }

  lemma {:induction false} TotalZero(calls: seq<Call>, weight: Call -> nat)
    requires forall i :: 0 <= i < |calls| ==> weight(calls[i]) == 0
    ensures Total(calls, weight) == 0
  {
    if calls != [] { TotalZero(calls[..|calls| - 1], weight); }
  }

  /** A call's event, if the call has that fate. */
  function Mark(c: Call, fate: Fate): multiset<Event> {
    if c.fate == fate then multiset{c.event} else multiset{}
  }

  /** The events of the calls with one fate. */
  function WithFate(calls: seq<Call>, fate: Fate): multiset<Event> {
    if calls == [] then multiset{}
    else WithFate(calls[..|calls| - 1], fate) + Mark(calls[|calls| - 1], fate)
  }

  /** Every event somebody called Observe with. */
  function Offered(calls: seq<Call>): multiset<Event> {
    if calls == [] then multiset{}
    else Offered(calls[..|calls| - 1]) + multiset{calls[|calls| - 1].event}
  }

  lemma Swap(a: multiset<Event>, b: multiset<Event>, m: multiset<Event>, n: multiset<Event>, x: multiset<Event>)
    requires a + m == b + n
    ensures (a + x) + m == (b + x) + n
  {
    assert (a + x) + m == (a + m) + x;
    assert (b + x) + n == (b + n) + x;
  }

  lemma {:induction false} FateUpdate(calls: seq<Call>, fate: Fate, i: nat, c: Call)
    requires i < |calls|
    ensures WithFate(calls[i := c], fate) + Mark(calls[i], fate) == WithFate(calls, fate) + Mark(c, fate)
  {
    var last := |calls| - 1;
    if i == last {
      assert calls[i := c][..last] == calls[..last];
    } else {
      assert calls[i := c][..last] == calls[..last][i := c];
      FateUpdate(calls[..last], fate, i, c);
      Swap(WithFate(calls[..last][i := c], fate), WithFate(calls[..last], fate),
           Mark(calls[i], fate), Mark(c, fate), Mark(calls[last], fate));
    }
  }

  lemma FateIsOne(c: Call)
    ensures multiset{c.event} == Mark(c, Undecided) + Mark(c, Queued) + Mark(c, Refused) + Mark(c, Inlined)
  {
  }

  lemma {:induction false} FatesPartition(calls: seq<Call>)
    ensures Offered(calls) == WithFate(calls, Undecided) + WithFate(calls, Queued)
                              + WithFate(calls, Refused) + WithFate(calls, Inlined)
  {
    if calls != [] {
      FatesPartition(calls[..|calls| - 1]);
      FateIsOne(calls[|calls| - 1]);
    }
  }

  // ---------- Reading the histories ----------

  function RemovedEvents(removed: seq<Removal>): seq<Event> {
    if removed == [] then [] else RemovedEvents(removed[..|removed| - 1]) + [removed[|removed| - 1].event]
  }

  function TakenEvents(removed: seq<Removal>): seq<Event> {
    if removed == [] then []
    else
      var r := removed[|removed| - 1];
      TakenEvents(removed[..|removed| - 1]) + if r.Taken? then [r.event] else []
  }

  function EvictedEvents(removed: seq<Removal>): seq<Event> {
    if removed == [] then []
    else
      var r := removed[|removed| - 1];
      EvictedEvents(removed[..|removed| - 1]) + if r.Evicted? then [r.event] else []
  }

  function Hand(w: Worker): seq<Event> { if w.Delivering? then [w.event] else [] }

  lemma {:induction false} RemovedSnoc(removed: seq<Removal>, r: Removal)
    ensures RemovedEvents(removed + [r]) == RemovedEvents(removed) + [r.event]
    ensures TakenEvents(removed + [r]) == TakenEvents(removed) + if r.Taken? then [r.event] else []
    ensures EvictedEvents(removed + [r]) == EvictedEvents(removed) + if r.Evicted? then [r.event] else []
  {
    assert (removed + [r])[..|removed|] == removed;
  }

  lemma {:induction false} RemovedSplit(removed: seq<Removal>)
    ensures multiset(RemovedEvents(removed)) == multiset(TakenEvents(removed)) + multiset(EvictedEvents(removed))
    ensures |RemovedEvents(removed)| == |TakenEvents(removed)| + |EvictedEvents(removed)|
  {
    if removed != [] { RemovedSplit(removed[..|removed| - 1]); }
  }

  lemma {:induction false} TakenInOrder(removed: seq<Removal>)
    ensures IsSubsequence(TakenEvents(removed), RemovedEvents(removed))
  {
    if removed != [] {
      var last := |removed| - 1;
      TakenInOrder(removed[..last]);
      SubsequenceSnoc(TakenEvents(removed[..last]), RemovedEvents(removed[..last]), removed[last].event);
      assert TakenEvents(removed) == TakenEvents(removed[..last])
          || TakenEvents(removed) == TakenEvents(removed[..last]) + [removed[last].event];
    }
  }

  lemma {:induction false} NothingEvicted(removed: seq<Removal>)
    requires EvictedEvents(removed) == []
    ensures TakenEvents(removed) == RemovedEvents(removed)
  {
    if removed != [] { NothingEvicted(removed[..|removed| - 1]); }
  }

  // ---------- The invariant ----------

  /** Between the test of `stopped` and the call's last use of the queue. */
  predicate Offering(pc: CallPc) {
    pc.Sending? || pc.Evicting? || pc.CountingEvicted? || pc.Resending? || pc.CountingRefused?
  }

  predicate Deciding(pc: CallPc) {
    pc.Called? || pc.Testing? || pc.Inline? || pc.Sending? || pc.Evicting? || pc.CountingEvicted? || pc.Resending?
  }

  /** The two program points between a discard and its count. */
  function Owed(c: Call): nat { if c.pc.CountingEvicted? || c.pc.CountingRefused? then 1 else 0 }

  function Evictions(c: Call): nat { c.evictions }

  predicate CallOk(stopped: bool, overflow: Overflow, c: Call) {
    && (c.fate.Undecided? <==> Deciding(c.pc))
    && (c.pc.CountingRefused? ==> c.fate.Refused?)
    && (Offering(c.pc) ==> !stopped)
    && (c.pc.Inline? || c.fate.Inlined? ==> stopped)
    && c.evictions <= 1
    && (c.pc.Called? || c.pc.Testing? || c.pc.Inline? || c.pc.Sending? || c.pc.Evicting? || c.fate.Inlined?
        ==> c.evictions == 0)
    && (c.evictions == 1 || c.pc.Evicting? || c.pc.CountingEvicted? || c.pc.Resending? ==> overflow == DropOldest)
    && (c.pc.CountingRefused? || c.fate.Refused? ==> overflow != Block)
  }

  predicate FlushOk(stopped: bool, closed: bool, done: bool, pc: FlushPc) {
    && (pc.Marking? ==> !stopped)
    && (pc.Closing? ==> stopped && !closed)
    && (pc.Releasing? || pc.Awaiting? || pc.ReturnedCancelled? ==> closed)
    && (pc.ReturnedDrained? ==> done)
    && (pc.LeavingEarly? || pc.ReturnedEarly? ==> stopped)
  }

  ghost predicate CallsOk(s: State) {
    forall i :: 0 <= i < |s.calls| ==> CallOk(s.stopped, s.overflow, s.calls[i])
  }

  ghost predicate FlushesOk(s: State) {
    forall f :: 0 <= f < |s.flushes| ==> FlushOk(s.stopped, s.closed, s.done, s.flushes[f])
  }

  /** Readers and writer are who the program counters say, and exclude each other. */
  ghost predicate LockInv(s: State) {
    && (forall i :: 0 <= i < |s.calls| ==> (HoldsRead(s.calls[i].pc) <==> i in s.readers))
    && (forall i :: i in s.readers ==> 0 <= i < |s.calls|)
    && (forall f :: 0 <= f < |s.flushes| ==>
          (s.flushes[f].Announced? || HoldsWrite(s.flushes[f]) <==> s.writer == Some(f)))
    && (s.writer.Some? ==> s.writer.value < |s.flushes|)
    && (s.writer.Some? && HoldsWrite(s.flushes[s.writer.value]) ==> s.readers == {})
  }

  ghost predicate StopInv(s: State) {
    && (s.closed ==> s.stopped)
    && (s.stopped && !s.closed ==>
          s.writer.Some? && s.writer.value < |s.flushes| && s.flushes[s.writer.value].Closing?)
  }

  ghost predicate QueueInv(s: State) {
    && 1 <= s.capacity
    && |s.queue| <= s.capacity
    && s.log.enqueued == RemovedEvents(s.log.removed) + s.queue
    && TakenEvents(s.log.removed) == s.log.delivered + Hand(s.worker)
    && (s.worker.Finishing? || s.worker.Ended? ==> s.closed && s.queue == [])
    && (s.done <==> s.worker.Ended?)
    && !s.panicked
  }

  ghost predicate Ledger(calls: seq<Call>, fate: Fate, events: seq<Event>) {
    WithFate(calls, fate) == multiset(events)
  }

  ghost predicate FateInv(calls: seq<Call>, log: Log) {
    && Ledger(calls, Queued, log.enqueued)
    && Ledger(calls, Refused, log.refused)
    && Ledger(calls, Inlined, log.inlined)
  }

  ghost predicate CountInv(overflow: Overflow, calls: seq<Call>, drops: nat, log: Log) {
    && drops + Total(calls, Owed) == |EvictedEvents(log.removed)| + |log.refused|
    && Total(calls, Evictions) == |EvictedEvents(log.removed)|
    && (overflow != DropOldest ==> EvictedEvents(log.removed) == [])
    && (overflow == Block ==> log.refused == [])
  }

  ghost predicate Inv(s: State) {
    && CallsOk(s) && FlushesOk(s) && LockInv(s) && StopInv(s) && QueueInv(s)
    && FateInv(s.calls, s.log) && CountInv(s.overflow, s.calls, s.drops, s.log)
  }

  // ---------- A step of a call ----------

  lemma {:induction false} CallKeepsCalls(s: State, i: nat)
    requires CallsOk(s) && Enabled(s, StepCall(i)) && (s.closed ==> s.stopped)
    ensures CallsOk(ApplyCall(s, i))
  {
    assert CallOk(s.stopped, s.overflow, s.calls[i]);
  }

  lemma CallKeepsLock(s: State, i: nat)
    requires LockInv(s) && Enabled(s, StepCall(i))
    ensures LockInv(ApplyCall(s, i))
  {
  }

  lemma {:induction false} EvictionKeepsQueue(s: State, i: nat)
    requires QueueInv(s) && i < |s.calls| && s.calls[i].pc.Evicting? && s.queue != []
    ensures QueueInv(ApplyCall(s, i))
  {
    hide RemovedEvents, TakenEvents;
    RemovedSnoc(s.log.removed, Evicted(s.queue[0]));
    assert s.queue == [s.queue[0]] + s.queue[1..];
  }

  lemma {:induction false} SendKeepsQueue(s: State, i: nat)
    requires QueueInv(s) && i < |s.calls| && (s.calls[i].pc.Sending? || s.calls[i].pc.Resending?)
    requires !s.closed && |s.queue| < s.capacity
    ensures QueueInv(ApplyCall(s, i))
  {
    hide RemovedEvents, TakenEvents;
  }

  lemma {:induction false} CallKeepsQueue(s: State, i: nat)
    requires CallsOk(s) && StopInv(s) && QueueInv(s) && Enabled(s, StepCall(i))
    ensures QueueInv(ApplyCall(s, i))
  {
    hide RemovedEvents, TakenEvents;
    var c := s.calls[i];
    assert CallOk(s.stopped, s.overflow, c);
    if c.pc.Evicting? && s.queue != [] {
      hide QueueInv;
      EvictionKeepsQueue(s, i);
    } else if (c.pc.Sending? || c.pc.Resending?) && |s.queue| < s.capacity {
      hide QueueInv;
      SendKeepsQueue(s, i);
    } else {
      assert ApplyCall(s, i).queue == s.queue && ApplyCall(s, i).panicked == s.panicked;
    }
  }

  /** A call that reaches a fate moves its event into that fate's history; nothing else moves. */
  lemma LedgerStep(calls: seq<Call>, fate: Fate, events: seq<Event>, i: nat, c: Call)
    requires i < |calls| && c.event == calls[i].event && Ledger(calls, fate, events)
    requires calls[i].fate == fate ==> c.fate == fate
    ensures Ledger(calls[i := c], fate, if c.fate == calls[i].fate || c.fate != fate then events else events + [c.event])
  {
    hide WithFate;
    FateUpdate(calls, fate, i, c);
    if c.fate == calls[i].fate || c.fate != fate {
      assert Mark(calls[i], fate) == Mark(c, fate);
      assert WithFate(calls[i := c], fate) + Mark(c, fate) - Mark(c, fate) == WithFate(calls[i := c], fate);
    } else {
      assert WithFate(calls[i := c], fate) + multiset{} == WithFate(calls[i := c], fate);
    }
  }

  lemma CallKeepsFates(s: State, i: nat)
    requires CallsOk(s) && StopInv(s) && FateInv(s.calls, s.log) && Enabled(s, StepCall(i))
    ensures var t := ApplyCall(s, i); FateInv(t.calls, t.log)
  {
    hide Ledger;
    var c, e := s.calls[i], EffectOfCall(s, i, s.calls[i]);
    assert CallOk(s.stopped, s.overflow, c);
    LedgerStep(s.calls, Queued, s.log.enqueued, i, e.call);
    LedgerStep(s.calls, Refused, s.log.refused, i, e.call);
    LedgerStep(s.calls, Inlined, s.log.inlined, i, e.call);
  }

  /** A call counts each discard once, after making it. */
  lemma CallKeepsCounts(s: State, i: nat)
    requires CallsOk(s) && StopInv(s) && CountInv(s.overflow, s.calls, s.drops, s.log) && Enabled(s, StepCall(i))
    ensures var t := ApplyCall(s, i); CountInv(t.overflow, t.calls, t.drops, t.log)
  {
    hide EvictedEvents, Total;
    var c, e := s.calls[i], EffectOfCall(s, i, s.calls[i]);
    TotalUpdate(s.calls, Owed, i, e.call);
    TotalUpdate(s.calls, Evictions, i, e.call);
    CallCounts(s, i);
    if c.pc.Evicting? && s.queue != [] { RemovedSnoc(s.log.removed, Evicted(s.queue[0])); }
  }

  lemma {:induction false} CallCounts(s: State, i: nat)
    requires CallsOk(s) && StopInv(s) && Enabled(s, StepCall(i))
    ensures var c, e := s.calls[i], EffectOfCall(s, i, s.calls[i]);
      && e.drops + Owed(e.call) + |s.log.refused| + s.calls[i].evictions
         == s.drops + Owed(c) + |e.log.refused| + e.call.evictions
      && (if c.pc.Evicting? && s.queue != []
          then s.overflow == DropOldest && e.log.removed == s.log.removed + [Evicted(s.queue[0])]
               && e.call.evictions == c.evictions + 1
          else e.log.removed == s.log.removed && e.call.evictions == c.evictions)
      && (s.overflow == Block ==> e.log.refused == s.log.refused)
  {
    assert CallOk(s.stopped, s.overflow, s.calls[i]);
  }

  // ---------- A step of a flush ----------

  lemma {:induction false} FlushKeepsCalls(s: State, f: nat)
    requires CallsOk(s) && LockInv(s) && Enabled(s, StepFlush(f))
    ensures CallsOk(ApplyFlush(s, f))
  {
    var t := ApplyFlush(s, f);
    forall i | 0 <= i < |t.calls| ensures CallOk(t.stopped, t.overflow, t.calls[i]) {
      assert CallOk(s.stopped, s.overflow, s.calls[i]);
    }
  }

  lemma FlushKeepsLock(s: State, f: nat)
    requires LockInv(s) && Enabled(s, StepFlush(f))
    ensures LockInv(ApplyFlush(s, f))
  {
  }

  lemma {:induction false} FlushKeepsFlushes(s: State, f: nat)
    requires LockInv(s) && FlushesOk(s) && StopInv(s) && Enabled(s, StepFlush(f))
    ensures FlushesOk(ApplyFlush(s, f)) && StopInv(ApplyFlush(s, f)) && ApplyFlush(s, f).panicked == s.panicked
  {
    var t := ApplyFlush(s, f);
    assert FlushOk(s.stopped, s.closed, s.done, s.flushes[f]);
    forall g | 0 <= g < |t.flushes| ensures FlushOk(t.stopped, t.closed, t.done, t.flushes[g]) {
      assert FlushOk(s.stopped, s.closed, s.done, s.flushes[g]);
    }
  }

  lemma {:induction false} CancelKeeps(s: State, f: nat)
    requires CallsOk(s) && LockInv(s) && FlushesOk(s) && StopInv(s) && Enabled(s, Cancel(f))
    ensures var t := Apply(s, Cancel(f)); CallsOk(t) && LockInv(t) && FlushesOk(t) && StopInv(t)
  {
    assert FlushOk(s.stopped, s.closed, s.done, s.flushes[f]);
  }

  // ---------- A step of the worker, and arrivals ----------

  lemma {:induction false} WorkerKeepsQueue(s: State)
    requires QueueInv(s) && Enabled(s, StepWorker)
    ensures QueueInv(ApplyWorker(s))
  {
    hide RemovedEvents, TakenEvents, EvictedEvents;
    if s.worker.Receiving? && s.queue != [] {
      RemovedSnoc(s.log.removed, Taken(s.queue[0]));
      assert s.queue == [s.queue[0]] + s.queue[1..];
    }
  }

  lemma {:induction false} WorkerKeepsCounts(s: State)
    requires CountInv(s.overflow, s.calls, s.drops, s.log) && Enabled(s, StepWorker)
    ensures var t := ApplyWorker(s); CountInv(t.overflow, t.calls, t.drops, t.log)
  {
    hide RemovedEvents, TakenEvents, EvictedEvents;
    if s.worker.Receiving? && s.queue != [] { RemovedSnoc(s.log.removed, Taken(s.queue[0])); }
  }

  lemma ArrivalKeepsCalls(s: State, e: Event)
    requires CallsOk(s) && LockInv(s)
    ensures var t := Apply(s, Arrive(e)); CallsOk(t) && LockInv(t)
  {
  }

  lemma {:induction false} ArrivalKeepsLedger(s: State, e: Event)
    requires FateInv(s.calls, s.log) && CountInv(s.overflow, s.calls, s.drops, s.log)
    ensures var t := Apply(s, Arrive(e)); FateInv(t.calls, t.log) && CountInv(t.overflow, t.calls, t.drops, t.log)
  {
    hide EvictedEvents, Ledger, Total;
    var c := Call(e, Called, Undecided, 0);
    TotalArrival(s.calls, c);
    LedgerArrival(s.calls, c, Queued, s.log.enqueued);
    LedgerArrival(s.calls, c, Refused, s.log.refused);
    LedgerArrival(s.calls, c, Inlined, s.log.inlined);
  }

  lemma {:induction false} TotalArrival(calls: seq<Call>, c: Call)
    ensures Total(calls + [c], Owed) == Total(calls, Owed) + Owed(c)
    ensures Total(calls + [c], Evictions) == Total(calls, Evictions) + Evictions(c)
  {
    assert (calls + [c])[..|calls|] == calls;
  }

  lemma {:induction false} LedgerArrival(calls: seq<Call>, c: Call, fate: Fate, events: seq<Event>)
    requires Ledger(calls, fate, events) && c.fate != fate
    ensures Ledger(calls + [c], fate, events)
  {
    assert (calls + [c])[..|calls|] == calls;
  }

  /** A call touches neither the flags nor the flushes. */
  lemma {:induction false} CallKeepsRest(s: State, i: nat)
    requires FlushesOk(s) && StopInv(s) && Enabled(s, StepCall(i))
    ensures FlushesOk(ApplyCall(s, i)) && StopInv(ApplyCall(s, i))
  {
    hide FlushOk;
  }

  lemma CallKeeps(s: State, i: nat)
    requires Inv(s) && Enabled(s, StepCall(i))
    ensures Inv(ApplyCall(s, i))
  {
    CallKeepsRest(s, i);
    hide CallsOk, FlushesOk, LockInv, QueueInv, FateInv, CountInv, ApplyCall, Enabled;
    CallKeepsCalls(s, i);
    CallKeepsLock(s, i);
    CallKeepsQueue(s, i);
    CallKeepsFates(s, i);
    CallKeepsCounts(s, i);
  }

  lemma StepKeeps(s: State, a: Action)
    requires Inv(s) && Enabled(s, a)
    ensures Inv(Apply(s, a))
  {
    hide Ledger, CountInv, CallOk, RemovedEvents, TakenEvents;
    match a
    case StepCall(i) => CallKeeps(s, i);
    case StepFlush(f) => FlushKeepsCalls(s, f); FlushKeepsLock(s, f); FlushKeepsFlushes(s, f);
    case Cancel(f) => CancelKeeps(s, f);
    case StepWorker => WorkerKeepsQueue(s); WorkerKeepsCounts(s);
    case Arrive(e) => ArrivalKeepsCalls(s, e); ArrivalKeepsLedger(s, e);
    case ArriveFlush =>
  }

  lemma {:induction false} ExecuteKeeps(s: State, acts: seq<Action>)
    requires Inv(s)
    ensures Execute(s, acts).Some? ==> Inv(Execute(s, acts).value)
  {
    if acts != [] {
      var last := |acts| - 1;
      ExecuteKeeps(s, acts[..last]);
      if Execute(s, acts).Some? { StepKeeps(Execute(s, acts[..last]).value, acts[last]); }
    }
  }

  lemma InitInv(capacity: nat, overflow: Overflow)
    requires 1 <= capacity
    ensures Inv(Init(capacity, overflow))
  {
  }

  lemma ReachableInv(s: State)
    requires Reachable(s)
    ensures Inv(s)
  {
    var acts :| Execute(Init(s.capacity, s.overflow), acts) == Some(s);
    InitInv(s.capacity, s.overflow);
    ExecuteKeeps(Init(s.capacity, s.overflow), acts);
  }
}
