/**
 Buffered delivery as a small-step machine.

 Every Observe call, every Flush call and the worker is a thread with a program
 counter; one action moves one thread by one atomic step. The sequences of what
 was enqueued, removed, delivered and refused are histories: no step reads them.
 */
module Buffer {
  import opened Events
  import opened Wrappers

  datatype Overflow = DropNewest | DropOldest | Block

  // ---------- Threads ----------

  /** Where one Observe call stands. */
  datatype CallPc =
    | Called           // waits for the read lock
    | Testing          // holds the read lock, about to read `stopped`
    | Sending          // about to send for the first time
    | Evicting         // about to receive the longest-waiting event
    | CountingEvicted  // received one, about to count it
    | Resending        // about to send for the second time
    | CountingRefused  // discarded its own event, about to count it
    | Inline           // about to deliver on the caller's fiber
    | Unlocking        // about to release the read lock
    | Returned

  /** What has become of a call's own event. */
  datatype Fate = Undecided | Queued | Refused | Inlined

  datatype Call = Call(event: Event, pc: CallPc, fate: Fate, evictions: nat)

  /** Where one Flush call stands. */
  datatype FlushPc =
    | Requested        // waits for another writer
    | Announced        // keeps new readers out, waits for the ones inside
    | Locked           // holds the write lock, about to read `stopped`
    | LeavingEarly     // found `stopped` set, about to unlock
    | Marking          // about to set `stopped`
    | Closing          // about to close the queue
    | Releasing        // about to unlock
    | Awaiting         // waits for the worker or for its own context
    | ReturnedEarly
    | ReturnedDrained
    | ReturnedCancelled

  datatype Worker = Receiving | Delivering(event: Event) | Finishing | Ended

  /** What left the head of the queue, and who took it. */
  datatype Removal = Taken(event: Event) | Evicted(event: Event)

  datatype Log = Log(
    enqueued: seq<Event>, removed: seq<Removal>,
    delivered: seq<Event>, inlined: seq<Event>, refused: seq<Event>)

  datatype State = State(
    capacity: nat, overflow: Overflow,
    queue: seq<Event>, closed: bool, stopped: bool, done: bool, drops: nat, panicked: bool,
    writer: Option<nat>, readers: set<nat>,
    calls: seq<Call>, flushes: seq<FlushPc>, worker: Worker, log: Log)

  datatype Error = NoObserver | NoCapacity

  function Init(capacity: nat, overflow: Overflow): State {
    State(capacity, overflow, [], false, false, false, 0, false, None, {}, [], [], Receiving, Log([], [], [], [], []))
  }

  function NewBuffer(hasObserver: bool, capacity: int, overflow: Overflow): Result<State, Error> {
    if !hasObserver then Failure(NoObserver)
    else if capacity < 1 then Failure(NoCapacity)
    else Success(Init(capacity, overflow))
  }

  // ---------- The lock ----------

  // `readers` are the calls inside the read lock. `writer` is the flush that has
  // announced itself or holds the write lock; either already keeps new readers out,
  // as a writer-preferring lock does.

  predicate HoldsRead(pc: CallPc) { !pc.Called? && !pc.Returned? }

  predicate HoldsWrite(pc: FlushPc) {
    pc.Locked? || pc.LeavingEarly? || pc.Marking? || pc.Closing? || pc.Releasing?
  }

  // ---------- Steps ----------

  datatype Action =
    | Arrive(event: Event)    // somebody calls Observe
    | ArriveFlush             // somebody calls Flush
    | StepCall(i: nat)
    | StepFlush(f: nat)
    | Cancel(f: nat)          // the context of a waiting Flush ends
    | StepWorker

  predicate Internal(a: Action) { !a.Arrive? && !a.ArriveFlush? }

  predicate Enabled(s: State, a: Action) {
    match a
    case Arrive(_) => true
    case ArriveFlush => true
    case StepCall(i) =>
      i < |s.calls| &&
      (match s.calls[i].pc
       case Called => s.writer.None?
       case Sending => s.overflow != Block || s.closed || |s.queue| < s.capacity
       case Returned => false
       case _ => true)
    case StepFlush(f) =>
      f < |s.flushes| &&
      (match s.flushes[f]
       case Requested => s.writer.None?
       case Announced => s.readers == {}
       case Awaiting => s.done
       case pc => HoldsWrite(pc))
    case Cancel(f) => f < |s.flushes| && s.flushes[f].Awaiting?
    case StepWorker =>
      (match s.worker
       case Receiving => s.queue != [] || s.closed
       case Ended => false
       case _ => true)
  }

  /** All that one step of a call can change. */
  datatype CallEffect = CallEffect(
    call: Call, queue: seq<Event>, drops: nat, panicked: bool, readers: set<nat>, log: Log)

  /** A send: the queue has room, or is closed and panics. */
  function Send(s: State, same: CallEffect): CallEffect {
    var c := same.call;
    if s.closed then same.(call := c.(pc := Unlocking), panicked := true)
    else same.(call := c.(pc := Unlocking, fate := Queued),
               queue := s.queue + [c.event], log := s.log.(enqueued := s.log.enqueued + [c.event]))
  }

  function Refuse(s: State, same: CallEffect): CallEffect {
    var c := same.call;
    same.(call := c.(pc := CountingRefused, fate := Refused),
          log := s.log.(refused := s.log.refused + [c.event]))
  }

  function Evict(s: State, same: CallEffect): CallEffect {
    var c := same.call;
    if s.queue != [] then
      same.(call := c.(pc := CountingEvicted, evictions := c.evictions + 1),
            queue := s.queue[1..], log := s.log.(removed := s.log.removed + [Evicted(s.queue[0])]))
    else if s.closed then
      same.(call := c.(pc := CountingEvicted))  // a closed empty queue yields a value nobody sent
    else same.(call := c.(pc := Resending))
  }

  function EffectOfCall(s: State, i: nat, c: Call): CallEffect {
    var same := CallEffect(c, s.queue, s.drops, s.panicked, s.readers, s.log);
    match c.pc
    case Called => same.(call := c.(pc := Testing), readers := s.readers + {i})
    case Testing => same.(call := c.(pc := if s.stopped then Inline else Sending))
    case Inline =>
      same.(call := c.(pc := Unlocking, fate := Inlined), log := s.log.(inlined := s.log.inlined + [c.event]))
    case Sending =>
      if s.closed || |s.queue| < s.capacity then Send(s, same)
      else if s.overflow == DropOldest then same.(call := c.(pc := Evicting))
      else Refuse(s, same)
    case Evicting => Evict(s, same)
    case CountingEvicted => same.(call := c.(pc := Resending), drops := s.drops + 1)
    case Resending => if s.closed || |s.queue| < s.capacity then Send(s, same) else Refuse(s, same)
    case CountingRefused => same.(call := c.(pc := Unlocking), drops := s.drops + 1)
    case Unlocking => same.(call := c.(pc := Returned), readers := s.readers - {i})
    case Returned => same
  }

  function ApplyCall(s: State, i: nat): State
    requires i < |s.calls|
  {
    var e := EffectOfCall(s, i, s.calls[i]);
    s.(calls := s.calls[i := e.call], queue := e.queue, drops := e.drops, panicked := e.panicked,
       readers := e.readers, log := e.log)
  }

  /** All that one step of a flush can change. */
  datatype FlushEffect = FlushEffect(pc: FlushPc, writer: Option<nat>, stopped: bool, closed: bool, panicked: bool)

  function EffectOfFlush(s: State, f: nat, pc: FlushPc): FlushEffect {
    var same := FlushEffect(pc, s.writer, s.stopped, s.closed, s.panicked);
    match pc
    case Requested => same.(pc := Announced, writer := Some(f))
    case Announced => same.(pc := Locked)
    case Locked => same.(pc := if s.stopped then LeavingEarly else Marking)
    case LeavingEarly => same.(pc := ReturnedEarly, writer := None)
    case Marking => same.(pc := Closing, stopped := true)
    case Closing => same.(pc := Releasing, closed := true, panicked := s.panicked || s.closed)
    case Releasing => same.(pc := Awaiting, writer := None)
    case Awaiting => same.(pc := ReturnedDrained)
    case _ => same
  }

  function ApplyFlush(s: State, f: nat): State
    requires f < |s.flushes|
  {
    var e := EffectOfFlush(s, f, s.flushes[f]);
    s.(flushes := s.flushes[f := e.pc], writer := e.writer, stopped := e.stopped, closed := e.closed,
       panicked := e.panicked)
  }

  datatype WorkerEffect = WorkerEffect(worker: Worker, queue: seq<Event>, done: bool, panicked: bool, log: Log)

  function EffectOfWorker(s: State): WorkerEffect {
    var same := WorkerEffect(s.worker, s.queue, s.done, s.panicked, s.log);
    match s.worker
    case Receiving =>
      if s.queue != [] then
        same.(worker := Delivering(s.queue[0]), queue := s.queue[1..],
              log := s.log.(removed := s.log.removed + [Taken(s.queue[0])]))
      else same.(worker := Finishing)
    case Delivering(e) => same.(worker := Receiving, log := s.log.(delivered := s.log.delivered + [e]))
    case Finishing => same.(worker := Ended, done := true, panicked := s.panicked || s.done)
    case Ended => same
  }

  function ApplyWorker(s: State): State {
    var e := EffectOfWorker(s);
    s.(worker := e.worker, queue := e.queue, done := e.done, panicked := e.panicked, log := e.log)
  }

  function Apply(s: State, a: Action): State
    requires Enabled(s, a)
  {
    match a
    case Arrive(e) => s.(calls := s.calls + [Call(e, Called, Undecided, 0)])
    case ArriveFlush => s.(flushes := s.flushes + [Requested])
    case StepCall(i) => ApplyCall(s, i)
    case StepFlush(f) => ApplyFlush(s, f)
    case Cancel(f) => s.(flushes := s.flushes[f := ReturnedCancelled])
    case StepWorker => ApplyWorker(s)
  }

  // ---------- Runs ----------

  /** The state a sequence of actions leads to, or None when one of them was not enabled. */
  function Execute(s: State, acts: seq<Action>): Option<State> {
    if acts == [] then Some(s)
    else
      var last := |acts| - 1;
      match Execute(s, acts[..last])
      case None => None
      case Some(m) => if Enabled(m, acts[last]) then Some(Apply(m, acts[last])) else None
  }

  /** Some run of a new buffer, under some interleaving, ends in this state. */
  ghost predicate Reachable(s: State) {
    1 <= s.capacity && exists acts :: Execute(Init(s.capacity, s.overflow), acts) == Some(s)
  }

  lemma ReachableStep(s: State, a: Action)
    requires Reachable(s) && Enabled(s, a)
    ensures Reachable(Apply(s, a))
  {
    var acts :| Execute(Init(s.capacity, s.overflow), acts) == Some(s);
    assert (acts + [a])[..|acts|] == acts;
    assert Execute(Init(s.capacity, s.overflow), acts + [a]) == Some(Apply(s, a));
  }
}
