# A verified model of effect-golang-observe

The repository watches a running effect runtime: it delivers the runtime's events
somewhere useful (`observe`), reads them as trees (`trace`), aggregates them into
bounded measurements (`metrics`), and accounts what the process spent while named
work ran (`process`). This project models the parts of it that hold state or
recurse, and proves what they promise for every input, every history and, for the
buffer, every interleaving.

## How it is laid out

| part | files | what is modelled |
|---|---|---|
| foundations | `wrappers`, `events`, `sequences`, `sorting`, `rankings`, `map_sums`, `rings`, `order_statistics` | events; the library sorts as functions with what makes their results unique; nearest-rank values |
| delivery | `buffer`, `buffer_safety`, `buffer_guarantees`, `buffer_progress`, `buffer_offers`, `buffer_order`, `buffer_late`, `buffer_pressure`, `recent` | the buffered queue as a transition system of Observe calls, Flush calls and the worker; the window of recent events |
| forest | `forest` | which identities hang under which, for any parent relation, cyclic ones included |
| traces | `span`, `assemble`, `assemble_properties`, `assemble_conservation`, `trace_readings`, `windows`, `render`, `walk_shape`, `self_time` | folding events into a trace, and reading it |
| live views | `live_spans`, `live_span_properties`, `live_fibers` | the observers that keep what is open and what is running |
| metrics | `distribution`, `tightness`, `collector`, `collector_properties` | histograms, quantiles, the collector |
| process | `runs`, `spread_of_runs`, `sizes`, `size_accounts`, `bands`, `band_accounts`, `costs`, `cost_properties` | rings of runs, allocation sizes, bands, accounts |

Three conventions run through it.

- Objects the source updates in place are classes whose methods are proved against a
  fold of a ghost `history`; the lemmas are then about the fold. Loops over Go maps
  pick keys in any order, so every result is proved independent of iteration order.
- The buffer is concurrent code, so it is a transition system: `Buffer.Apply` moves
  one thread by one atomic step, `Execute` runs any schedule, and a state is
  `Reachable` if some schedule of a new buffer ends in it. Sending on a closed channel,
  closing one twice, and receiving a value nobody sent are steps of the model, so
  that their absence is a theorem. The write lock prefers writers.
- Instants and durations are integers, the zero instant being the one that
  `time.Time.IsZero` recognises; counters and sums are unbounded naturals; shares
  are reals. The edges of allocation-size classes are whole bytes, or unbounded.

## Where the code and its documentation disagree

The model follows the code.

- trace/spans.go:64-66 says an end whose start was never seen is counted; the code
  returns before counting it (`LiveSpanProperties.UnknownEndIgnored`, `LoneEndUncounted`). By
  `EndsCountedIff` every end is counted only if each closed a span open at that point.
- trace/spans.go:102-104 calls the gap between starts and ends the report Open makes; it is
  that and one more for each restart of an open span (`LiveSpanProperties.StartsAndEnds`).
- docs/reference/trace.md:139-141 says the first span Open lists has been running longest. Open
  lists by arrival: `LiveSpanProperties.FirstListedIsOldestIff` says when that one is the oldest,
  and `FirstListedCanBeYounger` gives two starts for which it is not.
- trace/span.go:28-29 and 68-69 say an open span has no duration and is not unsuccessful. An end that
  carries no time leaves its span open, with that end's duration and status
  (`LiveSpanProperties.OpenSpanMeasuredIff`, `TimelessEndMeasures`).
- observe/buffer.go:50-55 says an event is delivered inline once the queue has been
  drained; the code does so as soon as `stopped` is set, and a second Flush likewise
  returns while the first still waits. `BufferLate` shows that both can happen with the
  queue still holding events, so no order of delivery spans a Flush.
- observe/buffer.go:153-155 says the worker can refill the queue between an eviction and
  the second send; only another producer can. A second send is refused only if another
  call's event was enqueued since the receive before it (`BufferPressure.RefusalNeedsAnother`), which
  does happen (`TwoDiscardsReachable`); with one producer the second send always succeeds
  (`BufferGuarantees.OneProducerKeepsItsOwn`).
- metrics/label.go:31 and metrics/collector.go:16 bound the labels by
  (names + 1) x kinds x statuses; `Other` and `Anonymous` are two series, so the bound is
  names + 2, and it is reached (`CollectorProperties.LabelsBoundReached`). `DocumentedBoundExceeded`
  gives two events past the documented one. By `DocumentedBoundIff` that one holds of
  every history unless events may name no operation, each declared one and an undeclared one.
- metrics/distribution.go:20 says the last bucket holds every measurement, and lines
  51-52 and 104-105 that the largest bound, or Max, is true of every one. A measurement
  past the last boundary is in no bucket (`Distributions.LastBucketHoldsAllIff`, `LastBucketCanMiss`),
  and a rank that falls there is answered with the last boundary, below the measurement.
  `QuantileIsUpperBoundIff` and `QuantileOutsideShares` say exactly when the answer is an
  upper bound; `QuantileCanFallShort` and `OutsideSharesCanFallShort` give inputs for which it is not.
- metrics/distribution.go:41 calls a quantile the tightest bound the distribution can put. It is the tightest the
  buckets and Max can put (`Tightness.QuantileIsTight`); Sum and Min, which the distribution also keeps, can rule
  it out (`NotAlwaysTight`), and `TightIff` says exactly when they do.
- docs/reference/metrics.md says the default boundaries end at ten seconds; the code's end at a minute.
- process/spread_of_runs.go:62-63 describes the nearest rank, ceil(share x n); the code adds
  0.9999999 and truncates, which differs when share x n lies less than a ten-millionth above a
  whole number. `SpreadOfRuns.IndexIsNearestRankIff` gives the exact condition.

## Model

| member | source | states |
|---|---|---|
| BufferGuarantees.NewBufferStarts | observe/buffer.go:84-99 | A buffer is refused exactly without an observer or with a capacity below one; otherwise it starts a run with the capacity and policy asked for. |
| BufferSafety.StepKeeps | observe/buffer.go:103-175 | Every step of every thread, under every policy, keeps the whole invariant: lock discipline, program counters, queue and ledgers. |
| BufferSafety.ReachableInv | observe/buffer.go:84-175 | So every state any schedule of any calls can reach satisfies it. |
| BufferGuarantees.Conservation | observe/buffer.go:103-175 | In every reachable state the events offered are, as a multiset, those still undecided, queued, in the worker's hand, delivered by it, delivered inline, evicted or refused; Drops is evictions plus refusals, less those between the discard and its count. |
| BufferGuarantees.NeverPanics | observe/buffer.go:103-175 | No schedule sends on a closed queue or closes a channel twice, and the queue never exceeds its capacity. |
| BufferGuarantees.LockExcludes | observe/buffer.go:63-68 | While a Flush holds the write lock no Observe call is inside and no other Flush holds it. |
| BufferGuarantees.FlushDrains | observe/buffer.go:124-140 | When a Flush returns through done, the worker has ended, the queue is empty and closed, no offer is in flight, every queued event was delivered or evicted, every discard is counted, and under Block everything was delivered in order with no drops. |
| BufferGuarantees.EarlyReturnFollows | observe/buffer.go:124-129 | A Flush returns early only behind another Flush, the one that stopped the buffer. |
| BufferGuarantees.OnlyFlushDrains | observe/buffer.go:124-140 | So when Flush is called once and returns without an error, the worker has ended and the queue is drained and closed. |
| BufferGuarantees.DeliveryOrder | observe/buffer.go:142-175 | What the worker took is a subsequence of the enqueue order, the queue is its suffix, and unless the policy is DropOldest taken plus queued is the whole of it. |
| BufferGuarantees.DeliveryPositions | observe/buffer.go:170-175 | By position: each event the worker takes stood later in the enqueue history than the one before. |
| BufferOrder.EarlierOffersFirst | observe/buffer.go:142-168 | The enqueue history only grows at its end: the events queued so far come first, and all that are queued later come after them. |
| BufferOrder.OneProducerInOrder | observe/buffer.go:142-168 | One producer's events are enqueued in the order it offered them, under every policy; before the stop DropOldest and Block enqueue all of them. |
| BufferGuarantees.DiscardsPerOffer | observe/buffer.go:142-168 | One offer discards at most two events under DropOldest, one under DropNewest, none under Block. |
| BufferOffers.NothingLostWithinCapacity | observe/buffer.go:142-168 | However the threads are scheduled, as many offers as the queue has slots lose nothing: no drop, no refusal, no eviction. |
| BufferOffers.OfferTakesRoom | observe/buffer.go:142-152 | An offer's event goes on the queue if and only if there is room; full, DropOldest turns to the longest-waiting event and DropNewest gives its own up. |
| BufferOffers.EvictionTakesOldest | observe/buffer.go:156-160 | Making room takes the event that has waited longest, and nothing from a queue already drained. |
| BufferOffers.SecondSendTakesRoom | observe/buffer.go:161-167 | The second send goes on the queue if and only if there is room, and otherwise gives its own event up. |
| BufferOffers.CallWaitsIff | observe/buffer.go:103-151 | A call waits only to enter while a Flush waits or is inside, and, under Block alone, for room in a full queue. |
| BufferOffers.FlushWaitsIff | observe/buffer.go:124-139 | A Flush waits for other flushes, then for the calls inside, and at last for the worker, and for nothing else. |
| BufferOffers.WorkerWaitsIff | observe/buffer.go:170-175 | The worker waits only for an event on an open queue. |
| BufferOffers.CancelledReturns | observe/buffer.go:134-139 | A Flush whose context ends can return exactly while it awaits the drain, and leaves everything else as it was. |
| BufferGuarantees.OneProducerKeepsItsOwn | observe/buffer.go:152-167 | On every run with one producer, DropOldest discards at most one event per offer and never the arriving one. |
| BufferPressure.TwoDiscardsReachable | observe/buffer.go:152-168 | Two discards by one offer do occur: another call sends between its eviction and its second send, and the oldest event and its own are both gone. |
| BufferPressure.RefusalNeedsAnother | observe/buffer.go:152-168 | On every run, a second send is refused only if another call's event was enqueued since the receive before it, whether that evicted an event or found the queue drained; the worker never takes the room. |
| BufferProgress.NoDeadlock | observe/buffer.go:63-68 | Every reachable state that is not finished has a step some thread can take, even with a producer parked on a full queue under the lock Flush waits for. |
| BufferProgress.FinalIsStill | observe/buffer.go:123-175 | A finished state moves only on a new call. |
| BufferProgress.StepShrinks | observe/buffer.go:103-175 | Every internal step strictly decreases a measure of the calls made so far. |
| BufferProgress.RunsAreFinite | observe/buffer.go:103-175 | However the threads are scheduled, the calls made so far finish within that many steps. |
| BufferProgress.MaximalRunsFinish | observe/buffer.go:44-48 | A run that can go no further is finished, and if a Flush was called the worker ended and the queue was drained. |
| BufferLate.LateEventTurnsInline | observe/buffer.go:103-111 | With no writer about, a new call takes the inline path exactly when the buffer has stopped, whatever the queue holds. |
| BufferLate.LateEventOvertakes | observe/buffer.go:50-55 | A late event can be delivered before everything still queued; nothing else changes. |
| BufferLate.SecondFlushReturnsAtOnce | observe/buffer.go:124-129 | A Flush of a stopped buffer returns without waiting for the drain. |
| BufferLate.DrainingReachable | observe/buffer.go:130-139 | A state in which both can happen with an event still queued is reachable, for every capacity and policy. |
| RecentEvents.Recent.NewRecent | observe/recent.go:32-37 | A window is refused exactly when its capacity is below one, and starts empty otherwise. |
| RecentEvents.Recent.Observe | observe/recent.go:40-50 | Observing appends to the history the window is of. |
| RecentEvents.Recent.LatestEvents | observe/recent.go:56-65 | The events are the last min(n, capacity) of the history, oldest first. |
| RecentEvents.Recent.Count | observe/recent.go:68-72 | Count is every event that arrived, forgotten ones included. |
| Rings.HoldsNext | observe/recent.go:40-50 | Writing the next slot round the ring keeps it the end of the history, as its wrapping flag says. |
| Forest.ReachesIffAcyclic | trace/assemble.go:97-123 | For any parent relation, a chain reaches a root if and only if it does not come back to an identity it has passed. |
| Forest.EarlierParentsReach | trace/assemble.go:97-123 | Identities handed out after their parents' always reach a root. |
| Forest.DepthBound | trace/assemble.go:126-131 | A chain to a root is shorter than the number of identities, which bounds the recursion. |
| Forest.ArrangeUnique | trace/assemble.go:144-149 | Siblings ordered by start and identity have one order. |
| Forest.ForestHoldsReachable | trace/assemble.go:97-142 | The forest read from the roots holds exactly the identities whose chain reaches a root, each once. |
| Forest.ForestHoldsAll | trace/assemble.go:97-142 | It holds every identity exactly when no parent chain runs into a cycle. |
| Sorting.SortStable | trace/assemble.go:132-140 | Sorting keeps elements with equal keys in the order they came. |
| Sorting.SortForgetsOrder | trace/assemble.go:132-140 | Without ties the sorted result does not depend on the order given. |
| TraceSpan.MergeAttributes | trace/assemble.go:154-165 | The end's attributes are appended to the start's, skipping those the start carries with the same value. |
| TraceSpan.MergedHolds | trace/assemble.go:151-165 | The start's attributes stay in front, the union holds exactly both, and repeats alone add nothing. |
| TraceSpan.MergedAdds | trace/assemble.go:154-165 | By position: what follows the start's attributes is the end's that the start does not carry, each as often and in the order the end has them. |
| TraceSpan.EndSpan | trace/assemble.go:84-89 | An end sets end time, duration and status and merges the attributes. |
| TraceAssemble.Assemble | trace/assemble.go:36-66 | The two passes compute the trace of the events: last starts, ends folded in order, own events, loose events, nested from the roots. |
| TraceReadings.LooseInOrder | trace/assemble.go:44-62 | Loose is, by position, exactly the events that are no start and whose span no start names, in input order. |
| TraceReadings.InsideInTime | trace/assemble.go:54-62 | The events inside a span stand by time, those of one instant in input order, and are all of its own and no others. |
| TraceReadings.ChildrenNamed | trace/assemble.go:126-149 | A span's children are the started spans whose start names it, by start time and then identity. |
| TraceReadings.RootsNamed | trace/assemble.go:97-123 | The roots are the started spans whose start names no other started span, by start time and then identity. |
| TraceReadings.LastStartIs | trace/assemble.go:37-42 | The start a span reads as is one no later start of its identity follows. |
| TraceReadings.AttributesAdded | trace/assemble.go:84-89 | A span carries its start's attributes and, in turn, what each of its ends adds. |
| TraceAssemble.Hang | trace/assemble.go:97-113 | Whatever order the map is visited in, the roots are those with no other parent present and each span holds its children's identities once. |
| TraceAssemble.Nest | trace/assemble.go:97-123 | Hanging, reading and sorting give the one nesting of the records. |
| TraceAssemble.Subtree | trace/assemble.go:126-142 | From any span that reaches a root the recursion ends, with its descendants nested and its events in time order. |
| TraceAssemble.BuiltSorts | trace/assemble.go:130-133 | Subtrees built in any order sort into the one order of their siblings. |
| TraceProperties.HoldsEachOnce | trace/assemble.go:97-142 | The trace holds each started span at most once: exactly those whose parents do not run into a cycle. |
| TraceProperties.SpanHolds | trace/assemble.go:44-66 | Every span of a trace is its last start closed by its ends in order, its events the stable time sort of its own, its children exactly the spans naming it, strictly ascending by start and identity. |
| TraceProperties.SpanReads | trace/assemble.go:69-89 | Each field of a span is the field of its last start or last end it should be; without an end it is open with no duration or status. |
| TraceProperties.RootsInOrder | trace/assemble.go:104-122 | Roots ascend strictly and are the started spans whose parent is missing or themselves. |
| TraceConservation.TraceEvents | trace/assemble.go:54-62 | The events inside the spans of the trace are exactly the non-boundary events of the spans it holds. |
| TraceConservation.AssembleConserves | trace/assemble.go:36-66 | Every event goes to exactly one place: a start, an absorbed end, one span, Loose, or a span no root leads to. |
| TraceConservation.AcyclicLosesNothing | trace/assemble.go:36-66 | With acyclic parents every started span is in the trace and no event is lost. |
| TraceConservation.HoldsAllIffAcyclic | trace/assemble.go:97-142 | The trace holds every started span if and only if no parent chain runs into a cycle. |
| TraceConservation.ParentCycleIsLost | trace/assemble.go:97-142 | Two spans that name each other as parents are started and in no root. |
| TraceConservation.EarlierParentsLoseNothing | trace/assemble.go:36-66 | In particular when no span names a later parent. |
| TraceConservation.AssembleIgnoresOrder | trace/assemble.go:25-36 | With one start, one end at most, and distinct times inside each started span, any permutation of the events gives the same roots and the same multiset of loose events. |
| TraceWindows.WindowKeepsEdges | trace/assemble.go:91-113 | A parent edge survives in a window exactly when both spans started inside it, restarted spans included. |
| TraceWindows.WindowChildren | trace/assemble.go:91-113 | A span's children in the trace of the last events are those of the whole history that started among them. |
| TraceWindows.WindowRootsAre | trace/assemble.go:91-96 | The roots of that trace are the spans started in the window whose parent did not, or is itself. |
| LiveSpans.Spans.Observe | trace/spans.go:46-53 | Observing an event extends the history the tracker is the fold of. |
| LiveSpans.Spans.Begin | trace/spans.go:55-62 | A start opens or replaces its span, takes the next place in the order, and is counted. |
| LiveSpans.Spans.Finish | trace/spans.go:67-76 | An end of an open span forgets it and is counted; any other end does nothing. |
| LiveSpans.Spans.Open | trace/spans.go:82-93 | The open spans, each once, in the order they were opened, whatever order the map is visited in. |
| LiveSpans.Spans.Count | trace/spans.go:96-100 | Count is the number of open spans. |
| LiveSpans.TrackConsistent | trace/spans.go:29-38 | On every history the two maps share their keys, places in the order are distinct and below next, and every span held is open. |
| LiveSpanProperties.StartsAndEnds | trace/spans.go:102-115 | Starts counts every start, and Starts equals Ends plus Count plus the restarts of open spans: the gap is Count exactly when nothing open was restarted. |
| LiveSpanProperties.UnknownEndIgnored | trace/spans.go:64-76 | An end changes the tracker exactly when its span is open. |
| LiveSpanProperties.EndsCountedIff | trace/spans.go:64-76 | Over any history Ends is the number of ends exactly when each of them closed a span open at that point. |
| LiveSpanProperties.LoneEndUncounted | trace/spans.go:64-72 | One end that nothing started is not counted. |
| LiveSpanProperties.OpenIsLastStarted | trace/spans.go:55-76 | A span is open exactly when the last boundary seen of it is a start, and reads as that start. |
| LiveSpanProperties.OpenInStartOrder | trace/spans.go:78-93 | Open spans are listed as their last starts stand in the history, whatever times those carry. |
| LiveSpanProperties.FirstListedIsOldestIff | trace/spans.go:78-93 | The first span listed has been running longest exactly when the open span whose last start arrived first also carries the earliest time. |
| LiveSpanProperties.FirstListedCanBeYounger | trace/spans.go:78-93 | Two starts that arrive against the clock are listed younger first. |
| LiveSpanProperties.TraceOpen | trace/span.go:49-51 | A span of a trace is open exactly when it has no end or its last end carries no time. |
| LiveSpanProperties.OpenSpanMeasuredIff | trace/span.go:28-31 | An open span of a trace has a duration, a status or a failure exactly when its last end, without a time, gave it one. |
| LiveSpanProperties.TimelessEndMeasures | trace/assemble.go:84-89 | An end without a time leaves its span open with that end's duration and status. |
| LiveSpanProperties.LiveAgreesWithTrace | trace/render.go:34-36 | When ends of started spans follow their starts, the last of them carries a time, and parents are acyclic, the live view and the assembled trace report the same open spans. |
| LiveSpanProperties.OpenSpansAgree | trace/render.go:34-36 | Each open span of the trace, less its children and events, is the very span the live view holds. |
| LiveFibers.Fibers.Observe | trace/fibers.go:68-75 | Observing an event extends the history the running fibers are the fold of. |
| LiveFibers.Fibers.Begin | trace/fibers.go:77-88 | A start adds or replaces its fiber and is counted. |
| LiveFibers.Fibers.Finish | trace/fibers.go:90-98 | A completion of a running fiber forgets it and is counted; any other does nothing. |
| LiveFibers.RunningIsLastStarted | trace/fibers.go:77-98 | A fiber is running exactly when the last boundary seen of it is a start, and carries that start's fields. |
| LiveFibers.StartsAndEnds | trace/fibers.go:155-173 | Starts equals Ends plus Count plus the restarts of running fibers. |
| LiveFibers.EndsCountedIff | trace/fibers.go:90-98 | Over any history Ends is the number of completions exactly when each completed a fiber running at that point. |
| LiveFibers.Fibers.SortOldestFirst | trace/fibers.go:145-153 | The same identities, by start time and then identity, strictly so when none repeats. |
| LiveFibers.Fibers.SortSiblings | trace/fibers.go:145-153 | However a set of siblings was listed, sorting gives the one arrangement of it. |
| LiveFibers.Fibers.Tree | trace/fibers.go:106-125 | Whatever order the map is visited in, the tree is the same function of the running fibers, and it ends even on parent cycles. |
| LiveFibers.Fibers.Subtree | trace/fibers.go:127-136 | Each fiber's children are nested beneath it oldest first. |
| LiveFibers.Fibers.Count | trace/fibers.go:156-160 | Count is the number of running fibers. |
| LiveFibers.TreeHoldsReachable | trace/fibers.go:106-136 | The tree holds each fiber whose parents do not run into a cycle once, and no other. |
| LiveFibers.TreeCounts | trace/fibers.go:106-160 | It never has more nodes than Count, and as many exactly when the parents are acyclic. |
| LiveFibers.LevelsInOrder | trace/fibers.go:127-153 | At every level children are exactly the fibers forked there, strictly ascending. |
| LiveFibers.FiberHolds | trace/fibers.go:106-153 | Every fiber of the tree is a running one with the fields of its start, above exactly the running fibers forked from it, by start time and then identity. |
| LiveFibers.RootsInOrder | trace/fibers.go:100-125 | Roots ascend strictly and are the fibers whose parent is not running or is themselves. |
| TraceRender.WalkSpan | trace/render.go:23-28 | A walk shows a span before its children, children in order and one level deeper. |
| TraceRender.Walk | trace/render.go:17-21 | A trace is walked root by root from depth zero. |
| TraceRender.SpansWhere | trace/render.go:49-57 | A question of a trace answers the spans that satisfy it, parents before children. |
| TraceRender.VisitsByLevel | trace/render.go:12-28 | A walk shows a span first, then only deeper ones, of which those one level in are its children in order. |
| TraceRender.Open | trace/render.go:30-36 | Open answers the spans without an end time, in the order of the walk. |
| TraceRender.Unsuccessful | trace/render.go:38-42 | Unsuccessful answers those that ended in a failure, a defect or an interruption. |
| TraceRender.RenderSpan | trace/render.go:79-84 | A span's line is written before what is inside it. |
| TraceRender.RenderInside | trace/render.go:92-106 | The merge loop writes, within bounds and with an end, the merge of events and children. |
| TraceRender.Render | trace/render.go:66-77 | A trace renders root by root and reports how many events are loose. |
| TraceRender.OrderTakesEach | trace/render.go:92-106 | For any span the merge takes each event and each child exactly once. |
| TraceRender.RendersInTime | trace/render.go:86-119 | Inside a span of a trace the lines are its events and children stably sorted by time, events first at the same instant. |
| TraceRender.MergesInTurn | trace/render.go:86-119 | Inside a span of a trace events and children keep their orders; an event precedes a child only if it happened by its start, a child an event only if it started before. |
| TraceRender.LinesByLevel | trace/render.go:79-106 | A span's heading comes first; the lines one level in are its events and its children's headings in the order of the merge, and all others are deeper. |
| TraceRender.LinesHold | trace/render.go:79-106 | Rendering a span writes every span beneath it once and every event of those spans once. |
| TraceRender.TraceLinesHold | trace/render.go:66-70 | So does rendering a whole trace. |
| TraceRender.LinesFollowWalk | trace/render.go:79-106 | Events aside, the lines are the walk: the same spans in the same order at the same depths. |
| TraceWalk.DepthIsAncestors | trace/render.go:12-28 | The depth shown with a span is the number of steps to its root. |
| TraceWalk.WalkRebuilds | trace/render.go:12-28 | The identities and depths a walk shows rebuild the nesting of any trace. |
| SelfTime.Self | trace/span.go:91-103 | Self is zero while open, and otherwise the duration less the children's, or zero when that is negative. |
| SelfTime.Descendants | trace/span.go:106-112 | Descendants is one less than the spans a walk of it shows. |
| SelfTime.SelfTimesAddUp | trace/span.go:80-103 | Over a whole subtree self times add up to at least the duration, and to exactly it if and only if nowhere do children's durations exceed their parent's. |
| SelfTime.TraceTimesAddUp | trace/span.go:80-103 | That holds of every root of a trace in which the last end of each started span carries no negative duration, and none without a time. |
| OrderStatistics.RankedAtMost | metrics/distribution.go:72-83 | A value bounds the measurement at a rank exactly when it bounds that many measurements. |
| OrderStatistics.RankForIs | metrics/distribution.go:72-78 | The rank of a share is the least whole number at or above share x count. |
| Distributions.Histogram.Add | metrics/distribution.go:148-166 | Adding a measurement keeps count, sum, extremes and every cumulative bucket those of the measurements so far. |
| Distributions.Histogram.Snapshot | metrics/distribution.go:168-180 | A snapshot is the distribution of the measurements added. |
| Distributions.ExtremesExact | metrics/distribution.go:17-31 | Min and Max are measurements and bound all of them. |
| Distributions.Bound | metrics/distribution.go:65-85 | The search answers the first bucket that reaches the rank, else the last bound; nothing for no measurements. |
| Distributions.Quantile | metrics/distribution.go:53-63 | A quantile is that bound, or Max where Max is tighter. |
| Distributions.NothingToAnswer | metrics/distribution.go:65-68 | Without measurements, or without buckets, the answer is zero. |
| Distributions.QuantileBrackets | metrics/distribution.go:41-85 | For a share in (0, 1] the exact nearest-rank measurement lies above the boundary before the answer's and at or below the answer, itself the lesser of the boundary and Max; only past the last boundary is the answer that boundary, below the measurement. |
| Tightness.QuantileIsTight | metrics/distribution.go:41-50 | A quantile that a bucket reaches is the tightest bound the buckets and Max allow: some measurements with the same ones have it as their exact value. |
| Tightness.TightIff | metrics/distribution.go:41-50 | With Sum and Min kept too, it is attained exactly when the least sum that puts that rank at its bucket's top is within Sum, and it is Min if the rank is the first. |
| Tightness.NotAlwaysTight | metrics/distribution.go:41-50 | Of 2 and 100 in buckets up to 50 and 1000 the median reads as 50, which no measurements with that distribution attain. |
| Distributions.QuantileIsUpperBoundIff | metrics/distribution.go:41-85 | A quantile bounds its measurement from above exactly when the last bucket holds the rank. |
| Distributions.LastBucketHoldsAllIff | metrics/distribution.go:17-21 | The last bucket holds every measurement exactly when none lies past its boundary. |
| Distributions.LastBucketCanMiss | metrics/distribution.go:17-21 | Against the default boundaries a two-minute measurement is counted but in no bucket. |
| Distributions.QuantileCanFallShort | metrics/distribution.go:79-84 | Against the default boundaries a single two-minute measurement reads as one minute. |
| Distributions.QuantileOutsideShares | metrics/distribution.go:51-71 | A share outside (0, 1] answers a bound on every measurement exactly when none lies past the last boundary. |
| Distributions.OutsideSharesCanFallShort | metrics/distribution.go:51-71 | Against the default boundaries every share outside (0, 1] answers one minute for a single two-minute measurement. |
| Distributions.QuantileMonotone | metrics/distribution.go:53-85 | A larger share never answers a smaller bound. |
| Distributions.BoundariesAscend | metrics/distribution.go:106-132 | The boundaries a collector uses ascend without repeats, are never empty, are those asked for, and failing any are the twenty-five from a microsecond to a minute. |
| Distributions.DefaultErrorBound | metrics/distribution.go:95-132 | Under the default boundaries a quantile is at most two and a half times its measurement, from a microsecond to a minute. |
| Collectors.NewVocabulary | metrics/label.go:42-50 | The names kept are those asked for, less the empty one and Other. |
| Collectors.Histograms.HistogramFor | metrics/collector.go:61-71 | A label gets its histogram, a new and empty one the first time. |
| Collectors.Histograms.Measure | metrics/collector.go:53-58 | A measurement reaches the histogram of its label and no other. |
| Collectors.Collector.Observe | metrics/collector.go:47-59 | Observing an event extends the history the collector's counts and both sets of histograms are the fold of. |
| Collectors.Collector.TakeSnapshot | metrics/collector.go:78-97 | A snapshot is a value, the pure summary of the history so far, whatever order the maps are visited in. |
| CollectorProperties.LabelDistinguishes | metrics/label.go:62-79 | Two events share a label exactly when they agree in kind, status, and declared name, or name nothing, or name only undeclared operations. |
| CollectorProperties.SnapshotIs | metrics/collector.go:47-97 | Of each label a snapshot holds the number of events that bear it, the distribution of their positive durations and that of their positive delays, read off the events' own kind, status, operation, duration and delay; nothing of a label without any. |
| CollectorProperties.SamplesAre | metrics/collector.go:53-58 | The measurements under a label are the positive ones its events carry, in order; a label without any has no histogram. |
| CollectorProperties.CountsAre | metrics/collector.go:52 | A label is counted once for each event that carries it. |
| CollectorProperties.CollectedQuantile | metrics/collector.go:78-97 | For any history, a snapshot's quantiles bracket the exact nearest-rank duration, and the exact delay, of the events that bear the label. |
| CollectorProperties.MeasuredAreCounted | metrics/collector.go:112-128 | A label with a duration or a delay has a count, so the bound on counts covers every label a snapshot holds. |
| CollectorProperties.Total | metrics/collector.go:133-141 | Total sums the counts of the kind's labels, whatever order the map is visited in. |
| CollectorProperties.Unsuccessful | metrics/collector.go:145-158 | Unsuccessful sums those of failures, defects and interruptions. |
| CollectorProperties.TotalsCountEvents | metrics/collector.go:131-158 | So they count the events of the kind, and all counts together count the whole history. |
| CollectorProperties.LabelsBounded | metrics/label.go:27-32 | No history makes more than (names + 2) x kinds x statuses labels. |
| CollectorProperties.LabelsReach | metrics/label.go:70-79 | Given which operations events may name, the labels they may make are at most the operations told apart x kinds x statuses, and some history makes that many. |
| CollectorProperties.LabelsBoundReached | metrics/label.go:27-32 | (names + 2) x kinds x statuses is reached once events name every declared operation, none, and an undeclared one. |
| CollectorProperties.DocumentedBoundExceeded | metrics/collector.go:16-18 | An anonymous event and an undeclared one are two labels under an empty vocabulary, one past the documented bound. |
| CollectorProperties.DocumentedBoundIff | metrics/label.go:27-32 | The documented (names + 1) x kinds x statuses bounds every history if and only if events all name an operation, or none names an undeclared one, or some declared name is never used. |
| ProcessRuns.Runs.Add | process/runs.go:43-52 | Adding a run allocates the ring once and extends the history it keeps the end of. |
| ProcessRuns.Runs.Latest | process/runs.go:55-66 | The recent runs are the last min(256, n), newest first. |
| Rings.HoldsBack | process/runs.go:61-64 | Counting back round the ring reads the history backwards, within bounds. |
| SpreadOfRuns.RankOf | process/spread_of_runs.go:79-91 | The index is always within the values. |
| SpreadOfRuns.AtShare | process/spread_of_runs.go:66-76 | The answer is the value at that index of the sorted values, or zero for no runs. |
| SpreadOfRuns.BytesAt | process/spread_of_runs.go:22-31 | BytesAt ranks the runs by the bytes each allocated. |
| SpreadOfRuns.ObjectsAt | process/spread_of_runs.go:33-43 | ObjectsAt ranks them by their allocations. |
| SpreadOfRuns.DurationAt | process/spread_of_runs.go:45-53 | DurationAt ranks them by duration, a negative one counting as none. |
| SpreadOfRuns.IndexIsNearestRankIff | process/spread_of_runs.go:79-91 | The index is ceil(share x count) - 1 exactly when share x count is below one, whole, or at least a ten-millionth above a whole number. |
| SpreadOfRuns.RationalSharesAgree | process/spread_of_runs.go:79-91 | So it is for every share with a denominator up to ten million, over any number of runs. |
| SpreadOfRuns.ThinSliverFallsShort | process/spread_of_runs.go:83 | A share a hair over half of two runs answers the first where the nearest rank is the second. |
| SpreadOfRuns.AtShareIsExact | process/spread_of_runs.go:59-76 | Where the ranks agree the answer is a measurement, and the least value at or above that share of the runs. |
| SpreadOfRuns.OutsideSharesAnswerLargest | process/spread_of_runs.go:64-65 | A share outside (0, 1] answers the largest, which is true of every run. |
| ProcessSizes.DiffSizes | process/sizes.go:82-97 | The difference of two readings is the classes whose counter grew, with their sum; readings that do not match give nothing. |
| SizeAccounts.DifferenceIs | process/sizes.go:82-109 | By position: the classes are exactly the buckets whose counter grew, in order, each with its growth and the upper edge of its bucket, the last one's unbounded. |
| ProcessSizes.Largest | process/sizes.go:116-127 | The largest class is the first that holds the most, and there is one exactly when there are classes. |
| ProcessSizes.SpreadOf | process/costs.go:225-238 | An account reads as its edges in order with their sums, whatever order the map is visited in. |
| SizeAccounts.WindowsTelescope | process/costs.go:185-197 | Recording the difference of every consecutive pair of readings leaves an account that reads as the difference of the first and the last. |
| ProcessBands.BandOf | process/sizes.go:168-175 | The search answers the band of an edge. |
| ProcessBands.BandIs | process/sizes.go:167-175 | A class falls in the first band whose edge is not below its own. |
| ProcessBands.Bands | process/sizes.go:144-165 | The loops gather the classes into the non-empty bands. |
| ProcessBands.BandsHold | process/sizes.go:129-175 | The bands are those of 64, 256, 1024, 4096 and 32768 bytes and the rest that hold something, smallest first, each with all the classes between its edges. |
| ProcessBands.BandsConserve | process/sizes.go:129-165 | Gathering keeps the sum of the classes, and the total of any spread that has some. |
| ProcessBands.BandsIdempotentIff | process/sizes.go:144-165 | Gathering twice is gathering once exactly when the spread has no classes, a class that holds something, or no total. |
| BandAccounts.BandsCommute | process/costs.go:185-197 | However many spreads an account records, the bands of what it reads as, total included, are what it would read as had each spread been banded before it was recorded. |
| ProcessCosts.NewNames | process/costs.go:121-127 | The names kept are those asked for, less the empty one and Other. |
| ProcessCosts.RunBook.Add | process/costs.go:178-183 | A run reaches the ring of its name and no other. |
| ProcessCosts.Accumulate | process/costs.go:195-197 | Each class of a spread is added under its edge. |
| ProcessCosts.Costs.Record | process/costs.go:157-198 | Recording extends the history that totals, runs and sizes are the fold of, under the declared name or Other. |
| ProcessCosts.Costs.Snapshot | process/costs.go:204-222 | One report for each name recorded and no other, the most bytes first and then by name, each the fold of its entries: figures, sizes if they are kept, and the last runs newest first. |
| CostProperties.HistoryByName | process/costs.go:157-161 | A declared name's account is of exactly the entries that give that name, and Other's of those that give no declared one. |
| CostProperties.SnapshotByName | process/costs.go:157-222 | A snapshot reports a declared name if and only if it was recorded, and Other if and only if an undeclared one was, each from those entries. |
| CostProperties.SnapshotInOrder | process/costs.go:216-220 | Reports stand by bytes, the most first, and by name where those are equal. |
| CostProperties.ReportedSizes | process/costs.go:185-238 | A report of sizes has one class for each edge its recorded entries name, smallest first, with what they had under it. |
| CostProperties.NoSizesReported | process/costs.go:185-187 | An account that keeps no sizes reports none. |
| CostProperties.SnapshotIsOne | process/costs.go:200-222 | A history has one snapshot: the order the maps are visited in does not show. |
| CostProperties.SpendingIs | process/costs.go:165-172 | An account counts its entries and sums their bytes, objects, CPU time, durations and collections. |
| CostProperties.LongestIs | process/costs.go:173-175 | Longest is a run's duration none exceeds, or zero when none is positive. |
| CostProperties.KeysBounded | process/costs.go:86-89 | Accounts are for declared names and Other only. |
| CostProperties.ReportTelescopes | process/costs.go:157-198 | Sizes recorded window by window under one name report as the difference of the first and last readings. |
| CostProperties.ReportsGather | process/costs.go:157-238 | Banding every spread before it is recorded changes a report in nothing but its spread, which is the bands of the other. |
| CostProperties.ReportedRuns | process/costs.go:50-53 | A report's runs are the windows of the last min(256, Times) entries, newest first, and its figure at a share is the exact nearest-rank value of them where the ranks agree. |

## Left out

- Buffer: the wrapped observer is taken to return and not to call the buffer again; the context kept beside each event, and its stripping of cancellation, are not modelled. Cancellation of a waiting Flush is a step that may happen at any time.
- Buffer: time spent parked or delivering is not modelled; progress counts steps.
- TraceAssemble.Assemble: the spans under assembly are values in a map rather than pointers; each pointer has one owner in the source, so nothing aliases.
- LiveSpans, LiveFibers, RecentEvents, Collectors, ProcessCosts: each method runs whole under its mutex in the source, so the model has no interleaving inside a method.
- IEEE rounding: shares and ranks are exact reals, and CPU seconds are summed without rounding.
- Unsigned 64-bit wrap-around of counters and sums.
- Snapshot.Labels, Label.Compare and Vocabulary.Names: sorted listings of what the model keeps as sets and maps.
- Averages and shares read off one value (Mean, PerRun, ObjectsPerRun, MeanObjectBytes, Class.Share, Age) and the rates of process/change.go.
- The text of a rendered line; a line is its depth and the span or event it describes.
- trace/identity.go, process/reading.go, process/series.go, process/track.go, observe/fanout.go, observe/filter.go: random and hashed identities, readings of the Go runtime, a second ring, wiring to the effect runtime, and delegation loops.
