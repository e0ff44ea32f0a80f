# Verified model of the Leda runtime

Leda runs graphs of stages: events wait in per-stage queues, a pool of workers runs handler instances, handlers send
events to other stages in the same process or, marshalled, over TCP to other processes.  This project models the parts
of that runtime in which something can go wrong over time, and proves what they guarantee.

- **Scheduler** (`Scheduler`, `Invariants`, `Mailbox`, `Runs`, `Guarantees`, `CohortDepth`, `WorkerPool`, `LifeCycle`,
  `Limits`, `Kernel`): the tables of `src/kernel/instance.c` and the workers of `src/kernel/scheduler.c` as a state
  machine whose steps are an emit, a ready-queue pop, the return of a handler with any status, an I/O completion, a
  change of limits, and the creation or killing of a worker.  Handlers are arbitrary oracles.  `Kernel.Tables` is the
  same machine as code that updates global tables, one method per C function, each proved equal to its function on
  states; all facts about runs are proved on states.  A step is atomic, and in particular the limit test of
  `instance_aquire` and the increment behind it are one step.
- **Marshaller** (`Marshal`, `Numbering`, `Preorder`, `Reach`, `RoundTrip`, `Isomorphism`, `EncodeSuccess`, `Buffer`,
  `Encoder`, `DecodeFrame`, `Decoder`, `Clone`, `Grammar`, `Format`): `src/kernel/extra/lmarshal.c` byte by byte, on
  heaps of tables and closures with sharing and cycles.  The encoder and the decoder exist twice, as functions on
  which the theorems are proved and as code with buffers, a SEEN table, a counter and a read pointer that are changed
  in place.
- **Delivery** (`Copy`, `Pack`, `Routes`, `Delivery`): the three ways in which `src/kernel/event.c` hands arguments to
  a handler, which argument lists each of them takes, and that they agree.
- **Remote sends** (`Connection`, `ConnectionProof`, `Remote`, `Doubt`, `Transfer`): the framed send and acknowledge
  protocol over streams that split writes and reads arbitrarily and may fail at any time, and the pools of idle
  sockets.
- **The whole** (`World`, `Projection`, `EndToEnd`, `Possible`): sender, network and the schedulers of the receivers as
  one machine, from the arguments of a remote emit to an event in the receiver's queues.
- **Placement** (`Placement`, `Deployment`, `Shipping`): `graph:part`, `graph:map`, `graph:verify`, the interning of
  processes, the shipping of handlers and the round-robin choice of a process.
- **Data structures** (`Queue`, `Memarray`): the linked-list queue of `src/kernel/queue.c` and the network byte order
  of `src/kernel/extra/memarray.c`.

`dafny verify dfyconfig.toml` checks everything.

Findings, each with a lemma that shows it and one that says exactly when the code does meet the property:

- An error that destroys an instance while events are pending leaves them stranded and lets a later emit overtake them
  (`OvertakingAfterDestroy`; `NoStrandedEvents`, `FifoExactly`).
- All full tests compare with `==`, so a limit or capacity set below the current size bounds nothing any more
  (`RunawayIsReached`, `OverfullGrows`; `LimitHoldsExactly`, `WithinExactly`).
- An unknown status code destroys an instance without lowering the active counter (`UnknownIsReached`;
  `ActiveCounter`).
- Cohort sends to a stage whose limit is negative, or was set below its number of instances, recurse without bound on
  the C stack (`UnlimitedIsReached`, `UnlimitedCohort`; `RecursionIsBoundedExactly`).
- `queue_push` on a list that was used and drained loses its element, because pops leave `tail` behind
  (`PushAfterDrain`; `LinkedQueue.Push`).
- A remote send that ended without success may have been accepted, exactly when its whole frame was written and no
  answer was read (`FailedSendExactly`).  A write error reports nothing to the handler at all; such a send was never
  accepted (`UnreportedIsCertain`).
- A remote send that is rejected loses its socket, which is then neither pooled nor closed (`LeakedExactly`).
- `part` looks for coupled stages among registered outputs, `verify` among connectors, and the two differ
  (`UnregisteredEscapes`; `PartImpliesVerify`).
- A stage made with `stateful = false` has a `serial` field that is false: the kernel, which tests for presence, runs
  it as serial, and placement, which tests for truth, allows it on several processes (`SerialOnTwoProcesses`;
  `SerialTestsAgree`).
- The packed route refuses light userdata, among the arguments or anywhere in what they reach.  It always loses a
  trailing nil, and a nil in the middle may cut the list, depending on the length that Lua finds for the table.  The
  other two routes deliver both (`PackedRefusesLight`, `NilIsLost`; `RoutesAgree`).

## Model

| member | source | states |
|---|---|---|
| Kernel.Tables.constructor | src/kernel/instance.c:257-289 | the tables start as `Initial`: empty queues, limit 1 for serial stages and the default for the others |
| Kernel.Tables.InstanceAcquire | src/kernel/instance.c:459-482 | an idle instance is recycled in FIFO order, otherwise one is created unless the counter equals the limit; nothing changes on failure |
| Kernel.Tables.TryPushPending | src/kernel/instance.c:291-299 | fails exactly when the event queue is bounded and at its capacity |
| Kernel.Tables.Emit | src/kernel/scheduler.c:414-490 | fast path, pending queue or rejection; the verdict is exactly `EmitAccepts`, and the scheduler's invariant is kept |
| Kernel.Tables.InstanceRelease | src/kernel/instance.c:617-680 | the oldest pending event is loaded, or the instance goes idle, or it is destroyed when that queue is full |
| Kernel.Tables.Conclude | src/kernel/scheduler.c:138-195 | ended, failed, destroyed and unknown activations, with the counters each branch changes |
| Kernel.Tables.HandBack | src/kernel/scheduler.c:138-195 | every branch but the cohort send leaves the worker free |
| Kernel.Tables.EmitCohort | src/kernel/scheduler.c:281-334 | a successful cohort send queues the caller and starts the callee on the caller's worker |
| Kernel.Tables.Activate | src/kernel/scheduler.c:118-195 | one activation makes the emits of its handler in order, then deals with its status, as exactly that run of the machine; it nests if and only if the status is a cohort send whose stage can be acquired at that point, and then a unit of slack has been taken |
| Kernel.Tables.ThreadResumeInstance | src/kernel/scheduler.c:118-195 | every recursion that can end is the run made of what the handlers of its activations do, outermost first, and leaves the worker free; with finite limits it always ends and nests at most one plus the slack of the stages |
| Kernel.Tables.ThreadTakes | src/kernel/scheduler.c:506-525 | the head of the ready queue is resumed, or the worker exits on a kill request; the invariant is kept |
| Kernel.Tables.WakeUp | src/kernel/event.c:673-683 | a waiting instance becomes ready with its resume value and is still in one place only |
| Kernel.Tables.StartPool | src/leda/controller/thread_pool.lua:22-43 | the init loop is the run that sets maxpar to n and creates n workers |
| Kernel.Tables.FinishPool | src/leda/controller/thread_pool.lua:46-49 | the finish loop is the run of n kill requests, which go behind everything already ready |
| Kernel.Tables.SetMaxparAll | src/kernel/instance.c:682-701 | the loop sets limit and capacity of every stage that is not serial and keeps the invariant |
| Kernel.Tables.SetMaxparFor | src/kernel/instance.c:703-731 | succeeds exactly for a legal value and an existing stage that is not serial, and keeps the invariant |
| Kernel.Tables.SetCapacity | src/kernel/instance.c:114-135 | succeeds exactly for a stage that exists, or the ready queue, and sets the capacity of that event queue only |
| Invariants.StepKeeps | src/kernel/scheduler.c:118-195 | every step keeps the invariant: each live instance in one place, counters that count, histories that match |
| Runs.ReachableIsSound | src/kernel/instance.c:459-482 | in every reachable state each live instance is in exactly one place, a dead one in none, and `number_of_instances` is the live count |
| Runs.ActiveCounter | src/kernel/stats.c:112-119 | the active counter is the busy count plus the number of unknown status codes, so it is right exactly when there was none |
| Mailbox.StepRefines | src/kernel/scheduler.c:440-490 | every step is, for every stage, exactly one move of an abstract mailbox with accepted, started, loaded and pending events |
| Mailbox.MoveOrder | src/kernel/instance.c:617-680 | after a move the events are in acceptance order if and only if they were before and the move overtakes nothing: order once lost does not come back |
| Runs.EventsAreConserved | src/kernel/scheduler.c:118-195 | in every run the accepted events of a stage are exactly those pending, loaded and started, none lost or duplicated |
| Runs.RejectedEmit | src/kernel/scheduler.c:453-463 | an emit changes nothing if and only if it is rejected |
| Runs.StrandedExactly | src/kernel/instance.c:617-680 | pending events imply no idle instance and the limit reached, across a step if and only if the step does not destroy or relimit under pending events |
| Runs.NoStrandedEvents | src/kernel/instance.c:459-482 | over whole runs, cohort sends included: pending events imply no idle instance and the limit reached in every state, if and only if no step destroys or relimits under pending events |
| Runs.StepOrderExactly | src/kernel/scheduler.c:440-490 | a step leaves a stage in acceptance order if and only if it was in order and the step overtakes nothing |
| Guarantees.StageIsFifo | src/kernel/scheduler.c:440-490 | without such steps and overtaking cohort sends, started, loaded and pending events are together the accepted ones in acceptance order |
| Guarantees.FifoExactly | src/kernel/scheduler.c:281-334 | when no event is sent twice, a run ends in acceptance order if and only if no step of it acquired an instance for a new event past a pending one, or by cohort send past a loaded one |
| Guarantees.OvertakingAfterDestroy | src/kernel/scheduler.c:148-152 | a concrete run in which an error leaves a pending event stranded, without an instance, and a new event then overtakes it |
| Guarantees.LimitExactly | src/kernel/instance.c:474-482 | instances stay within the limit across a step if and only if it does not set the limit below their number |
| Guarantees.LimitHoldsExactly | src/kernel/instance.c:673-677 | over every run from the start: instances stay within the limit after every step if and only if no step sets it below their number, and then no release destroys an instance |
| Guarantees.Runaway | src/kernel/instance.c:474-482 | with the limit below the count every emit that finds no idle instance creates one, without end |
| Guarantees.RunawayIsReached | src/kernel/instance.c:682-701 | a run from the start reaches that state and any number of instances beyond a limit of one |
| Guarantees.UnknownIsReached | src/kernel/scheduler.c:186-195 | a run from the start after which the active counter is one and no instance is alive |
| Guarantees.ReleaseNeverDestroys | src/kernel/instance.c:673-677 | within the limit the branch that should not be reached is not |
| Guarantees.ParallelismIsBounded | src/kernel/instance.c:459-482 | at no moment of a run are more executions of a stage open than its limit, sleeps and I/O waits included |
| Guarantees.SerialStage | src/kernel/instance.c:280-283 | in every run a serial stage has at most one live instance, no overlapping executions, and one instance for all of them until one is destroyed |
| Guarantees.SerialStageIsFifo | src/kernel/instance.c:617-680 | a serial stage runs its events in acceptance order, cohort sends included |
| CohortDepth.StepSlack | src/kernel/instance.c:459-482 | each step changes the sum of idle plus limit minus number by exactly its gain; a cohort acquire lowers it by one |
| CohortDepth.DepthIsPaidFor | src/kernel/scheduler.c:281-334 | with any number of workers, depth grows by no more than the slack used up plus what other workers freed |
| CohortDepth.CohortDepthIsBounded | src/kernel/scheduler.c:118-195 | with one worker and finite limits the recursion is at most one plus the slack deep |
| CohortDepth.UnlimitedCohort | src/kernel/scheduler.c:281-334 | into a stage with more instances than its limit, negative or not, any depth is reached by cohort sends alone |
| CohortDepth.UnlimitedIsReached | src/kernel/instance.c:682-701 | from the start, with one worker and a limit of -1 or 0, a run reaches any depth |
| CohortDepth.RecursionIsBoundedExactly | src/kernel/scheduler.c:118-195 | with one worker the recursion has a bound if and only if every stage has a limit not below its number of instances |
| WorkerPool.PoolIsExact | src/kernel/scheduler.c:586-620 | workers alive plus kill requests consumed are the workers created, `pool_size` is the number alive, and it is 0 exactly when all requests are consumed |
| WorkerPool.WorkersAfter | src/kernel/scheduler.c:118-195 | a step changes at most its own worker: a popped instance is at depth one, a taken cohort send puts the callee one deeper, everything else frees the worker |
| WorkerPool.ReadyIsServedInOrder | src/kernel/scheduler.c:506-525 | whatever a run pops and leaves begins with what was in the ready queue, in order |
| WorkerPool.KillWaitsItsTurn | src/leda/controller/thread_pool.lua:46-56 | everything ahead of a kill request is dispatched before a worker takes it |
| LifeCycle.OnePlace | src/kernel/instance.c:459-482 | an instance is idle, queued, waiting, on one worker or not alive, and only one of these |
| LifeCycle.JourneyExactly | src/kernel/scheduler.c:138-195 | for every step and every instance the place it is in afterwards: a status sends it to the ready queue, the idle queue, a wait or its end, and nothing else moves it but its acquisition, its turn and its completion |
| LifeCycle.ReadyAfter | src/kernel/scheduler.c:208-221 | a step takes the head of the ready queue or nothing, and appends exactly what it makes ready |
| LifeCycle.WaitingAfter | src/kernel/event.c:866-918 | an instance waits exactly from its own valid request to its completion |
| LifeCycle.WaitsForCompletion | src/kernel/event.c:673-683 | over any run a waiting instance waits in every state if and only if no step is its completion |
| LifeCycle.PushedIsServedLast | src/kernel/scheduler.c:208-221 | whatever a step makes ready is served right after everything that was ready at that moment |
| LifeCycle.RecycledInOrder | src/kernel/instance.c:459-470 | over any run idle instances are recycled in the order in which they became idle |
| Limits.StageQueues | src/kernel/instance.c:617-680 | every step works on the event queue and the recycle queue of a stage through the operations of the bounded FIFO of queue.c |
| Limits.LimitsAreAsSet | src/kernel/instance.c:257-289 | over any run a limit is the last legal setting or the default, 1 for ever on a serial stage; the capacity of the event queue is its own last setting or default |
| Bytes.U32RoundTrip | src/kernel/extra/lmarshal.c:340-346 | a 32-bit length read back is the length written |
| Bytes.IndexBytesInjective | src/kernel/extra/lmarshal.c:225-249 | different table indices are different doubles on the wire |
| Bytes.IndexIsDouble | src/kernel/extra/lmarshal.c:225-249 | a table index below 2^53 is written as the IEEE 754 double of that value (binary64 of IEEE 754-2008, section 3.4), by its sign, exponent and fraction fields |
| Marshal.UpvaluesAreNumbered | src/kernel/extra/lmarshal.c:229-243 | each upvalue is stored under its number, counted from one |
| NumberingFacts.ValueGrows | src/kernel/extra/lmarshal.c:132-189 | encoding extends the numbering by complete objects with consecutive numbers, each once |
| NumberingFacts.EntriesGrow | src/kernel/extra/lmarshal.c:330-339 | the same for the entries of a table, and everything they refer to has a number afterwards |
| Preorder.NumbersArePreorder | src/kernel/extra/lmarshal.c:171-189 | the numbers are the positions of a depth-first preorder walk that stops at constants |
| Reachability.ReachIsLeast | src/kernel/extra/lmarshal.c:100-339 | the objects of the encoder's walk are closed under references, up to the constants, and every closed set that the value points into holds them |
| Isomorphism.NumberedIsReachable | src/kernel/extra/lmarshal.c:100-339 | the numbered objects are the least set closed under references from the value: all of what is reachable and nothing else |
| RoundTrip.ValueReadsBack | src/kernel/extra/lmarshal.c:348-486 | at every point of the stream the decoder reads the renamed value, stops right behind it, and has the encoder's counter |
| RoundTrip.EntriesReadBack | src/kernel/extra/lmarshal.c:488-498 | every nested slice is consumed exactly and its entries come back in order |
| RoundTrip.BackReferenceReadsBack | src/kernel/extra/lmarshal.c:376-380 | a back reference names an assigned number and gives the object rebuilt for it |
| Isomorphism.ConstantNumber | src/kernel/extra/lmarshal.c:524-530 | a constant is numbered by its position, the last one if it is repeated |
| Isomorphism.DecodeEncode | src/kernel/extra/lmarshal.c:500-583 | decoding an encoding consumes it all and gives a graph isomorphic to the reachable one, constants mapped position by position, the decoder's old heap untouched, no other object created |
| Grammar.DecodeAcceptsExactly | src/kernel/extra/lmarshal.c:348-583 | whoever wrote the bytes, the decoder accepts exactly those that begin with the magic byte and one value of a grammar of the format, nil keys, unassigned numbers, threads and foreign tags included |
| Grammar.PrefixFree | src/kernel/extra/lmarshal.c:348-498 | no value is the beginning of another, so where one ends is never in doubt |
| Grammar.UnpackAcceptsExactly | src/kernel/event.c:134-147 | a packed event is accepted if and only if it begins with the magic byte and a table |
| Grammar.SetEntryIsUpdate | src/kernel/extra/lmarshal.c:488-498 | the last value for a key counts, nil removes it, and no other key is touched |
| Formats.ScalarFormat | src/kernel/extra/lmarshal.c:100-131 | the exact bytes of every value that is no object |
| Formats.TableFormat | src/kernel/extra/lmarshal.c:132-189 | the exact bytes of a table whose first entry is the table itself |
| Formats.ClosureFormat | src/kernel/extra/lmarshal.c:190-250 | the exact bytes of a closure with one upvalue |
| Formats.ConstantFormat | src/kernel/extra/lmarshal.c:524-530 | the exact bytes of a userdata that is the first constant |
| EncodeSuccess.EncodeSucceedsExactly | src/kernel/extra/lmarshal.c:100-339 | encoding succeeds only if the walk meets no C function, no userdata and no refused light userdata, and then within a size computed from what it meets; if that fits in 32 bits, if and only if |
| Buffers.NewSize | src/kernel/extra/lmarshal.c:73-79 | the growth loop ends with a doubling that exceeds what is needed and is at most twice it |
| Buffers.Buffer.Write | src/kernel/extra/lmarshal.c:70-87 | appends the bytes, or refuses a length beyond 32 bits; the size stays 128 times a power of two and at most the larger of 128 and twice the head |
| Buffers.WriteAll | src/kernel/extra/lmarshal.c:57-87 | any list of writes leaves their concatenation in a buffer within those bounds |
| Encoding.Encoder.EncodeValue | src/kernel/extra/lmarshal.c:100-328 | the running encoder writes the specified bytes, leaves the specified numbering, and fails exactly when specified |
| Encoding.Encoder.EncodeEntries | src/kernel/extra/lmarshal.c:330-339 | the same for the loop over a table |
| Encoding.Encode | src/kernel/extra/lmarshal.c:500-550 | the whole encoder, with its constants |
| DecodeFrame.ValueFrame | src/kernel/extra/lmarshal.c:348-486 | decoding depends on the number of existing objects only and changes none of them |
| Decoding.Decoder.FillTable | src/kernel/extra/lmarshal.c:488-498 | filling a table in place while nested values refer to it gives what collecting the entries first would give |
| Decoding.Decoder.DecodeValue | src/kernel/extra/lmarshal.c:348-486 | the running decoder returns the specified value, position and heap, and fails exactly when specified |
| Decoding.Decode | src/kernel/extra/lmarshal.c:552-583 | the whole decoder, with its header checks and constants |
| Cloning.Clone | src/kernel/extra/lmarshal.c:585-591 | succeeds exactly when the encoder does and yields an independent isomorphic copy that shares only the constants |
| Delivery.CopyValuesDirectly | src/kernel/event.c:185-231 | the loop over the arguments computes `CopyAll` |
| Copying.CopyAllDelivers | src/kernel/event.c:185-231 | the direct copy succeeds exactly when the marshaller takes every object; each argument arrives isomorphic, and no two share an object |
| Delivery.Extract | src/kernel/event.c:236-325 | fails exactly when the marshaller refuses an argument, otherwise holds every argument in its place |
| Delivery.Restore | src/kernel/event.c:150-177 | the loop over the payload computes `RestoreAll` |
| Copying.RestoreIsCopy | src/kernel/event.c:130-178 | restoring an extracted payload gives exactly what the direct copy would give at that moment |
| Delivery.RestorePacked | src/kernel/event.c:134-147 | a packed event is decoded and its table unpacked up to the length that Lua takes for it |
| Packing.BuiltHolds | src/kernel/scheduler.c:388-392 | the table that the loop fills has one entry for every argument that is not nil |
| Packing.ArgTableHolds | src/kernel/scheduler.c:388-392 | in whatever order it is traversed, the table has distinct keys, no entry but those of the arguments, and all of these |
| Packing.KeysAreIndices | src/kernel/scheduler.c:388-392 | under the number n the table has argument n, counted from one, unless that is nil, and nothing else |
| Packing.BorderOfArgs | src/kernel/event.c:134-147 | the lengths that Lua may take for the table that arrives are those `n` for which argument `n` is not nil and argument `n + 1`, if any, is nil, counted from one |
| Packing.PackedDelivers | src/kernel/scheduler.c:379-401 | the packed table, in whatever order it is traversed, delivers the arguments up to whichever length Lua takes, one by one isomorphic, nils inside included, and keeps sharing between them |
| Routes.PackSucceedsExactly | src/kernel/scheduler.c:387-399 | the packed route takes only lists whose arguments and reachable objects hold no C function, no userdata and no light userdata, and of those that fit in 32 bits all |
| Routes.MarshalsExactly | src/kernel/event.c:185-325 | the other routes take only lists that reach no C function and no userdata, and of those that fit all |
| Routes.RoutesAgree | src/kernel/event.c:130-325 | for every list that fits, the packed route takes it if and only if it reaches nothing refused; then the other two take it, and all three hand over the same arguments up to isomorphism as far as the length that Lua takes, hence on everything if and only if that is their number, which it always is without a nil |
| Routes.PackedRefusesLight | src/kernel/extra/lmarshal.c:125-127 | a list is refused by the packed route and taken by the others if and only if light userdata, wherever it is, is all that is wrong with it |
| Packing.NilIsLost | src/kernel/scheduler.c:388-392 | whatever length Lua takes the packed route hands over all arguments, if and only if none is nil; for some length it does, if and only if the last is not nil; the direct copy hands over all |
| ConnectionProof.HeaderFields | src/kernel/event.c:511-520 | type, stage and length read at the offsets of the receiver are those the sender wrote |
| Formats.FrameFormat | src/kernel/event.c:511-520 | the exact bytes of a small frame |
| Formats.AnswerFormat | src/kernel/event.c:581-594 | the exact byte of every answer, also to a header that is no event |
| ConnectionProof.StepKeeps | src/kernel/event.c:464-642 | every step of sender, receiver and network keeps the invariant that ties streams, answers and verdicts together |
| ConnectionProof.NextHeader | src/kernel/event.c:571-603 | a receiver at a header reads stage and length of the next frame, never the middle of one |
| ConnectionProof.LengthTest | src/kernel/event.c:604-606 | the test on the length lets a frame through if and only if its payload has 1 to 2^31-1 bytes |
| ConnectionProof.VerdictsAreTrue | src/kernel/event.c:538-567 | a success is the frame in the same place, handled with its exact bytes and accepted |
| ConnectionProof.FreeIsQuiet | src/kernel/event.c:546-550 | a connection that can be pooled has every frame handled, answered and heard |
| Remote.RemoteDelivery | src/kernel/event.c:464-568 | over every run of many connections verdicts are true, a frame is handled at most once, and a pooled socket is pooled once with nothing unanswered |
| Remote.SendsGoWhereMeant | src/kernel/event.c:474-506 | over every run the sends are, in order, those asked for; each that was not refused is the frame in a place of its own on a connection to its destination, and nothing else is on any connection |
| Remote.SendReuses | src/kernel/event.c:479-506 | a send uses the socket that has been idle longest, connects if and only if none to its destination is idle, and is refused if and only if that fails |
| Remote.PoolIsQueue | src/kernel/event.c:546-550 | a pool is a FIFO queue that sends pop and positive answers push |
| Remote.AcceptedAsReported | src/kernel/event.c:464-642 | an event is accepted at least as often as success was reported and at most that plus the failed and unfinished sends; sends that broke while writing add nothing |
| Remote.SendIsPossible | src/kernel/event.c:479-506 | whatever a pool holds can be used for the next send |
| Remote.RejectionIsCertain | src/kernel/event.c:553-567 | after a negative answer the event was not accepted |
| Remote.LeakedExactly | src/kernel/event.c:553-567 | a socket is lost, neither pooled nor closed, if and only if its last send had a negative answer |
| Remote.FailureIsCertain | src/kernel/event.c:521-545 | a send that ended without success and was accepted all the same was wholly written and had no answer read |
| Remote.UnreportedIsCertain | src/kernel/event.c:521-533 | a send that broke while writing is the last of its connection and was never handled |
| Doubt.FailedSendExactly | src/kernel/event.c:521-567 | a send that ended without success may have been accepted if and only if its whole frame was written, with a length the receiver takes, and no answer was read; accepted or not, the sender sees the same |
| Transfers.WriteLoop | src/kernel/event.c:521-533 | the write loop, over any results of write, writes exactly the bytes that they carry, and ends with the whole frame on the wire, or closed after an error with nothing reported |
| Transfers.ReadLoop | src/kernel/event.c:611-623 | the read loop, over any results of read, reads exactly the bytes that they and the stream carry, and ends with the exact payload or stopped |
| Worlds.SuccessIsHeld | src/kernel/event.c:464-642 | over every run of sender, network and receivers, and for every send asked for: if it is reported as a success, the stage at the destination it was meant for has one event of its own for it, pending, loaded or started exactly once; a failed one has none unless its frame was written and unanswered, and one that broke while writing has none |
| EndToEnd.SuccessDelivers | src/kernel/scheduler.c:379-429 | the event that a reported success put into the queues of the destination it was meant for unpacks to the arguments of the emit, up to whichever length Lua takes, and to all of them when none is nil |
| Possible.DeliveryIsPossible | src/kernel/event.c:464-642 | from any start, a send that the receiver can take to a stage with room can be made to succeed |
| Projections.NodeRuns | src/kernel/event.c:571-642 | what a receiver does in a run of the whole is a run of its scheduler, made of its own steps and one emit for each frame that reaches it |
| Projections.NetRuns | src/kernel/event.c:464-642 | what the connections do in it is a run of the network, in which each delivery carries the verdict of the queues of the receiver |
| Projections.ConnRuns | src/kernel/event.c:464-568 | a connection goes, from a fresh one on, exactly through the sends that are put on it and its own steps |
| Projections.DoubtEverywhere | src/kernel/event.c:521-567 | so what is known of a failed send holds of every connection of every run of the whole |
| Placement.GetProcess | src/leda/process.lua:39-55 | equal addresses are one process and different ones two |
| Placement.OneCluster | src/leda/leda_graph.lua:377-384 | in a partition every stage has exactly one cluster |
| Placement.SpreadFindsChains | src/leda/leda_graph.lua:311-319 | spreading from a stage along registered coupled outputs, in either direction, finds exactly what a chain of them joins to it |
| Placement.PartImpliesVerify | src/leda/leda_graph.lua:502-520 | what part accepts verify accepts, if and only if a registered coupled output leaves the graph or the ends of every coupled connector are joined by registered coupled outputs |
| Placement.UnregisteredEscapes | src/leda/leda_graph.lua:311-319 | a coupled connector that is not registered is accepted across clusters |
| Deploying.Deployment.Part | src/leda/leda_graph.lua:286-328 | accepts exactly the disjoint covers that keep coupled outputs inside, and leaves no partition after a failure |
| Deploying.Deployment.AddProcess | src/leda/leda_cluster.lua:173-199 | sets or adds a process, refusing a second one for a cluster with a serial stage |
| Deploying.Deployment.Map | src/leda/leda_graph.lua:338-369 | accepts exactly when serial clusters get one process, every cluster has one and none is used twice; every cluster ends with the addresses of its last list, and after a refusal with those of the lists before it and its first address |
| Deploying.AssignAllGives | src/leda/leda_graph.lua:342-353 | the assignment loop fails exactly on a second process for a serial cluster, and otherwise leaves the wanted addresses |
| Shipping.Deploy | src/leda/leda_graph.lua:286-369 | part then map on a new graph accepts exactly when the inputs partition, respect serial stages and fit |
| Shipping.OneClusterPerProcess | src/leda/leda_cluster.lua:164-171 | a process is local to at most one cluster |
| Shipping.ShipsExactly | src/leda/process.lua:131-155 | a process is given the handlers of its cluster, all of them and no others |
| Shipping.CoupledStaysLocal | src/leda/leda_graph.lua:311-319 | a coupled output leads to a handler in the same process |
| Shipping.VerifiedStaysLocal | src/leda/leda_graph.lua:513-519 | after verify the same holds for every coupled connector |
| Shipping.SerialInOneProcess | src/leda/leda_cluster.lua:192-194 | a stage declared serial has its handler in exactly one process |
| Shipping.SerialTestsAgree | src/leda/leda_stage.lua:138-138 | the kernel takes a stage for serial if `serial` is true or `stateful` is present, placement if one of them is true; so they agree unless `serial` is not true and `stateful` is false |
| Shipping.SerialOnTwoProcesses | src/kernel/graph.c:263-268 | a stage that the kernel runs as serial is accepted on two processes |
| Shipping.SendFindsHandler | src/kernel/event.c:474-477 | every remote send picks a process that was given the handler, never the sender |
| Shipping.SendsTakeTurns | src/kernel/event.c:474-475 | any n remote sends in a row to a cluster of n processes reach each of them exactly once |
| Shipping.ChosenInOrder | src/kernel/event.c:474-477 | the process of a remote send is the one at the number of the send modulo n, in the order of the mapping |
| Queues.FirstInFirstOut | src/kernel/queue.c:125-211 | over any run what came in is what went out and what is still held, in order |
| Queues.WithinExactly | src/kernel/queue.c:98-103 | along any run the size stays within the capacity if and only if no step sets the capacity below it |
| Queues.FillsExactly | src/kernel/queue.c:127-131 | a queue within its capacity takes elements until it is at it, and no more |
| Queues.OverfullGrows | src/kernel/queue.c:127-131 | a queue over its capacity refuses nothing |
| Queues.LinkedQueue.TryPush | src/kernel/queue.c:125-148 | the linked list does what the bounded FIFO does, and fails exactly when it is full |
| Queues.LinkedQueue.TryPop | src/kernel/queue.c:192-211 | hands out the oldest element, or nothing exactly when empty |
| Queues.LinkedQueue.Pop | src/kernel/queue.c:165-182 | on a list that is not empty, the oldest element |
| Queues.LinkedQueue.Push | src/kernel/queue.c:72-95 | a push exactly when the tail is null or the list is not empty; otherwise the size is one and the list empty |
| Queues.Replay | src/kernel/queue.c:54-211 | a whole run on the linked list hands out what the bounded FIFO hands out |
| Queues.PushAfterDrain | src/kernel/queue.c:84-94 | pushing to a drained queue loses the element |
| Memarrays.NetworkOrder | src/kernel/extra/memarray.c:423-481 | each item of the string is the big-endian form (network order, Appendix B of RFC 791) of the little-endian value stored |
| Memarrays.SwapItemsTwice | src/kernel/extra/memarray.c:483-544 | converting there and back changes nothing |
| Memarrays.Memarray.ToNetstr | src/kernel/extra/memarray.c:446-481 | swaps every item, and fails exactly for sizes other than 1, 2, 4 and 8 |
| Memarrays.Memarray.FromNetstr | src/kernel/extra/memarray.c:503-544 | swaps the string into the array, or fails on a wrong length or item size and leaves the array alone |
| Memarrays.ThereAndBack | src/kernel/extra/memarray.c:446-544 | to_netstr and from_netstr undo each other in either order |

## Left out

- `__persist` and `__wrap` hooks, and threads as values: the hooks call foreign code, and the two sides number hooked
  objects differently.
- Lua 5.2's `_ENV` marker: the model is the Lua 5.1 build; upvalue cells shared by several closures and nil upvalues
  are not modelled, nor are NaN and negative zero as table keys.
- `lua_dump`, `lua_load` and `lua_objlen`: code is an opaque string, and the length of a list is any border, as the
  Lua 5.1 manual allows; which one the layout of a table gives is not modelled.
- What the scheduler of the sender makes of the negative count that `send_sync_event` returns after a write error: Lua
  reads it as a yield, so the instance comes back with a status that the handler did not choose.  The send is
  `Unreported`, and the status is one of those that the state machine allows.
- Bounds checks of the decoder: a slice that reaches beyond its buffer is refused before it is decoded, where the
  source decodes first; a read past the end of the string that the source does not check is an error here.
- Memory exhaustion other than in read_event, and hosts that are not little-endian.
- The asynchronous remote path (`emmit_remote`, `send_async_event`, `do_read_ack`): `emmit` always takes the
  synchronous one.
- Short header reads in `read_event`, which the source does not notice, and payloads of 2^32 bytes and more.
- `socket`, `connect` and address failures are one outcome of a send; the reuse of a descriptor number after `close`
  is not modelled.
- A full ready queue, on which a push blocks, and `wait_event` and `get_event`, which bypass the scheduler.
- Arguments that the copier refuses: the Lua error leaves `emmit` between the acquire and the push, outside the state
  machine.
- Failed init chunks of instances, `thread_rawkill`, and the `SYNC_IO` build.
- Races inside `instance_aquire` and between the reading and the storing of a round-robin counter.
- `queue_pop` on an empty list and `queue_push` on a full one, which wait on condition variables; writes to a freed
  tail are modelled as writes to an unlinked node.
- `bind` callbacks of stages, the parsing of address strings and DNS: addresses are given as resolved pairs.
- Lua stacks, statistics other than the active counter, controllers, libevent, asynchronous file I/O, the wrappers of
  the Lua API, HTTP and plotting: nothing in them decides where an event, an instance or a handler is.
- EncodeSuccess.EncodeSucceedsExactly: says only one direction for a value whose reachable objects weigh 2^32 bytes or
  more, because there success depends on the lengths of nested slices.
- Kernel.Tables.ThreadResumeInstance: says nothing of a recursion that does not end, which `RecursionIsBoundedExactly`
  allows where a limit does not hold.
- Kernel.Tables.SetCapacity: the capacity of the ready queue, which a negative stage number sets, is not modelled.
- Queues.LinkedQueue.Pop: an empty list is left out, because the source waits on a condition variable there.
- Queues.LinkedQueue.Push: a full queue is left out, because the source waits on a condition variable there.
- Worlds.SuccessIsHeld: frames for a stage number that the receiver does not have are left out; the source indexes its
  tables without a test.
- Grammar.DecodeAcceptsExactly: a string with the tag of a hook counts as refused, because hooks are left out, and so
  does one that makes the source read past the end of its buffer; code is taken to load.
- Isomorphism.DecodeEncode: assumes fewer than 2^31 objects and constants, because references are written as C ints.
