# Verified model of the x64dbg MCP backend's protocols and encoders

The backend connects a debugger plugin (C++) with a broker that serves tools to clients (Rust). This
project models the parts of it whose correctness is hardest to see by reading, and proves what they
promise over every input, every run or every interleaving. `dafny verify dfyconfig.toml` checks it.

## What is modelled

- **Stopping a trace** (`TraceModel`, `Trace`, `TraceRuns`, `TraceHistory`,
  `TraceResults`). A running trace and its
  stop coordinator react to a dozen racing events: submission returning, resume, pause, step,
  deadline, a helper thread being reserved, issued and retired, thread creation, process exit. The
  two classes are modelled as classes, each method proved against a function on values; the functions
  make one state machine (`TraceModel.Apply`), and the theorems are about all event sequences.
- **At-most-once mutations** (`Recorded`, `Ledger`, `Ipc`, `Admissions`, `AtMostOnce`, `CallResults`,
  `CallAnswers`, `AdmissionAnswers`, `RequestMemory`, `Correlation`). Concurrent calls share one stream and one ledger of operation ids. A call may wait,
  write, read, be answered for somebody else, time out or be cancelled at any step; the plugin may
  answer anything. `Ipc.Next` is one step of one call. `Recorded` has the JSON that an answer is
  recorded as and what a replay decodes.
- **The audit log** (`AuditTail`, `AuditStore`, `AuditReader`, `AuditCursors`, `AuditPaging`). A log
  in rotating, pruned files, recovered after a crash, read page by page through snapshot cursors
  while it keeps being written. Every file operation may fail, and a failed write of a header or a
  line may leave any part of its bytes, or all of them, in the file. A store may crash at any time
  with a line half written and be opened again.
- **The event stream** (`EventStream`). A lossy queue with one writer that reports what was lost.
- **Encoders**. UTF-8 recognition and JSON strings (`Utf8`, `JsonString`), context around a search
  match (`ContextWindow`), Windows command lines (`LaunchArguments`), patch ranges (`Patches`) and
  breakpoint conditions (`Conditions`). Each is proved against an independent reader of what it
  writes, or against a specification that does not mention how it is computed.

`Identifiers` and `Options` hold what several of these share.

A method is proved against a function on values. What that function means is stated apart from it, by
lemmas that do not name it: by the events of a run, by an independent reader or encoder, or by the
contents of files.

Observers that the program does not have (the list of all log segments there ever were, the record
of ledger touches and request frames, where each accepted event is) are part of the state machines,
never of the modelled operations' decisions.

## Findings

Six promises do not hold of the code as written; each has an exact condition here.

- A trace whose helper thread is first seen while the debuggee is paused stays active although
  everything about it is settled, because `ThreadCreated` does not finalize
  (plugin/src/trace_policy.cpp:172-180), until the next resume, pause, exit or own submission.
  `TraceRuns.StuckExactly` says when, `LateArrivalIsStuck` shows a run. The runtime follows every
  successful `ThreadCreated` with a pause (plugin/src/runtime.cpp:8299-8313), which ends the trace;
  the two classes by themselves do not.
- Not every admitted mutation leaves the in-flight state: the id of a cancelled call stays in flight
  for good, because dropping the call only remembers its request (crates/server/src/ipc_adapter.rs:312-318).
  `CallResults.InFlightExactly` says which ids are in flight, `CancelledIdStaysInFlight` that they
  stay, and `CancelledRunStaysBusy` shows a run from the start.
- The event queue's limit of 4096 is exceeded exactly when a failed write gives an event back to a
  full queue, and then it no longer evicts (`EventStream.LimitStep`, `EventStream.PastLimitGrows`).
  `EventStream.QueuePassesLimit` shows runs from the start that get to any length beyond it.
- After a successful append there may be more than backups+1 segments: exactly when the append did not
  rotate and there were too many before, which a failed header write or a failed removal leaves
  (`AuditStore.BoundedExactly`, `AuditStore.HeaderFailureLeavesTooMany`).
- A recorded segment length is the file's if and only if no failed write has left bytes in the file
  (`AuditStore.LengthsExactly`). A failed line is cut off again, a failed header is not
  (crates/server/src/audit_log.rs:701-702): one that was written but not synced stays in the file
  and is in no length, so a reader misses as many bytes at the segment's end
  (`AuditStore.UnsyncedHeaderIsNotCounted`), which can be inside of a character
  (`AuditPaging.UnsyncedHeaderCutsText`). Then no reading gets to the end: `AuditPaging.ReadingEnds`
  says exactly when one does. At a cut character it gets empty pages, each with a next cursor
  (`AuditReader.CutCharacterIsEmpty`).
- An empty match inside a character is accepted by `Utf8ContextAroundMatch` and splits it
  (`ContextWindow.ContextAroundMatch`, `ContextWindow.EmptyMatchSplitsCharacter`). Its callers
  (plugin/src/runtime.cpp:6332 and 6431) pass no empty match, since an empty query takes another
  branch.

## Model

| member | source | states |
|---|---|---|
| Trace.TracePolicy.Start | plugin/src/trace_policy.cpp:7-31 | a trace starts only when none is active, with an id, one to 4096 steps and an address; otherwise nothing changes |
| Trace.TracePolicy.Submitted | plugin/src/trace_policy.cpp:41-43 | only a starting trace becomes running |
| Trace.TracePolicy.OnStep | plugin/src/trace_policy.cpp:45-63 | a step adds its address up to the limits and decides, in order, deadline, step limit, native stop |
| Trace.TracePolicy.RequestStop | plugin/src/trace_policy.cpp:65-72 | the first cause stays, except that shutdown replaces a timeout |
| Trace.TracePolicy.Finalize | plugin/src/trace_policy.cpp:74-86 | an active trace ends with its cause, else the fallback |
| Trace.TraceStopCoordinator.Begin | plugin/src/trace_policy.cpp:88-95 | a new ticket and a blank coordinator |
| Trace.TraceStopCoordinator.Submitted | plugin/src/trace_policy.cpp:101-109 | only the current ticket is heard; a settled trace ends |
| Trace.TraceStopCoordinator.Request | plugin/src/trace_policy.cpp:111-118 | an accepted request is timed once |
| Trace.TraceStopCoordinator.Step | plugin/src/trace_policy.cpp:120-129 | a step that asks for a stop counts as the cooperative answer |
| Trace.TraceStopCoordinator.WakeAt | plugin/src/trace_policy.cpp:131-137 | when the helper has to look again |
| Trace.TraceStopCoordinator.Reserve | plugin/src/trace_policy.cpp:139-147 | one reservation a ticket, not before the grace is over |
| Trace.TraceStopCoordinator.Issue | plugin/src/trace_policy.cpp:149-157 | only the reserved, current, unblocked ticket may release its thread |
| Trace.TraceStopCoordinator.AbandonIssue | plugin/src/trace_policy.cpp:159-161 | only before the thread was released |
| Trace.TraceStopCoordinator.FinishInterrupt | plugin/src/trace_policy.cpp:163-170 | a helper that was not safely retired counts as released |
| Trace.TraceStopCoordinator.ThreadCreated | plugin/src/trace_policy.cpp:172-180 | the helper's own thread, once |
| Trace.TraceStopCoordinator.Resumed | plugin/src/trace_policy.cpp:187-191 | a resume that comes after the pause but before submission returned is not heard |
| Trace.TraceStopCoordinator.PauseCommitted | plugin/src/trace_policy.cpp:193-198 | a pause, and its kind as the fallback reason |
| Trace.TraceStopCoordinator.ProcessExited | plugin/src/trace_policy.cpp:200-204 | an exit settles a submitted trace |
| TraceRuns.InvAfter | plugin/src/trace_policy.cpp:206-210 | in every reachable state an inactive trace has no interrupt in flight and no helper released but unseen, and an active one has steps+1 points within its limit |
| TraceRuns.AdmissionFindsNoHelper | plugin/src/trace_policy.cpp:7-31 | no trace is admitted while a helper of an earlier one could still act |
| TraceRuns.ReservationRetiredBeforeAdmission | plugin/src/trace_policy.cpp:139-170 | between a reservation and a later admission the same ticket's helper was retired |
| TraceRuns.HelperAccountedBeforeAdmission | plugin/src/trace_policy.cpp:149-180 | between the release of a helper thread and a later admission it was seen, safely retired, or the process exited |
| TraceRuns.OncePerTicket | plugin/src/trace_policy.cpp:139-180 | at most one reservation, one issue and one arrival succeed for each admitted ticket |
| TraceRuns.StaleTicketIsInert | plugin/src/trace_policy.cpp:97-170 | a submission, issue, abandonment or retirement with an earlier ticket changes nothing at all |
| TraceRuns.RequestRecorded | plugin/src/trace_policy.cpp:111-147 | a recorded stop request was recorded by one request or deadline of the same ticket, at its time |
| TraceRuns.ReserveAfterGrace | plugin/src/trace_policy.cpp:131-147 | a reservation succeeds only 50 ms or more after the first recorded request of its ticket |
| TraceRuns.EndedStep | plugin/src/trace_policy.cpp:206-210 | a step keeps settled traces ended if and only if it is not an arrival while paused |
| TraceRuns.NoStuckTrace | plugin/src/trace_policy.cpp:101-210 | without such arrivals no settled trace is ever active |
| TraceRuns.StuckExactly | plugin/src/trace_policy.cpp:172-210 | a settled trace is active if and only if such an arrival happened and no resume, pause, exit or own submission came since |
| TraceRuns.LateArrivalIsStuck | plugin/src/trace_policy.cpp:172-180 | a concrete run that ends in such a state |
| TraceRuns.ExitedTraceEnds | plugin/src/trace_policy.cpp:200-204 | after process exit no assumption is needed: submitted and not in flight means ended |
| TraceRuns.FailedRetirementFailsClosed | plugin/src/trace_policy.cpp:163-170 | a failed retirement keeps the trace active under all later events until the process exits |
| TraceRuns.FailsClosed | plugin/src/trace_policy.cpp:163-180 | the state it leaves is kept by every event with nonzero thread ids but the exit |
| TraceRuns.TicketsAccumulate | plugin/src/trace_policy.cpp:88-99 | within one ticket spent rights stay spent, and the first request time stays |
| TraceRuns.SerialCountsAdmissions | plugin/src/trace_policy.cpp:88-95 | the ticket's serial is the number of admissions so far, modulo 2^64 |
| TraceHistory.FlagsAreHistory | plugin/src/trace_policy.cpp:88-204 | in every run each flag of the coordinator, and the issued thread and address, is what certain events since the admission raised or lowered |
| TraceHistory.GrantedExactly | plugin/src/trace_policy.cpp:7-180 | when an admission, a reservation (50 ms after the request, nothing having paused, exited, cooperated or reserved), an issue and an arrival succeed, both ways |
| TraceHistory.WakesInTime | plugin/src/trace_policy.cpp:131-147 | the helper wakes at the first instant at which a reservation does anything, and never again once it can do nothing |
| TraceResults.ResultsMatchHistory | plugin/src/trace_policy.cpp:45-86 | in every run the points are the initial address and the first counted steps; the final reason is the first cause, a timeout giving way to shutdown, else the committed pause, else an interruption; and completed, cancelled, timed out and interrupted are the states of exactly these reasons |
| TraceResults.AdmissionIsKept | plugin/src/trace_policy.cpp:7-43 | a trace keeps its id, mode, limit, deadline, modules and process, and while active it runs if and only if its submission was accepted or a step was made |
| TraceResults.StepAnswers | plugin/src/trace_policy.cpp:120-129 | a step answers to stop if and only if the trace is over or a cause has come up by now, itself included; with a helper issued it answers the native stop; only in the first case the stop counts as cooperative |
| TraceResults.ResultsAreFrozen | plugin/src/trace_policy.cpp:74-86 | a finished trace's results do not change before the next admission |
| Ledger.NewLedger | crates/server/src/operation_ledger.rs:58-67 | a ledger of no capacity or no ttl is refused |
| Ledger.OperationLedger.Begin | crates/server/src/operation_ledger.rs:75-105 | purges, then answers for the id or admits it |
| Ledger.OperationLedger.Complete | crates/server/src/operation_ledger.rs:113-115 | records a result for an id that is there |
| Ledger.OperationLedger.MarkUnknown | crates/server/src/operation_ledger.rs:123-125 | records an unknown outcome for an id that is there |
| Ledger.OperationLedger.AbandonUnstarted | crates/server/src/operation_ledger.rs:135-149 | removes exactly the in-flight admission with this fingerprint |
| Ledger.OperationLedger.SetStatus | crates/server/src/operation_ledger.rs:151-159 | changes status and touched time of one entry |
| Ledger.BeginKeepsCapacity | crates/server/src/operation_ledger.rs:93-95 | no admission exceeds the capacity, whatever was purged |
| Ledger.BeginLeavesOthers | crates/server/src/operation_ledger.rs:78-92 | an admission drops only settled entries untouched for a ttl and changes no other |
| Recorded.ReplayIsFaithfulExactly | crates/server/src/ipc_adapter.rs:461-496 | a replay equals the recorded answer but for the message, if and only if the code is stable and no next action carries an explicit null |
| Recorded.ActionReadsBack | crates/server/src/adapter.rs:13-27 | a serialized next action reads back, explicit nulls becoming absent |
| Recorded.PluginAnswersReplay | crates/server/src/ipc_adapter.rs:256-281 | every answer that a plugin response leads to replays faithfully, and no mutation error says it is safe to retry |
| Recorded.GuidanceIsPlain | crates/server/src/ipc_adapter.rs:384-429 | guidance changes neither the code nor whether a retry is safe |
| Ipc.RequestRing.RememberAbandonedRequest | crates/server/src/ipc_adapter.rs:61-68 | the ring gains the id and forgets its oldest when full |
| Ipc.RequestRing.ConsumeAbandonedResponse | crates/server/src/ipc_adapter.rs:70-79 | removes the id if it is remembered |
| Ipc.RequestRing.AwaitResponse | crates/server/src/ipc_adapter.rs:211-218 | the read loop drops responses of remembered requests until another comes |
| Correlation.ReadLoopIsItsSteps | crates/server/src/ipc_adapter.rs:211-218 | a call's read steps in the state machine come to what the loop does |
| Admissions.LedgerStep | crates/server/src/ipc_adapter.rs:128-288 | every step of every call keeps: bounded ledger, unfinished calls own their in-flight entry alone, in-flight entries are owned, completed entries hold an answer that was given |
| Admissions.LedgerAfter | crates/server/src/operation_ledger.rs:75-159 | so in every interleaving the ledger holds at most 1024 entries and these facts hold |
| AtMostOnce.FramesNeedAQuietTtl | crates/server/src/ipc_adapter.rs:139-219 | two request frames of one operation id are only written if some touch of its entry between them came a ttl after everything that had happened to the id |
| AtMostOnce.LogStep | crates/server/src/operation_ledger.rs:75-105 | the invariant behind it, kept by every step |
| CallResults.SafeToRetryWroteNothing | crates/server/src/ipc_adapter.rs:146-202 | a mutation that reports an error as safe to retry has written no frame |
| CallResults.AnsweredWasSentOnce | crates/server/src/ipc_adapter.rs:208-219 | a mutation that waits for its answer, or has it, has written exactly one frame |
| CallResults.InFlightExactly | crates/server/src/ipc_adapter.rs:189-288 | an entry is in flight if and only if an admitted call of exactly that operation is unfinished |
| CallResults.InFlightUntilDone | crates/server/src/operation_ledger.rs:78-80 | no admission and no ttl takes an in-flight entry away before its call is done |
| CallResults.FinishedCallSettles | crates/server/src/ipc_adapter.rs:189-288 | the end of a call leaves its id settled or removed |
| CallResults.CancelledIdStaysInFlight | crates/server/src/ipc_adapter.rs:312-318 | the id of a cancelled mutation is in flight in every later state |
| CallResults.CancelledRunStaysBusy | crates/server/src/ipc_adapter.rs:312-318 | a concrete run from the start, begun, admitted and cancelled, after which the id is in flight whatever else happens |
| CallResults.RepeatsTheLatestAnswer | crates/server/src/ipc_adapter.rs:139-145 | a call that is answered from the ledger gets the latest answer that any call got to its operation id, and that call had the same arguments; only the message may differ |
| CallResults.RepeatsAnAnswer | crates/server/src/ipc_adapter.rs:145 | in every later state a replayed answer is one that a call of the same operation and arguments got, but for the message |
| CallResults.LedgerNeverFails | crates/server/src/ipc_adapter.rs:282-287 | completing or abandoning an admitted operation never finds its entry missing |
| AdmissionAnswers.BeginAnswers | crates/server/src/ipc_adapter.rs:139-186 | in every interleaving, what a mutation is told by what happened to its id: conflict, busy, the answer again, unknown outcome, full or admitted, each exactly when the last admitted call of the id, its end and the time of its last use say so |
| AdmissionAnswers.BusyExactly | crates/server/src/ipc_adapter.rs:147-163 | busy if and only if an unfinished call has the same operation id and arguments |
| AdmissionAnswers.LedgerIsHistory | crates/server/src/operation_ledger.rs:75-159 | every entry, or its absence, is what the calls of its id came to |
| CallAnswers.EndsExactly | crates/server/src/ipc_adapter.rs:189-288 | a call that is done was refused at once or ended by one step, in the failure that step means or in the plugin's answer: its result, or an error with its code if it is a stable one, its message among the details, and the flags and guidance that go with it, field by field |
| CallAnswers.ReadyExactly | crates/server/src/ipc_adapter.rs:81-103 | the adapter is ready if and only if no call has lost its connection, passed its deadline or met a foreign response |
| CallAnswers.SafeExactly | crates/server/src/ipc_adapter.rs:146-288 | a mutation is safe to retry if and only if it was busy, found the ledger full or the adapter not ready; a read also if it lost touch or the plugin says so |
| Correlation.HolderStep | crates/server/src/ipc_adapter.rs:208-219 | whatever the plugin does, one call at a time is in its exchange |
| RequestMemory.NothingForgottenExactly | crates/server/src/ipc_adapter.rs:61-79 | the ring has forgotten no id if and only if at no time more than 64 requests had been given up whose responses were not read yet |
| Correlation.UnforgottenAreOwn | crates/server/src/ipc_adapter.rs:207-254 | with a plugin that answers each frame once and in order, and a ring that forgot no id, every finished exchange has the response to its own request and no call ends in a mismatch or a broken connection |
| Correlation.ResponsesAreOwn | crates/server/src/ipc_adapter.rs:207-254 | the same from what a caller can count: at most 64 given-up requests without a response at any time |
| Correlation.MismatchExactly | crates/server/src/ipc_adapter.rs:211-218 | until something went wrong, a read takes a foreign response for its own if and only if its id fell out of the ring |
| Correlation.WireAfter | crates/server/src/ipc_adapter.rs:61-79 | every unread response is the reader's, or its call is over and its id is remembered or fell out |
| EventStream.EventStream.Enqueue | plugin/src/event_stream.cpp:124-137 | a full queue drops its oldest event; out of memory counts as a drop |
| EventStream.EventStream.Take | plugin/src/event_stream.cpp:163-196 | a pending gap goes out before any event |
| EventStream.EventStream.Restore | plugin/src/event_stream.cpp:197-212 | what could not be written goes back to the front or to the counter |
| EventStream.EventStream.RequestStop | plugin/src/event_stream.cpp:223-227 | from now on events are refused and nothing is handed out, but nothing is dropped yet |
| EventStream.EventStream.FinishStop | plugin/src/event_stream.cpp:239-241 | queue and drop counter are cleared |
| EventStream.DeliveryInOrder | plugin/src/event_stream.cpp:163-212 | written events are accepted ones in order, and everything accepted before a written one was written or is counted in a written gap |
| EventStream.Conservation | plugin/src/event_stream.cpp:124-241 | accepted = written + reported + dropped + in hand + queued + discarded, at every step, and only stopping discards |
| EventStream.NothingWaits | plugin/src/event_stream.cpp:163-196 | when the worker has nothing to take, every event accepted so far was written or reported |
| EventStream.LimitStep | plugin/src/event_stream.cpp:203-206 | the queue passes 4096 if and only if a failed write gives an event back to a full queue |
| EventStream.WithinLimit | plugin/src/event_stream.cpp:124-137 | without that it never passes the limit |
| EventStream.PastLimitGrows | plugin/src/event_stream.cpp:129-132 | past the limit nothing is evicted any more |
| EventStream.QueuePassesLimit | plugin/src/event_stream.cpp:129-206 | for every n a run from the start after which 4097+n events are queued |
| AuditTail.CompleteTailLength | crates/server/src/audit_log.rs:764-781 | reading blocks from the end finds the longest newline-terminated prefix, for every file |
| AuditTail.CompleteRecordsSurvive | crates/server/src/audit_log.rs:647-649 | recovery drops no complete record, and only a torn tail |
| AuditStore.OpenStore | crates/server/src/audit_log.rs:607-690 | opens over the backups and the complete part of the active file, with a header if that is empty, and prunes |
| AuditStore.Store.Append | crates/server/src/audit_log.rs:715-761 | rotates when the line does not fit, then writes it; a line that fails is not counted, whatever it leaves |
| AuditStore.Store.Rotate | crates/server/src/audit_log.rs:721-742 | the full file becomes a backup and a new active file begins |
| AuditStore.Store.StartSegment | crates/server/src/audit_log.rs:692-742 | a fresh segment, its header, and then the pruning; a header that fails leaves what was written of it, uncounted |
| AuditStore.Store.Prune | crates/server/src/audit_log.rs:707-713 | removes oldest segments until a removal fails or few enough are left |
| AuditStore.AppendKeeps | crates/server/src/audit_log.rs:692-761 | whatever fails and whatever failed writes leave, files are those of the retained segments, which are the latest of all there were, and hold whole records unless a failed write left bytes there; contents only grow at the end, and the whole log gains exactly what was written of header and line |
| AuditStore.RotatesExactly | crates/server/src/audit_log.rs:720-742 | an append begins a segment if and only if the line does not fit the rotation limit and more than 256 bytes are recorded and the files can be switched; then exactly the oldest segments go that are too many, else no segment comes or goes |
| AuditStore.SucceedsExactly | crates/server/src/audit_log.rs:715-761 | an append succeeds if and only if everything it needs does, and only then counts an oversized line |
| AuditStore.FittingLineExactly | crates/server/src/audit_log.rs:743-760 | a line that fits goes to the end of the active file and no other file changes |
| AuditStore.RotatingLineExactly | crates/server/src/audit_log.rs:721-760 | a line that does not fit is alone behind the header of a new file, the old one is a backup, and the other files are unchanged or gone |
| AuditStore.PrunedExactly | crates/server/src/audit_log.rs:707-713 | pruning removes exactly the oldest segments that are too many, as far as they can be removed |
| AuditStore.LengthsExactly | crates/server/src/audit_log.rs:692-761 | after any append the recorded length of a retained segment is its file's if and only if no failed write, of this append or an earlier one, has left bytes in it |
| AuditStore.UnsyncedHeaderIsNotCounted | crates/server/src/audit_log.rs:701-703 | after a header that was written and not synced the next line is accepted behind it, and only the line is counted |
| AuditStore.BoundedExactly | crates/server/src/audit_log.rs:707-761 | after a successful append at most backups+1 segments remain if and only if no more were there before or it had to rotate: more than 256 bytes recorded and too little room for the line |
| AuditStore.SegmentsStaySmall | crates/server/src/audit_log.rs:720-742 | a segment outgrows the rotation limit only by one line next to a header or to the 256 bytes below which nothing is rotated |
| AuditStore.HeaderFailureLeavesTooMany | crates/server/src/audit_log.rs:735-741 | a failed header write leaves one segment too many and the next append succeeds all the same |
| AuditStore.OpenEstablishes | crates/server/src/audit_log.rs:616-690 | opening over a directory of backups and an active file gives at most backups+1 segments in order, with all lengths those of the files |
| AuditStore.OpensExactly | crates/server/src/audit_log.rs:607-690 | a store opens if and only if its active file has a record or its header can be written, and what is too many can be removed; it has the newest backups and the complete part of the active file |
| AuditStore.CrashLeavesADirectory | crates/server/src/audit_log.rs:616-690 | what a store leaves that crashes at any time, with a line half written, is such a directory |
| AuditReader.ReadPage | crates/server/src/audit_log.rs:455-488 | one page: bytes within budget and snapshot, cut to whole characters and then to records |
| AuditReader.AdvanceEmptySegments | crates/server/src/audit_log.rs:557-565 | moves over segments that are read to their end |
| AuditReader.CompleteRecords | crates/server/src/audit_log.rs:470-483 | ends after the last of at most `limit` records, or nowhere if there is none, and counts them |
| AuditReader.CutIsPageEnd | crates/server/src/audit_log.rs:470-483 | that end is after a newline, within the limit, and no earlier than the limit forces |
| AuditReader.PrefixIsUsable | crates/server/src/audit_log.rs:464-469 | text cut anywhere is decoded but for at most three bytes |
| AuditReader.UsableExactly | crates/server/src/audit_log.rs:464-468 | bytes are refused if and only if nothing could follow that makes them text; else exactly their longest valid start is used |
| AuditReader.AdvancingSkipsNothing | crates/server/src/audit_log.rs:557-565 | advancing loses no byte that is left to read, and none of what is left becomes or ceases to be text |
| AuditReader.PageIsPiece | crates/server/src/audit_log.rs:459-530 | whatever the file holds, a page is the start of what is left of it, valid UTF-8 and within the record limit, labelled with the cursor's segment, offset and start; if what is left is text there is a page and it is not empty |
| AuditReader.PageIsMaximal | crates/server/src/audit_log.rs:459-483 | a page of text goes on to the record limit or the last newline that budget and snapshot have room for, and without one to within three bytes of the room |
| AuditReader.PageIsLocated | crates/server/src/audit_log.rs:484-530 | the text of a page is at the offset it names, and it says that it starts or ends inside of a line exactly if it does, empty pages of cut characters aside |
| AuditReader.CutCharacterIsEmpty | crates/server/src/audit_log.rs:464-490 | a character cut by the end of the recorded length gives an empty page, and the next cursor is at the same place |
| AuditReader.PageIsNext | crates/server/src/audit_log.rs:486-490 | a page and what the next cursor has left are together what the cursor had left, and the one is text if and only if the other is |
| AuditCursors.CursorTable.Publish | crates/server/src/audit_log.rs:493-514 | gives the successor it gave before or a fresh cursor, and expires the oldest beyond 512 |
| AuditCursors.PublishedKeeps | crates/server/src/audit_log.rs:493-514 | map and order hold the same ids, the last ones given out; successors are injective between live cursors, and live cursors never change |
| AuditCursors.PublishedIsRemembered | crates/server/src/audit_log.rs:493-504 | the next request for the same page finds the same cursor |
| AuditCursors.LiveExactly | crates/server/src/audit_log.rs:498-512 | a cursor is live if and only if it was given out and fewer than 512 were given out after it |
| AuditCursors.Bounded | crates/server/src/audit_log.rs:505-512 | so there are at most 512 cursors and at most 512 successors |
| AuditPaging.ReadLog | crates/server/src/audit_log.rs:399-530 | the whole read, with its checks in the source's order |
| AuditPaging.ReadGives | crates/server/src/audit_log.rs:425-529 | a read returns the next piece of what its cursor had left; a cursor has expired if and only if 512 were given out after it or its next segment is gone; the log cannot be read only if the file cannot or what is left is not all text |
| AuditPaging.Defaults | crates/server/src/audit_log.rs:409-417 | a request without limits is one for 50 records and 65536 bytes |
| AuditPaging.ReadingIsFaithful | crates/server/src/audit_log.rs:425-529 | with any limits and anything appended, rotated or read in between, the pages are the start of the retained files as recorded at the first read; they are all of it only if that is text, and the reading fails only for an expired cursor or if it is not |
| AuditPaging.ReadingEnds | crates/server/src/audit_log.rs:486-490 | with more pages asked for than bytes the reading is complete if and only if what was recorded is text and at every read fewer than 512 cursors came after its own and its next segment was there |
| AuditPaging.UndamagedReadingEnds | crates/server/src/audit_log.rs:425-529 | if no failed write has left bytes in a retained segment, a complete reading is the files themselves |
| AuditPaging.ExpiresExactly | crates/server/src/audit_log.rs:425-447 | a reading stops for an expired cursor if and only if at some read 512 cursors had come after its own or its next segment was gone |
| AuditPaging.CursorOutlives | crates/server/src/audit_log.rs:498-512 | a cursor outlives, unchanged, any run with too few reads to give out 512 cursors after it |
| AuditPaging.UnsyncedHeaderCutsText | crates/server/src/audit_log.rs:701-703 | a concrete header and line for which what is recorded after an unsynced header is no text |
| AuditPaging.RepeatedPageIsSame | crates/server/src/audit_log.rs:491-514 | a page asked for again at any later time is the same page with the same next cursor while both cursors live, except that it has expired if its segment is gone |
| AuditPaging.TableStaysBounded | crates/server/src/audit_log.rs:499-512 | in every run of appends and reads |
| AuditPaging.FilesAreTheTail | crates/server/src/audit_log.rs:707-761 | the retained files are the end of everything ever appended |
| AuditPaging.ClosedSegmentsAreFull | crates/server/src/audit_log.rs:720-742 | in every run a segment is closed only when it is longer than 256 bytes and the next line does not fit |
| AuditPaging.OpenStartsAWorld | crates/server/src/audit_log.rs:672-689 | an opened store satisfies what these theorems assume |
| AuditPaging.CrashLosesNothing | crates/server/src/audit_log.rs:616-690 | a store that crashes with a line half written opens with all its retained contents, unless failed writes left bytes in its active file |
| Utf8.IsValidUtf8 | plugin/src/utf8.cpp:117-124 | accepts exactly what is read by valid sequences |
| Utf8.ValidIffEncoding | plugin/src/utf8.cpp:16-51 | valid means exactly: the encoding of some sequence of Unicode scalar values (sections 3 and 4 of RFC 3629) |
| Utf8.StartIsBoundary | plugin/src/utf8.cpp:14-51 | in valid text every byte that is no continuation byte starts a character |
| JsonString.Encode | plugin/src/utf8.cpp:93-115 | the loop writes the token of the specification |
| JsonString.RoundTrip | plugin/src/utf8.cpp:53-115 | reading the token as a JSON string (section 7 of RFC 8259) gives the input with each byte that starts no valid sequence replaced by U+FFFD |
| JsonString.RoundTripIsIdentityExactlyOnUtf8 | plugin/src/utf8.cpp:93-115 | it gives the input back if and only if that is valid UTF-8 |
| JsonString.TokenIsValid | plugin/src/utf8.cpp:93-115 | the token is valid UTF-8 of at most 6n+2 bytes |
| JsonString.TokenIsShortest | plugin/src/utf8.cpp:53-115 | no JSON string that reads as the same text is shorter than the token |
| JsonString.SanitizedIsValid | plugin/src/utf8.cpp:99-112 | replacing makes any bytes valid and leaves valid ones alone |
| ContextWindow.ContextAroundMatch | plugin/src/utf8.cpp:187-219 | the three parts are one slice around the match, from the first character that starts in the window to the last that ends in it; they are valid if and only if the match is nonempty, starts on a character, or nothing precedes it; at most three bytes of room stay unused |
| ContextWindow.LeftSide | plugin/src/utf8.cpp:197-201 | when the left part splits no character, both ways |
| ContextWindow.RightSide | plugin/src/utf8.cpp:202-204 | the right part never splits one and falls short by at most three bytes |
| ContextWindow.EmptyMatchSplitsCharacter | plugin/src/utf8.cpp:192-201 | an empty match inside a character is accepted and splits it |
| LaunchArguments.QuoteWindowsArgument | plugin/src/launch_arguments.cpp:32-54 | the backslash-counting loop writes the quoted form |
| LaunchArguments.RenderWindowsArguments | plugin/src/launch_arguments.cpp:56-73 | renders exactly the lists of at most 32 arguments, each valid, free of controls and of at most 256 bytes, with 512 bytes together and 768 rendered |
| LaunchArguments.ControlsExactly | plugin/src/launch_arguments.cpp:10-30 | text is free of controls if and only if none of the characters it encodes is one |
| LaunchArguments.TotalIsSum | plugin/src/launch_arguments.cpp:56-65 | the bytes counted are those of all arguments together |
| LaunchArguments.EscapeX64dbgCommandArgument | plugin/src/launch_arguments.cpp:75-83 | escapes backslashes and quotes |
| LaunchArguments.BuildInitCommand | plugin/src/launch_arguments.cpp:99-107 | the command with three quoted fields, if it fits the buffer |
| LaunchArguments.SplitJoined | plugin/src/launch_arguments.cpp:32-73 | splitting a rendered command line by the CommandLineToArgvW rules gives back the list |
| LaunchArguments.InitRoundTrip | plugin/src/launch_arguments.cpp:75-107 | the three fields of the command are recovered by unescaping |
| LaunchArguments.EscapedIsShortest | plugin/src/launch_arguments.cpp:75-83 | no shorter field reads as the same value |
| LaunchArguments.LaunchRoundTrip | plugin/src/launch_arguments.cpp:32-107 | so the arguments survive both layers |
| Patches.NormalizeTrackedPatches | plugin/src/patch_policy.cpp:62-92 | succeeds exactly for at most 65536 real patches at distinct addresses, the top address included |
| Patches.NormalizableExactly | plugin/src/patch_policy.cpp:62-90 | at most 65536 records, each with a module and a changed byte, and no address twice |
| Patches.DistinctIffStrict | plugin/src/patch_policy.cpp:65-90 | addresses are distinct if and only if the sorted ones strictly ascend |
| Patches.NormalForm | plugin/src/patch_policy.cpp:62-92 | the ranges are ordered, disjoint, maximally merged, and flatten to a permutation of the input |
| Patches.OrderDoesNotMatter | plugin/src/patch_policy.cpp:65-68 | neither success nor result depends on the order of the input |
| Patches.CanonicalIsUnique | plugin/src/patch_policy.cpp:75-90 | such ranges are determined by their bytes |
| Conditions.CompileConditionalExpression | plugin/src/breakpoint_policy.cpp:314-360 | accepts exactly the well-formed specifications and never needs more than 150 characters |
| Conditions.CompilableExactly | plugin/src/breakpoint_policy.cpp:322-350 | which predicates compile, for each source its names, operators and values |
| Conditions.NoLeadingZero | plugin/src/breakpoint_policy.cpp:89-95 | constants are written without leading zeros |
| Conditions.CompilationPreservesMeaning | plugin/src/breakpoint_policy.cpp:314-360 | the text, parsed and evaluated by itself with its own connectives, never divides by zero and means what the predicates mean in their mode, in every state of the debuggee |
| Conditions.TermReads | plugin/src/breakpoint_policy.cpp:347-353 | each term parses back to its predicate |

## Left out

- TraceRuns.OncePerTicket: runs of fewer than 2^64 events, because the ticket serial wraps; deadline reservations at the clock's maximum are excluded as well.
- TraceRuns.ReserveAfterGrace: the same two limits; the sum of request time and grace is assumed not to overflow the clock.
- Correlation.ResponsesAreOwn: assumes the plugin answers in order, transfers complete and at most 64 given-up requests wait for their responses, as the adapter does; MismatchExactly and NothingForgottenExactly are the general statements.
- AuditPaging.CrashLosesNothing: for an active file without bytes of failed writes; recovery cuts such bytes back to the last newline as it does with a torn line.
- Allocation failure inside `TracePolicy::Start`, and the observers of a trace (modules, names, status output).
- `TraceHelperAllowsMutation`, the runtime that calls the trace classes, and its threads: each call is one event under the trace lock.
- A frame is written or read whole; a call that is cancelled or times out releases the stream and remembers its request in one step; reading the ledger's clock and taking its lock is one step.
- Lock poisoning, malformed operation ids, and arguments that cannot be fingerprinted: such calls fail before the ledger.
- Message and guidance texts of errors that are not recorded (busy, conflict, timeout and the like); only whether they are safe to retry is modelled.
- JSON text; recorded answers are JSON values, and a structure given as an array of its fields is not decoded.
- The deadline sent with a request (`unix_deadline_ms`, `plugin_execution_budget`).
- The position of the file handle: a line whose failed write was cut off but after which the seek back fails, so that the next line would leave a gap. A rename, creation or removal happens or does not.
- Directory listing order by modification time is given as the order of segments; the id in the first line of the active file is a parameter.
- Redaction, the record queue in front of the log writer, counters, event waits and flushing.
- Wrap-around of the event stream's 64-bit drop counter, its handshake, and the worker's last-resort handler, which would count what is queued and lose an event in hand.
- MAX_CONDITIONAL_EXPR_SIZE is 256 here; the header that defines it is not part of this repository.
- Case-insensitive search, conversion to UTF-16, `HasPifExtension` beyond its role in guidance, patch fingerprints and breakpoint matching.
- The debugger executor, command fence, memory search, PE parsing, tool schemas, the controller and all transport plumbing: mostly one-branch checks or operating system calls.
