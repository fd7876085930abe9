# Verification of AXP jobs, logs, streaming, discovery and capabilities

This project models the core of the AXP runtime in Dafny 4.11 and proves properties of the model.  It covers
five parts of the repository:

- **Jobs and their log streams.** A writer task drains a child process into an append-only log, writes a terminal
  status and notifies; any number of readers attach at arbitrary offsets, drain under the job lock and park on a
  wake handle; cancellers race with the finisher over one table; sessions open, close and keep audit logs.  The
  concurrent parts are state machines over atomic steps cut at lock and await boundaries, and the theorems hold of
  every reachable state or every run.  The logs, the reader and the drain loop also appear as classes and methods with
  loops, proved against the functions that the state machines use.  The stores and the engine appear as classes with
  specifications of their own: `JobEngines` describes single calls, `Lifecycle` the interleaving of their lock-step
  pieces, with jobs and sessions named by index instead of by id, and no lemma relates the two.
- **The durable log.** The binary frame format, its decoder, truncation, reopening, and the refinement of the
  in-memory log by the file-backed one.
- **The event stream.** The incremental decoder of the client against a reference over the whole body, for every
  way of cutting the body into chunks, and the round trip from the printed stream.
- **Discovery.** The registry's incremental bare-to-qualified promotion against a closed form, for every run of
  registrations, and the equality of what a session can discover with what it can run.
- **Capabilities.** The grammar, its printer, and the order that `permits` decides on strings.

`dafny verify dfyconfig.toml` checks everything.

## Reading order

| file | content |
|---|---|
| `Prelude`, `LittleEndian`, `Timestamp`, `FrameCodec` | machine ranges, byte order, the (seconds, nanoseconds) pair, one frame |
| `ReplayLog`, `DurableLog` | the log in memory; the log in a file |
| `JobModel`, `LogStreaming`, `JobLogStreams`, `DrainLoop` | jobs; readers and writer as steps; the reader and the writer as code |
| `Lifecycle`, `LifecycleTheorems`, `CodeJob` | sessions, jobs, cancellation and audit over whole runs; cancelling a code job |
| `JobStores`, `Sessions`, `JobEngines` | the two stores and the engine as objects |
| `SseDecoder`, `SseStream`, `Attach` | decoding, chunking and printing the event stream; resuming it |
| `Registry`, `Registration`, `Providers`, `Discovery` | the catalog, registration runs, the two providers, discovery against execution |
| `Capability` | grammar and order |

How the model reads the source:

- `Notify` is a counter of `notify_waiters` calls: `enable()` remembers its value, and a parked reader is woken once
  it has moved on.  The writer's append and its notify are two steps, as are the status write and its notify.
- A pipe is the finite list of reads it will yield; which select arms are ready at each poll is an arbitrary schedule.
- JSON decoding is an arbitrary partial function on bytes.  What the server writes is any list of blocks
  `id:…`/`data:…`/blank line, with LF or CRLF ends and comments between; the JSON text may start with a space, as the
  decoder keeps it.
- The disk is a byte string; one append ends in one of three ways: written and synced, not written, or written and
  then not synced.
- The description check is an arbitrary predicate on name and description; a provider's index may list its table in
  any order.
- Base64, the canonical working directory, the sandbox and the spawn enter `JobEngines` as outcomes.

## What the code does not keep

Each of these is a lemma below; where there is an exact condition, it is an if-and-only-if.

- `cancel` returning `ok: true` does not imply a final `Killed` (`CancelOkNeedNotMeanKilled`).  It does exactly if the
  log does not overflow and the drain loop still looks for a signal after the cancel, or a signal ends the child
  anyway (`CancelKillsExactly`).  Told from the state at the cancel, that is whether the job has left its loop
  (`CancelKillsExactlyBeforeTheLoopEnds`), except between the two halves of one poll, where both ends are possible
  (`CancelInsideAPollIsOpen`).
- `SessionClosed` need not be the last audit event (`SessionClosedNeedNotBeLast`); once it is recorded, the log is
  final exactly when no task still holds the session handle to write (`AuditFinalAfterCloseExactly`).
- A local name containing `:` can overwrite the qualified entry of another provider (`ColonNameLosesACapability`).  A
  `register` call keeps the closed form exactly if none of its listings takes a catalog key that is in use or that an
  earlier listing of the same call takes, reckoned from the tables before the call
  (`RegisterKeepsClosedFormExactly`); over a run, the catalog is the closed form, and no accepted capability is lost,
  exactly if that held of every accepted call (`CatalogIsClosedFormExactly`).  The order in which a provider lists its
  names can matter, because a promotion gives a key up.
- An append that fails at `sync_data` leaves the file ahead of memory, and the next good append then makes the file
  impossible to open (`ConsistencyNeedsSync`, `UnsyncedAppendThenAppendCorrupts`).
- A log file cut to length zero reopens silently as a fresh log; every other cut off a frame boundary is refused
  (`OpenAfterTruncation`).
- A frame whose seconds are the least `i64` decodes but cannot be encoded (`DecodingIsCanonical`).
- `Last-Event-ID: k` resumes at frame `k` itself, so that frame comes twice (`ReattachOverTheWire`).
- If the two halves of one biased select poll are not one atomic step, a cancelled code job can be reported `Failed`
  (`SplitPollCanReportCancelAsFailed`), exactly when the signal was sent after the last poll had looked for it
  (`CancelledRunKilledExactly`); if they are, it never is (`AtomicPollNeverReportsCancelAsFailed`).
- Inserting a job under the id of a live one makes the two job indices disagree (`AgreementKeptExactly`).

Two disagreements between code and documentation: `cancel_for_session` says that the session-close path should call
it (`crates/axp-core/src/job/engine.rs:763-771`), and `session_close` does not
(`crates/axp-transport/src/handlers.rs:149-160`); job-level capabilities are described as an attenuation
(`crates/axp-proto/src/job.rs:55`), but they are only checked, and the sandbox policy is built from the session's
grants (`crates/axp-core/src/job/engine.rs:308`).

## Model

| member | source | states |
|---|---|---|
| Timestamp.EncodeIsFloorDivision | crates/axp-core/src/job/log.rs:626-655 | The hand-made borrow before the epoch is floor quotient and remainder by 10^9; encoding succeeds exactly when the quotient lies in [-(2^63-1), 2^63-1]. |
| Timestamp.DecodeIsFloorInverse | crates/axp-core/src/job/log.rs:657-700 | A pair is accepted exactly when its nanos are below a second, and gives the instant with that floor quotient and remainder. |
| Timestamp.TimestampRoundTrip | crates/axp-core/src/job/log.rs:626-700 | Every encodable instant, on both sides of the epoch, decodes to itself. |
| LittleEndian.FromToLE | crates/axp-core/src/job/log.rs:470-484 | A number that fits its width is recovered from its little-endian bytes. |
| LittleEndian.ToFromLE | crates/axp-core/src/job/log.rs:565-587 | Bytes are recovered from the number they denote, so no two byte strings of a width read alike. |
| LittleEndian.FromLEWeighs | crates/axp-core/src/job/log.rs:565-587 | A byte added behind weighs 256 to the number of bytes before it: least significant byte first. |
| ReplayLog.AppendKeepsLogWellFormed | crates/axp-core/src/job/log.rs:176-194 | An append is refused exactly when it would pass the byte cap, and then changes nothing; otherwise it adds the event with its stream, bytes and time under the next sequence number, keeps the byte count exact and wakes waiters. |
| ReplayLog.SinceIsBySequenceNumber | crates/axp-core/src/job/log.rs:163-166 | Slicing by position is selecting by sequence number: exactly the events numbered at or after the offset, also past the end. |
| ReplayLog.InMemoryReplayLog.Append | crates/axp-core/src/job/log.rs:176-194 | The object's whole new state and result, as the append function that the step systems and the file log refer to. |
| FrameCodec.EncodeFrameIsFrame | crates/axp-core/src/job/log.rs:465-487 | Encoding succeeds exactly when timestamp and length fit, and then writes the frame of the numbered event. |
| FrameCodec.TagsExactly | crates/axp-core/src/job/log.rs:607-624 | One and two are the stream tags and decode to their streams; any other tag is refused and named. |
| FrameCodec.MagicIs | crates/axp-core/src/job/log.rs:489-498 | The file header is the text `AXPJOBLOG1` and a line feed. |
| FrameCodec.FrameLayout | crates/axp-core/src/job/log.rs:465-487 | Where each field of a frame lies and what its bytes denote, tag values included. |
| FrameCodec.ReadHeaderIsCanonical | crates/axp-core/src/job/log.rs:501-509 | Header bytes that parse are the print of the header they parse to. |
| FrameCodec.AcceptedFrameIsCanonical | crates/axp-core/src/job/log.rs:500-549 | Bytes accepted as a frame are, byte for byte, the frame of the event they yield, numbered as expected and within the cap. |
| FrameCodec.FrameParses | crates/axp-core/src/job/log.rs:500-549 | The frame of any writable event parses to it at any offset, or is refused as overflow exactly when it passes the cap. |
| FrameCodec.CutFrameRefused | crates/axp-core/src/job/log.rs:500-605 | A frame cut at any byte is refused as truncated. |
| DurableLog.DecodeFile | crates/axp-core/src/job/log.rs:489-553 | The one-pass loop with a moving offset computes the recursive specification of the file format, first error included. |
| DurableLog.DecodeAcceptsExactlyPrintedLogs | crates/axp-core/src/job/log.rs:489-553 | A file decodes to given events if and only if it is the magic followed by their frames 0..n within the cap; a printed log over the cap is refused as overflow. |
| DurableLog.DecodingIsCanonical | crates/axp-core/src/job/log.rs:465-553 | Accepted bytes re-encode to themselves exactly when no timestamp has the least `i64` second. |
| DurableLog.DecodingIsInjective | crates/axp-core/src/job/log.rs:489-553 | Two files that decode alike are the same file. |
| DurableLog.TruncationIsNeverSilent | crates/axp-core/src/job/log.rs:489-605 | Every prefix holding the magic either ends between frames and decodes to exactly the whole frames before it, or is refused as truncated. |
| DurableLog.BoundaryExactly | crates/axp-core/src/job/log.rs:489-605 | The boundaries it speaks of are exactly the lengths of some whole number of frames, and that number is the one decoded. |
| DurableLog.FileAppendRefinesMemoryAppend | crates/axp-core/src/job/log.rs:309-337 | On a consistent file the file log's append equals the memory log's exactly when the event is refused by the cap or storable; otherwise it fails and changes nothing; consistency is kept. |
| DurableLog.ReopenRestores | crates/axp-core/src/job/log.rs:241-298 | Reopening gives back the same events, byte count, cap and file. |
| DurableLog.ConsistencyNeedsSync | crates/axp-core/src/job/log.rs:309-337 | Over the three disk outcomes, file and memory stay consistent in all cases but an accepted append that was written and not synced; the append succeeds exactly if it is accepted and written; a failed one leaves memory alone. |
| DurableLog.UnsyncedAppendThenAppendCorrupts | crates/axp-core/src/job/log.rs:309-337 | After that case the next good append succeeds and the file no longer opens, with the exact error. |
| DurableLog.OpenAfterTruncation | crates/axp-core/src/job/log.rs:241-298 | Opening a cut file succeeds exactly at length zero, as a silent fresh log, or on a frame boundary, with a prefix of the events. |
| DurableLog.DurableRunRefinesMemoryRun | crates/axp-core/src/job/log.rs:241-354 | Over any run of appends, refused appends and reopenings, no reopening fails, every result equals the memory log's, and the file stays the print of the contents. |
| DurableLog.FreshFileIsConsistent | crates/axp-core/src/job/log.rs:256-277 | A new file is the magic alone and starts such a run. |
| DurableLog.FailedOpenIsHarmless | crates/axp-core/src/job/log.rs:241-298 | Whatever call on the file fails while opening, a later opening gives what this one would have given; the failures of the calls are I/O errors, and an opening without failure gives the decoded log. |
| DurableLog.FileReplayLog.WithCap | crates/axp-core/src/job/log.rs:241-298 | Opening as code: file and result after a failure of each call on the file, after a decoding error, and after success. |
| DurableLog.FileReplayLog.Append | crates/axp-core/src/job/log.rs:309-337 | Appending as code, with file and memory state after each disk outcome. |
| LogStreaming.ApplyKeepsInv | crates/axp-core/src/job/engine.rs:916-946 | Every step of writer and readers keeps the protocol invariant: log well formed, status and writer phase agree, every reader exact and missing nothing unannounced. |
| LogStreaming.RunKeepsInv | crates/axp-core/src/job/engine.rs:916-946 | So does every run, with any number of readers. |
| LogStreaming.NoLostWakeup | crates/axp-core/src/job/engine.rs:916-946 | A parked reader that is not woken and is owed no notify has read and delivered everything of a running job. |
| LogStreaming.DeliveryIsExact | crates/axp-core/src/job/engine.rs:831-946 | In every reachable state, delivered plus queued frames are the log slice from the attach offset to the cursor, numbered without gap or repeat. |
| LogStreaming.DeliveredFramesCarryTheLog | crates/axp-core/src/job/engine.rs:884-897 | Each frame handed to a client carries the job's id and the number, stream and bytes of the very event it stands for, with its time in milliseconds, zero before the epoch. |
| LogStreaming.AttachDeliversFromTheOffset | crates/axp-core/src/job/engine.rs:831-844 | A reader attached at any offset in any state, and over every continuation, is handed a prefix of the log from exactly that offset, and all of it once it has ended. |
| LogStreaming.PushAppendsExactly | crates/axp-core/src/job/log.rs:176-194 | A writer's chunk that fits becomes the next event with its own stream, bytes and time, and owes a notify; one that does not changes nothing. |
| LogStreaming.FinalStatusStays | crates/axp-core/src/job/engine.rs:699-705 | The status a job finishes with is the one every later state shows. |
| LogStreaming.EndMeansAllDelivered | crates/axp-core/src/job/engine.rs:935-937 | A reader has returned `None` only when the job is terminal and it delivered the whole final log from its offset, also an offset past the end. |
| LogStreaming.TerminalIsFrozen | crates/axp-core/src/job/engine.rs:686-705 | From a terminal status on, status and log never change; before it the log only grows. |
| LogStreaming.OwnStepProgresses | crates/axp-core/src/job/engine.rs:916-946 | After the final notify a reader that has not ended always has an enabled step, and every step of its own, also an abandoned wait, lowers a measure of what is left. |
| LogStreaming.EveryReaderEnds | crates/axp-core/src/job/engine.rs:699-705 | After the final notify, in every run in which a reader takes as many steps of its own as a bound linear in its undelivered frames, and whatever other readers do in between, it passes `None` with everything delivered. |
| LogStreaming.ResumeIsSeamless | crates/axp-core/src/job/engine.rs:831-844 | Attaching at k+1 after frame k concatenates to the uninterrupted stream; attaching at k repeats exactly that frame. |
| JobLogStreams.JobLogStream.DrainLog | crates/axp-core/src/job/engine.rs:925-934 | The locked loop over the replayed events computes the drain step of the protocol. |
| JobLogStreams.JobLogStream.Refill | crates/axp-core/src/job/engine.rs:919-945 | Registering, draining and deciding are three steps of the protocol and lead to queueing, the end, or parking. |
| JobLogStreams.JobLogStream.Poll | crates/axp-core/src/job/engine.rs:916-946 | One call of `next` without interruption yields the next undelivered frame, `None` on a drained terminal job, or a wait; and it is a run of protocol steps. |
| JobLogStreams.UndeliveredIsQueueThenLog | crates/axp-core/src/job/engine.rs:905-946 | What a reader still has to deliver is its queue followed by the log from its cursor. |
| DrainLoop.PushLog | crates/axp-core/src/job/engine.rs:663-671 | One chunk goes to the log as the specified append, whatever the clock says. |
| DrainLoop.DrainPipes | crates/axp-core/src/job/engine.rs:557-614 | The select loop ends for every readiness order; each stream's log is a prefix of its pipe, all of it up to end of file or error unless the pipes offer more than the cap, even after a cancel; overflow is exactly that excess; a cancel is seen exactly if it was ready at one of the polls made, and without overflow at least one poll is made for every read the pipes need. |
| DrainLoop.RunToCompletion | crates/axp-core/src/job/engine.rs:544-652 | The final status is overflow, else killed exactly if a cancel was ready at one of the polls made, else the child's exit code, killed for a signal, or the error of waiting; so a cancel that is ready before the reads are done kills a job that does not overflow; the log is complete and waiters are woken after the status. |
| DrainLoop.ConservedLengths | crates/axp-core/src/job/engine.rs:570-610 | Logged bytes plus unread bytes are all bytes offered, at every turn of the loop. |
| DrainLoop.ChunksAreTheReads | crates/axp-core/src/job/engine.rs:570-610 | What a pipe owes the log is all its reads, in order, up to the first that fails or is empty. |
| DrainLoop.SizeIsLogged | crates/axp-core/src/job/log.rs:176-194 | The log's byte count is the sum over its two streams. |
| Lifecycle.ApplyKeepsInv | crates/axp-core/src/job/engine.rs:326-365 | Every step of sessions, tasks and cancellers keeps jobs, cancel table and audit logs consistent. |
| Lifecycle.ApplyExtends | crates/axp-core/src/job/engine.rs:686-716 | No step undoes anything: phases advance, logs and audit logs grow, terminal status and log are frozen, a removed cancel entry does not come back. |
| Lifecycle.RunKeepsInvAndExtends | crates/axp-core/src/job/engine.rs:326-780 | Both hold over every run. |
| LifecycleTheorems.StatusIsFinalAndLogFrozen | crates/axp-core/src/job/engine.rs:686-705 | A stored job is running or in one terminal status that never changes, and its log never changes after that. |
| LifecycleTheorems.CancelSucceedsExactly | crates/axp-core/src/job/engine.rs:728-742 | A cancel claims a job exactly between its registration and the end of its finish, and only if nobody has claimed it. |
| LifecycleTheorems.CancelWinsAtMostOnce | crates/axp-core/src/job/engine.rs:712-742 | After a successful claim, or once the finish has ended, no later cancel ever succeeds on the job. |
| LifecycleTheorems.CancelKillsExactly | crates/axp-core/src/job/engine.rs:570-652 | After a successful cancel and over every continuation, a job ends Killed exactly if nothing overflowed and its loop still looked for a signal after the cancel, or a signal ended the child. |
| LifecycleTheorems.CancelKillsExactlyBeforeTheLoopEnds | crates/axp-core/src/job/engine.rs:570-652 | Told from the state at the cancel, outside the middle of a poll: exactly if nothing overflows and the job has not left its loop, or a signal ended the child. |
| LifecycleTheorems.CancelInsideAPollIsOpen | crates/axp-core/src/job/engine.rs:570-612 | Between the halves of one poll a successful cancel decides nothing: one state with a continuation to Exited and one to Killed. |
| LifecycleTheorems.CancelOkNeedNotMeanKilled | crates/axp-core/src/job/engine.rs:752-761 | A reachable state where a cancel succeeds and the job stays Exited. |
| LifecycleTheorems.ClosedSessionNeverAuthorizes | crates/axp-core/src/session.rs:192-227 | A session that is no longer live never authorizes again, over any continuation, with any token. |
| LifecycleTheorems.AuditAgreesWithJobs | crates/axp-core/src/job/engine.rs:340-361 | A finished event names a job of that session with its stored terminal status, follows its only started event, and is the only one for that job in any log. |
| LifecycleTheorems.DoneJobsAreAudited | crates/axp-core/src/job/engine.rs:693-715 | A job that is done while its session is open has its start, and its finish with its status, in that session's log, and no cancel entry. |
| LifecycleTheorems.JobEndsAsItsChild | crates/axp-core/src/job/engine.rs:628-649 | A job that has left its loop ends, for good, with overflow, Killed, its exit code, Killed by signal, or the error of waiting, in this order. |
| LifecycleTheorems.LogIsWhatWasRead | crates/axp-core/src/job/engine.rs:570-612 | Over every run a job's log grows by exactly the chunks read for it, in order. |
| LifecycleTheorems.OpenedSessionAuthorizesItsToken | crates/axp-core/src/session.rs:168-201 | An opened session authorizes its own token and no other exactly as long as it is live. |
| LifecycleTheorems.AuditFinalAfterCloseExactly | crates/axp-core/src/session.rs:212-227 | After a recorded close, no continuation changes the audit log if and only if no task holds the session to record. |
| LifecycleTheorems.SessionClosedNeedNotBeLast | crates/axp-core/src/job/engine.rs:193-199 | A reachable audit log in which a started event follows the close. |
| CodeJob.RunKeepsInv | crates/axp-core/src/job/engine.rs:728-742 | Over any interleaving the signal precedes interrupt and host flag, and the decision agrees with what the deciding poll saw. |
| CodeJob.CancelledRunKilledExactly | crates/axp-core/src/job/engine.rs:485-533 | In every interleaving, a run that its cancel broke is Killed exactly if the signal was sent before the last poll looked for it, and Failed with the run's reason otherwise. |
| CodeJob.UndisturbedRunEndsAsItRan | crates/axp-core/src/job/engine.rs:485-533 | A run no cancel broke is Failed with its own reason, Failed for a result the log refused, else Exited(0), unless the last poll found a signal. |
| CodeJob.AtomicPollNeverReportsCancelAsFailed | crates/axp-core/src/job/engine.rs:485-533 | With each biased poll as one step, such a run is always Killed, in every interleaving. |
| CodeJob.SplitPollCanReportCancelAsFailed | crates/axp-core/src/job/engine.rs:485-533 | An interleaving inside one poll in which it is reported Failed. |
| JobStores.JobStore.Insert | crates/axp-core/src/job/store.rs:131-139 | Both indices after an insert, also one that reuses an id. |
| JobStores.JobStore.Get | crates/axp-core/src/job/store.rs:142-144 | The stored handle, or none for an unknown id. |
| JobStores.JobStore.ListForSession | crates/axp-core/src/job/store.rs:147-149 | The session's list, empty for an unknown session. |
| JobStores.JobStore.Remove | crates/axp-core/src/job/store.rs:160-172 | Both indices after a removal and the handle; an unknown id changes nothing. |
| JobStores.AgreementKeptExactly | crates/axp-core/src/job/store.rs:131-172 | An insert keeps the two indices in agreement exactly when its id is not live; a removal always does. |
| JobStores.SessionListsItsLiveJobs | crates/axp-core/src/job/store.rs:131-172 | Over any run with fresh ids, a session's list is what the history says is live of it, in insertion order, without duplicates. |
| JobStores.RemoveUndoesInsert | crates/axp-core/src/job/store.rs:131-172 | Removing a freshly inserted job restores every lookup and listing. |
| Sessions.Session.RecordAudit | crates/axp-core/src/session.rs:111-116 | The audit log grows by the one event. |
| Sessions.SessionStore.Open | crates/axp-core/src/session.rs:168-183 | A fresh session with its opening audited is stored under its id. |
| Sessions.SessionStore.Authorize | crates/axp-core/src/session.rs:192-201 | True exactly for a live session and its own token. |
| Sessions.SessionStore.Close | crates/axp-core/src/session.rs:212-227 | Removes the session and audits the close on its handle, or reports an unknown id and changes nothing. |
| Sessions.AuthorizesExactlyAfterLastOpen | crates/axp-core/src/session.rs:168-227 | Over any run, a token is accepted exactly when the last operation on the session opened it with that token. |
| Sessions.ClosedIsForGood | crates/axp-transport/src/state.rs:130-133 | With ids opened at most once, a closed session never authorizes again. |
| JobEngines.JobIdsAreDistinct | crates/axp-core/src/job/engine.rs:171-176 | An id is `j_` and the decimal of its counter value; different values print to different ids. |
| JobEngines.MintNext | crates/axp-core/src/job/engine.rs:171-176 | The next id differs from every id minted so far. |
| JobEngines.JobEngine.constructor | crates/axp-core/src/job/engine.rs:141-154 | Ids start at one, the cancel table is empty, and the engine is valid. |
| JobEngines.JobEngine.InsertRunningJob | crates/axp-core/src/job/engine.rs:383-401 | A running job with an empty capped log under a fresh id, last in its session's list; the 64-bit counter wraps. |
| JobEngines.JobEngine.Start | crates/axp-core/src/job/engine.rs:223-365 | Succeeds exactly for a live session and an admitted request; a refusal is the first failing check's error and changes neither jobs, counter, cancel table nor audit logs; success gives a running, cancellable, audited job. |
| JobEngines.JobEngine.Refuses | crates/axp-core/src/job/engine.rs:223-321 | No refusal exactly when session, payload, directory, job capabilities, sandbox and spawn all admit the request; otherwise the error of the first that does not. |
| JobEngines.JobEngine.CheckPayload | crates/axp-core/src/job/engine.rs:236-279 | Accepts exactly the payloads whose own requirement is met, a capability's being that its job command exists; otherwise denial, payload or lookup error as that command would fail. |
| JobEngines.RefusalNamesTheFault | crates/axp-core/src/job/engine.rs:223-321 | Every refusal error names a check that failed while all checks before it passed, and there is none exactly if all pass. |
| JobEngines.JobEngine.RecordSessionAudit | crates/axp-core/src/job/engine.rs:193-199 | Audits on a live session and skips a closed one. |
| JobEngines.JobEngine.KillJob | crates/axp-core/src/job/engine.rs:728-742 | Succeeds exactly if the entry was there, removes it, and sends the signal before interrupt and host flag. |
| JobEngines.JobEngine.LookupOwned | crates/axp-core/src/job/engine.rs:787-801 | The same answer for an unknown job and for another session's job. |
| JobEngines.JobEngine.Cancel | crates/axp-core/src/job/engine.rs:752-761 | Not found exactly for a job the session does not own, and then nothing is signalled; otherwise whether the entry was there. |
| JobEngines.JobEngine.CancelForSession | crates/axp-core/src/job/engine.rs:772-780 | The loop computes the specified removal, signals and count over the session's list. |
| JobEngines.JobEngine.FinishJob | crates/axp-core/src/job/engine.rs:686-716 | Terminal status, one wake, one audit event if the session is live, and the cancel entry gone. |
| JobEngines.JobEngine.AttachTo | crates/axp-core/src/job/engine.rs:831-844 | Exactly an owned job gives a new reader, and its cursor is the requested offset. |
| JobEngines.KillAllIsExact | crates/axp-core/src/job/engine.rs:772-780 | Cancelling a list removes exactly the listed entries, counts each once and signals exactly those. |
| JobEngines.KillAllEffectsExactly | crates/axp-core/src/job/engine.rs:728-742 | Each listed job in the table gets one signal and, if it is a code job, one interrupt and one host flag right behind it, and nothing else; any other job gets nothing. |
| JobEngines.SessionCancelHitsExactlyItsJobs | crates/axp-core/src/job/engine.rs:772-780 | While the indices agree, every cancellable job of the session is signalled exactly once, interrupted and flagged behind it if it is a code job; no other session's job is touched, and none of its own stays cancellable. |
| SseDecoder.DecodeSseEvent | crates/axp-client/src/rpc.rs:163-189 | The loop over the lines of an event computes the specified data and appends its frame, or fails. |
| SseDecoder.OneCRIsStripped | crates/axp-client/src/rpc.rs:168-172 | At most one CR is taken off the end of a line. |
| SseDecoder.EventDataIsJoinedPayloads | crates/axp-client/src/rpc.rs:163-182 | An event's data is the payloads of its data lines joined by line feeds, and there is none without a data line. |
| SseDecoder.SseFrameDecoder.Push | crates/axp-client/src/rpc.rs:125-149 | Both buffers and the result after a push, also one that fails half way. |
| SseDecoder.SseFrameDecoder.Finish | crates/axp-client/src/rpc.rs:151-160 | The unterminated rest is decoded as a last event. |
| SseDecoder.ParseSseFrames | crates/axp-client/src/rpc.rs:111-116 | One push and one finish. |
| SseStream.DrainInPieces | crates/axp-client/src/rpc.rs:125-149 | Draining what is there and going on with more is draining everything, up to the first failure. |
| SseStream.DrainIsReference | crates/axp-client/src/rpc.rs:125-160 | The two-buffer machine computes the whole-body reference: lines, runs of non-empty lines, unterminated tail. |
| SseStream.ChunkIndependence | crates/axp-client/src/lib.rs:64-82 | For every body and every cut, also inside a character or between CR and LF: failure exactly if the whole fails, all frames if not, a prefix of the correct ones if so, and the one-shot parse agrees. |
| SseStream.PrintedBlocksDecode | crates/axp-transport/src/attach.rs:145-160 | The reference reads any printed blocks, with LF or CRLF and comments between, as the printed frames. |
| SseStream.PrintedStreamRoundTrips | crates/axp-transport/src/attach.rs:145-160 | So does the client, in every chunking. |
| SseStream.UnterminatedEventIsDecoded | crates/axp-client/src/rpc.rs:151-160 | A stream that breaks off behind a last event's data, before its blank line and line end, still yields that event, in every chunking. |
| Attach.DecimalRoundTrip | crates/axp-transport/src/attach.rs:123-127 | A printed sequence number parses to itself. |
| Attach.HeaderResumesAtTheFrame | crates/axp-transport/src/attach.rs:123-127 | Sending back a frame's id resumes at that frame. |
| Attach.ParseU64Exactly | crates/axp-transport/src/attach.rs:123-127 | A header is a number exactly if it is digits in the 64-bit range, perhaps behind a plus sign, and it is the number those digits print. |
| Attach.ResumeOffsetExactly | crates/axp-transport/src/attach.rs:123-127 | The query's offset counts exactly when there is no header or one that is not a number. |
| Attach.ClientReceivesTheLog | crates/axp-transport/src/attach.rs:116-160 | Attaching with any header and query in any reachable state and running on to the stream's end: the client has the whole log from the resume offset, however chunked. |
| Attach.ReattachOverTheWire | crates/axp-transport/src/attach.rs:116-160 | Attaching again after frame k: by `from_offset` k+1 the client completes the stream; by `Last-Event-ID` k it does so with exactly one frame repeated. |
| Registry.AddListingKeepsClosedFormExactly | crates/axp-core/src/registry.rs:110-141 | One turn of the loop keeps the closed form, the counts and the size exactly when the keys it takes are then unused. |
| Registry.ColonFreeTargetsAreFree | crates/axp-core/src/registry.rs:110-141 | Without colons in local names they always are. |
| Registry.QualifiedInjective | crates/axp-core/src/registry.rs:115-115 | Without colons in local names a qualified name determines provider and local name. |
| Registration.RefusalExactly | crates/axp-core/src/registry.rs:75-103 | A provider is accepted exactly if its id is new, its index succeeds, its names are pairwise distinct and every description passes; else the error names the first fault in this order. |
| Registration.ProviderRegistry.Register | crates/axp-core/src/registry.rs:75-147 | Accepts exactly those providers; a refusal explains the first fault and leaves the registry unchanged, an acceptance adds the whole provider. |
| Registration.ProviderRegistry.FindDuplicate | crates/axp-core/src/registry.rs:87-98 | The loop finds nothing exactly if the names are pairwise distinct, and otherwise the first that repeats an earlier one. |
| Registration.ProviderRegistry.FindPoor | crates/axp-core/src/registry.rs:101-103 | The loop finds nothing exactly if every description passes, and otherwise the first listing that fails. |
| Registration.ProviderRegistry.AddOne | crates/axp-core/src/registry.rs:110-141 | One turn of the loop: bare, promotion at the second owner, qualified from then on. |
| Registration.ProviderRegistry.AddAll | crates/axp-core/src/registry.rs:110-141 | The loop adds the listings one after the other. |
| Registration.RegisterKeepsClosedFormExactly | crates/axp-core/src/registry.rs:75-147 | One accepted call, any names: the closed form is kept exactly if no listing takes a key in use or taken by an earlier listing of the call, a condition on the tables before it. |
| Registration.CatalogIsClosedFormExactly | crates/axp-core/src/registry.rs:75-147 | Over any run, colons allowed: the catalog is the closed form exactly if no accepted capability is lost, exactly if that condition held of every accepted call; a loss is never made up for. |
| Registration.RegisterKeepsOk | crates/axp-core/src/registry.rs:75-147 | A registration of colon-free names keeps the registry in closed form, and a refused one changes nothing. |
| Registration.CatalogIsClosedForm | crates/axp-core/src/registry.rs:75-147 | After any run of registrations of colon-free names, some refused, the catalog lists every accepted capability under its exposed name and nothing else. |
| Registration.WhatExposedNamesMean | crates/axp-core/src/registry.rs:103-141 | A bare name leads to a provider exactly when it is the only one with that name; a qualified name exactly when it is one of several. |
| Registration.CatalogIgnoresOrder | crates/axp-core/src/registry.rs:75-147 | The same providers registered in any order give the same catalog. |
| Registration.CatalogSizeIsSumOfCounts | crates/axp-core/src/registry.rs:110-141 | The catalog has as many entries as the name counts add up to. |
| Registration.ColonNameLosesACapability | crates/axp-core/src/registry.rs:110-141 | Three registrations after which an accepted capability is in no catalog entry. |
| Providers.NewNative | crates/axp-core/src/provider.rs:135-152 | Built exactly when local names are distinct, holding exactly the given descriptors; else the first repeated name. |
| Providers.NewMcp | crates/axp-core/src/mcp.rs:60-86 | Built exactly when names are distinct and every tool is the provider's own; else the first offence. |
| Providers.Index | crates/axp-core/src/mcp.rs:94-103 | Every capability once, with its description, and nothing else, in some order. |
| Providers.BindTemplate | crates/axp-core/src/provider.rs:190-204 | The binding loop computes the specified argument list or the first unbound field. |
| Providers.BindArgsIsSlotwise | crates/axp-core/src/provider.rs:190-204 | Binding succeeds exactly when every referenced field is a string; each argument is one whole slot; a failure names the first missing field. |
| Providers.NativeAnswers | crates/axp-core/src/provider.rs:160-210 | A native capability is answered with its own description, signature and schema, and resolves exactly if every referenced field is a string, to its own program and one argument per slot. |
| Providers.McpAnswers | crates/axp-core/src/mcp.rs:94-148 | An MCP tool is answered with its own description, schema and a signature of its name, and always resolves to its bridge's program and arguments followed by its provider, name and parameters. |
| Discovery.RunsStayRoutable | crates/axp-core/src/registry.rs:75-147 | After any run, even with colons in names, every catalog entry leads to a registered provider that knows its local name. |
| Discovery.DiscoveryAuthorityIsExecutionAuthority | crates/axp-core/src/registry.rs:251-257 | The discovery test and the execution tests read the same authority out of the grants: the tool itself or `proc.spawn` among them. |
| Discovery.KnownNamesResolve | crates/axp-core/src/provider.rs:171-210 | A provider describes and resolves exactly the names it knows, up to the parameters. |
| Discovery.DiscoveryEqualsExecutability | crates/axp-core/src/registry.rs:169-257 | A name is listed for a session exactly when describe succeeds and exactly when the capability-job path and the code-mode path authorize and find it; then one provider and local name answer all of them; a name that is not listed is described as unknown, granted or not. |
| Discovery.ListedNamesStandForTheirCapability | crates/axp-core/src/registry.rs:169-247 | A listed name is listed, described and run as one native descriptor or MCP tool of a registered provider, field by field. |
| Discovery.EveryCapabilityIsReachable | crates/axp-core/src/job/engine.rs:258-277 | With colon-free names, every capability of every registered provider is listed, described and run under its exposed name by a session granted it. |
| Capability.ParseDisplayRoundTrip | crates/axp-core/src/capability.rs:75-183 | Whatever a string parses to prints to a string that parses back to it: the string itself, or the bare name behind `tool:`. |
| Capability.PathsAcceptedExactly | crates/axp-core/src/capability.rs:234-254 | A path is accepted exactly if it starts with a slash and no piece between slashes is `..`, and the error says which failed. |
| Capability.DomainsAcceptedExactly | crates/axp-core/src/capability.rs:257-284 | A domain is accepted exactly if it is not empty and holds no slash, colon or white space. |
| Capability.PathVerbsAcceptedExactly | crates/axp-core/src/capability.rs:82-94 | Which strings `fs.read(` and `fs.write(` begin that parse, to what, and with which error if not. |
| Capability.DomainVerbAcceptedExactly | crates/axp-core/src/capability.rs:96-101 | Which strings `net.connect(` begins that parse, and to what; a malformed one is never a tool name. |
| Capability.OtherStringsAcceptedExactly | crates/axp-core/src/capability.rs:103-127 | Which other strings parse, and to what. |
| Capability.ComponentsExactly | crates/axp-core/src/capability.rs:156-157 | The components of a path go on behind a slash, and a piece without one is a component unless empty or a single dot. |
| Capability.GrantableExactlyWhatParses | crates/axp-core/src/capability.rs:75-183 | A capability is the parse of some string exactly when it parses back from its own print, which is a condition on its path, domain or name alone. |
| Capability.StartsWithIsPrefix | crates/axp-core/src/capability.rs:156-157 | The component walk is the prefix order on components. |
| Capability.DomainPermitsIsLabelSuffix | crates/axp-core/src/capability.rs:158-163 | The string suffix test on domains is the suffix order on their labels. |
| Capability.JoinSplit | crates/axp-core/src/capability.rs:158-163 | Labels joined by dots give the domain back, so the label order loses nothing. |
| Capability.SplitPiecesAreClean | crates/axp-core/src/capability.rs:158-163 | No label holds a dot, so the labels are the only ones that join to the domain. |
| Capability.PermitsIsStructural | crates/axp-core/src/capability.rs:154-169 | `permits` is component prefix, label suffix or equality, verb by verb. |
| Capability.SetPermitsIsStructural | crates/axp-core/src/capability.rs:218-221 | A set permits exactly what one of its grants permits in that sense. |
| Capability.PermitsIsPartialOrder | crates/axp-core/src/capability.rs:154-169 | Reflexive, transitive, and antisymmetric up to equality of path components. |
| Capability.ValidateJobCapabilities | crates/axp-core/src/job/engine.rs:367-381 | Succeeds exactly when every request parses and is permitted; otherwise the error is that of the first that is not. |
| Capability.AttenuationOnlyNarrows | crates/axp-core/src/job/engine.rs:367-381 | Whatever an accepted job grant permits, the session's grants permit. |
| Capability.GrantCheckIsExactlyAuthorityCheck | crates/axp-core/src/capability.rs:218-221 | Permitting every grant of a set is exactly permitting everything the set permits. |

## Left out

- HTTP, axum, reqwest, JSON-RPC envelopes, error-code mapping, the command line and configuration loading: plumbing and one-branch tables.
- `serde_json`, base64 and wasmtime: unseen libraries, which enter as abstract functions or outcomes.
- Landlock, seccomp, process spawning and the sandbox policy: foreign calls; in particular nothing says that job-level capabilities narrow the policy.
- Filesystem calls, path canonicalization and torn writes: a write is all or nothing, as the code assumes.
- Lock poisoning, memory ordering below lock-step atomicity, and 32-bit `usize`: a 64-bit target is assumed.
- `SystemTime`: instants whose whole seconds fit 64 bits, as on Unix; wall-clock values are arbitrary.
- Token entropy, hexadecimal form and constant-time comparison: a token is a string compared for equality.
- Description quality: an arbitrary predicate, and the reasons inside its errors are dropped, as are most error texts.
- Payload, working directory and times of a stored job: they influence nothing that is proved.
- The start of both pipes: `start` always pipes both, so the drain loop has no absent pipe.
- Printed event ids: the decoder ignores them, so the stream theorems allow any id text.
- Handlers that check a token before calling the engine: only the check itself is modelled.
- `JobEngine::status`, which reads two fields, and `LogBuffer`, a thin wrapper over the in-memory log.
- The synchronous run of a resolved command inside code mode: its result is the code job's own outcome in `CodeJob`.
- JobEngines.JobEngine.Start: one sequential call; its interleavings with closers, cancellers and finishers are the steps of `Lifecycle`.
- JobEngines.JobEngine.InsertRunningJob: after 2^64 ids the counter wraps, and from there validity is not claimed.
- Lifecycle.ApplyKeepsInv: ids are indices minted from counters that do not wrap, and a code job's outcomes are those of the same final-status function, its run ending where the pipes of another job end.
- LogStreaming.EveryReaderEnds: supposes that the reader takes enough steps of its own, one of which is always enabled; that its task is scheduled at all is the runtime's matter.
- SseStream.PrintedStreamRoundTrips: assumes that JSON text holds no CR or LF byte, which the encoder's escaping gives.
