/** Job status and the wire form of a log event. */
module JobModel {
  import opened ReplayLog

  datatype JobStatus =
    | Pending
    | Running
    | Exited(code: int)
    | Killed
    | Failed(reason: string)
  {
    predicate IsTerminal() {
      Exited? || Killed? || Failed?
    }
  }

  datatype LogEventFrame = LogEventFrame(jobId: string, seqNo: nat, stream: LogStream, data: seq<int>, tsMillis: nat)

  /** Milliseconds since the epoch, cut to 64 bits; an instant before the epoch reads as zero. */
  function EventToFrame(jobId: string, ev: LogEvent): LogEventFrame {
    var tsMillis := if ev.timestamp < 0 then 0 else ev.timestamp / 1_000_000 % 0x1_0000_0000_0000_0000;
    LogEventFrame(jobId, ev.seqNo, ev.stream, ev.data, tsMillis)
  }

  function FramesOf(jobId: string, events: seq<LogEvent>): (frames: seq<LogEventFrame>)
    ensures |frames| == |events|
  {
    seq(|events|, i requires 0 <= i < |events| => EventToFrame(jobId, events[i]))
  }

  /** A job in the store: its identity, its lifecycle status and the log it owns. */
  class Job {
    const id: string
    const sessionId: string
    var status: JobStatus
    const replayLog: InMemoryReplayLog

    constructor (id: string, sessionId: string, replayLog: InMemoryReplayLog)
      ensures this.id == id && this.sessionId == sessionId && this.replayLog == replayLog
      ensures status == Pending
    {
      this.id, this.sessionId, this.replayLog, this.status := id, sessionId, replayLog, Pending;
    }
  }
}
