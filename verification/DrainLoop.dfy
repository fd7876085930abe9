/** The writer of a command job: drain both pipes into the log, honour cancellation, finish the job. */
module DrainLoop {
  import opened Prelude
  import Timestamp
  import opened ReplayLog
  import opened JobModel

  /** One completed read: `Ok` of no bytes is end of file. */
  datatype ReadOutcome = Ok(bytes: seq<Byte>) | Err

  /** Which arms of the select would be ready at one poll. */
  datatype Readiness = Readiness(cancel: bool, out: bool, err: bool)

  datatype ChildExit = ExitCode(code: int) | Signalled | WaitError(reason: string)

  const OVERFLOW_REASON := "log buffer overflow"

  function FinalStatus(overflowed: bool, cancelled: bool, exit: ChildExit): JobStatus {
    if overflowed then Failed(OVERFLOW_REASON)
    else if cancelled then Killed
    else match exit
      case ExitCode(c) => Exited(c)
      case Signalled => Killed
      case WaitError(reason) => Failed(reason)
  }

  /** The chunks a pipe yields before its end of file or first error. */
  function Chunks(pipe: seq<ReadOutcome>): seq<seq<Byte>> {
    if pipe == [] || pipe[0].Err? || pipe[0].bytes == [] then [] else [pipe[0].bytes] + Chunks(pipe[1..])
  }

  /** They are all the reads, in order, up to the first that fails or is empty. */
  lemma {:induction false} ChunksAreTheReads(pipe: seq<ReadOutcome>)
    ensures var n := |Chunks(pipe)|;
            && n <= |pipe|
            && (forall i | 0 <= i < n :: pipe[i] == Ok(Chunks(pipe)[i]) && pipe[i].bytes != [])
            && (n < |pipe| ==> pipe[n] == Err || pipe[n] == Ok([]))
  {
    if pipe != [] && pipe[0].Ok? && pipe[0].bytes != [] {
      ChunksAreTheReads(pipe[1..]);
    }
  }

  function TotalLength(chunks: seq<seq<Byte>>): nat {
    if chunks == [] then 0 else |chunks[0]| + TotalLength(chunks[1..])
  }

  /** The chunks a log holds for one of the two streams, in log order. */
  function Logged(events: seq<LogEvent>, stream: LogStream): seq<seq<Byte>> {
    if events == [] then []
    else
      var last := events[|events| - 1];
      Logged(events[..|events| - 1], stream) + if last.stream == stream then [last.data] else []
  }

  lemma LoggedAppended(events: seq<LogEvent>, ev: LogEvent, stream: LogStream)
    ensures Logged(events + [ev], stream) == Logged(events, stream) + if ev.stream == stream then [ev.data] else []
  {
    assert (events + [ev])[..|events|] == events;
  }

  lemma {:induction false} TotalLengthAdds(a: seq<seq<Byte>>, b: seq<seq<Byte>>)
    ensures TotalLength(a + b) == TotalLength(a) + TotalLength(b)
  {
    if a == [] {
      assert a + b == b;
    } else {
      assert (a + b)[1..] == a[1..] + b;
      TotalLengthAdds(a[1..], b);
    }
  }

  lemma {:induction false} SizeIsLogged(events: seq<LogEvent>)
    ensures Size(events) == TotalLength(Logged(events, Stdout)) + TotalLength(Logged(events, Stderr))
    decreases |events|
  {
    if events != [] {
      var (front, last) := (events[..|events| - 1], events[|events| - 1]);
      assert events == front + [last];
      SizeIsLogged(front);
      SizeOfAppended(front, [last]);
      TotalLengthAdds(Logged(front, Stdout), if last.stream == Stdout then [last.data] else []);
      TotalLengthAdds(Logged(front, Stderr), if last.stream == Stderr then [last.data] else []);
    }
  }

  function ReadinessAt(sched: seq<Readiness>, poll: nat): Readiness {
    if poll < |sched| then sched[poll] else Readiness(false, true, true)
  }

  /** The reads that finish a pipe: one for each chunk, and one that finds its end or an error. */
  function ReadsLeft(pipe: seq<ReadOutcome>, done: bool): nat {
    if done then 0 else |Chunks(pipe)| + 1
  }

  /** No poll does more than one thing: take the cancel, or read one pipe once. */
  function PollsNeeded(stdout: seq<ReadOutcome>, stderr: seq<ReadOutcome>, cancelled: bool): nat {
    ReadsLeft(stdout, false) + ReadsLeft(stderr, false) + if cancelled then 1 else 0
  }

  predicate CancelSeen(sched: seq<Readiness>, polls: nat) {
    exists k | 0 <= k < polls :: ReadinessAt(sched, k).cancel
  }

  lemma CancelSeenByOneMore(sched: seq<Readiness>, polls: nat)
    ensures CancelSeen(sched, polls + 1) <==> CancelSeen(sched, polls) || ReadinessAt(sched, polls).cancel
  {
  }

  /** Bytes the run would put into the log if nothing bounded it. */
  function Offered(stdout: seq<ReadOutcome>, stderr: seq<ReadOutcome>): nat {
    TotalLength(Chunks(stdout)) + TotalLength(Chunks(stderr))
  }

  /** What one stream still owes the log: nothing once its pipe is done. */
  function Rest(pipe: seq<ReadOutcome>, done: bool): seq<seq<Byte>> {
    if done then [] else Chunks(pipe)
  }

  /** While nothing overflowed, logged output and what is left in the pipe make up the whole pipe. */
  predicate Conserved(events: seq<LogEvent>, stream: LogStream, whole: seq<ReadOutcome>,
                      left: seq<ReadOutcome>, done: bool) {
    Logged(events, stream) + Rest(left, done) == Chunks(whole)
  }

  /** Taking the next chunk of a pipe moves it from the pipe to the log. */
  lemma ChunkMoves(events: seq<LogEvent>, ev: LogEvent, whole: seq<ReadOutcome>, left: seq<ReadOutcome>)
    requires Conserved(events, ev.stream, whole, left, false)
    requires left != [] && left[0] == Ok(ev.data) && ev.data != []
    ensures Conserved(events + [ev], ev.stream, whole, left[1..], false)
  {
    LoggedAppended(events, ev, ev.stream);
    assert Logged(events, ev.stream) + [ev.data] + Chunks(left[1..]) ==
           Logged(events, ev.stream) + ([ev.data] + Chunks(left[1..]));
  }

  lemma OtherStreamKept(events: seq<LogEvent>, ev: LogEvent, stream: LogStream,
                        whole: seq<ReadOutcome>, left: seq<ReadOutcome>, done: bool)
    requires stream != ev.stream && Conserved(events, stream, whole, left, done)
    ensures Conserved(events + [ev], stream, whole, left, done)
  {
    LoggedAppended(events, ev, stream);
    assert Logged(events, stream) + [] == Logged(events, stream);
  }

  function Other(stream: LogStream): LogStream {
    match stream
    case Stdout => Stderr
    case Stderr => Stdout
  }

  /** Logged plus unread is everything offered, so a refused chunk means more was offered than the cap. */
  lemma ConservedLengths(events: seq<LogEvent>, stream: LogStream,
                         whole: seq<ReadOutcome>, left: seq<ReadOutcome>, done: bool,
                         whole': seq<ReadOutcome>, left': seq<ReadOutcome>, done': bool)
    requires Conserved(events, stream, whole, left, done) && Conserved(events, Other(stream), whole', left', done')
    ensures Offered(whole, whole') == Size(events) + TotalLength(Rest(left, done)) + TotalLength(Rest(left', done'))
  {
    SizeIsLogged(events);
    TotalLengthAdds(Logged(events, stream), Rest(left, done));
    TotalLengthAdds(Logged(events, Other(stream)), Rest(left', done'));
  }

  method PushLog(job: Job, stream: LogStream, data: seq<Byte>) returns (r: Result<nat, LogError>, ghost now: Timestamp.SystemTime)
    modifies job.replayLog
    ensures (job.replayLog.View(), r) == AppendTo(old(job.replayLog.View()), AppendLogEvent(stream, data, now))
  {
    var time: Timestamp.SystemTime := *;
    now := time;
    r := job.replayLog.Append(AppendLogEvent(stream, data, time));
  }

  /** One arm of the select: read a pipe once, and append what it yields to the log. */
  method ReadPipe(job: Job, stream: LogStream, left: seq<ReadOutcome>, ghost whole: seq<ReadOutcome>,
                  ghost whole': seq<ReadOutcome>, ghost left': seq<ReadOutcome>, ghost done': bool)
    returns (rest: seq<ReadOutcome>, done: bool, overflow: bool)
    requires WellFormed(job.replayLog.View()) && job.replayLog.wakes == |job.replayLog.events|
    requires Conserved(job.replayLog.events, stream, whole, left, false)
    requires Conserved(job.replayLog.events, Other(stream), whole', left', done')
    modifies job.replayLog
    ensures WellFormed(job.replayLog.View()) && job.replayLog.wakes == |job.replayLog.events|
    ensures overflow ==> job.replayLog.events == old(job.replayLog.events) && Offered(whole, whole') > job.replayLog.byteCap
    ensures !overflow ==>
              && Conserved(job.replayLog.events, stream, whole, rest, done)
              && Conserved(job.replayLog.events, Other(stream), whole', left', done')
              && |rest| + (if done then 0 else 1) < |left| + 1
              && ReadsLeft(left, false) == 1 + ReadsLeft(rest, done)
  {
    hide WellFormed, Logged, TotalLength, Size;
    rest, done, overflow := left, false, false;
    var n := if left == [] then Ok([]) else left[0];
    if n.Err? || n.bytes == [] {
      done := true;
    } else {
      ghost var before := job.replayLog.View();
      var r, now := PushLog(job, stream, n.bytes);
      AppendKeepsLogWellFormed(before, AppendLogEvent(stream, n.bytes, now));
      if r.Failure? {
        ConservedLengths(before.events, stream, whole, left, false, whole', left', done');
        OneChunkLength(left);
        ByteTotalIsSize(before);
        overflow := true;
      } else {
        ghost var ev := LogEvent(|before.events|, stream, n.bytes, now);
        ChunkMoves(before.events, ev, whole, left);
        OtherStreamKept(before.events, ev, Other(stream), whole', left', done');
        rest := left[1..];
      }
    }
  }

  lemma ByteTotalIsSize(s: LogState)
    requires WellFormed(s)
    ensures s.byteTotal == Size(s.events) <= s.byteCap
  {
  }

  lemma OneChunkLength(left: seq<ReadOutcome>)
    requires left != [] && left[0].Ok? && left[0].bytes != []
    ensures TotalLength(Chunks(left)) >= |left[0].bytes|
  {
  }

  /**
    The select loop.  Whatever order the arms become ready in, and even after a cancel, each stream's
    log is its pipe up to end of file or read error, unless the two pipes offer more than the cap holds.
   */
  method DrainPipes(job: Job, stdout: seq<ReadOutcome>, stderr: seq<ReadOutcome>, sched: seq<Readiness>)
    returns (overflowed: bool, cancelled: bool, polls: nat)
    requires job.replayLog.View() == NewLog(job.replayLog.byteCap) && job.replayLog.byteCap <= USIZE_MAX
    modifies job.replayLog
    ensures WellFormed(job.replayLog.View()) && job.replayLog.wakes == |job.replayLog.events|
    ensures overflowed <==> Offered(stdout, stderr) > job.replayLog.byteCap
    ensures !overflowed ==>
              && Logged(job.replayLog.events, Stdout) == Chunks(stdout)
              && Logged(job.replayLog.events, Stderr) == Chunks(stderr)
    ensures Logged(job.replayLog.events, Stdout) <= Chunks(stdout)
    ensures Logged(job.replayLog.events, Stderr) <= Chunks(stderr)
    ensures cancelled <==> CancelSeen(sched, polls)
    ensures polls >= 1
    ensures !overflowed ==> polls >= PollsNeeded(stdout, stderr, cancelled)
  {
    var log := job.replayLog;
    var outLeft, errLeft := stdout, stderr;
    var outDone, errDone := false, false;
    overflowed, cancelled, polls := false, false, 0;
    while true
      invariant WellFormed(log.View()) && log.wakes == |log.events|
      invariant Conserved(log.events, Stdout, stdout, outLeft, outDone)
      invariant Conserved(log.events, Stderr, stderr, errLeft, errDone)
      invariant !overflowed && !(outDone && errDone)
      invariant cancelled <==> CancelSeen(sched, polls)
      invariant polls + ReadsLeft(outLeft, outDone) + ReadsLeft(errLeft, errDone) >= PollsNeeded(stdout, stderr, cancelled)
      decreases if polls < |sched| then |sched| - polls else 0,
                |outLeft| + |errLeft| + (if outDone then 0 else 1) + (if errDone then 0 else 1)
    {
      hide WellFormed, Logged, Chunks, TotalLength, Size, Offered, CancelSeen, ReadinessAt;
      CancelSeenByOneMore(sched, polls);
      var ready := ReadinessAt(sched, polls);
      polls := polls + 1;
      if !cancelled && ready.cancel {
        cancelled := true;
      } else if !outDone && ready.out {
        outLeft, outDone, overflowed := ReadPipe(job, Stdout, outLeft, stdout, stderr, errLeft, errDone);
      } else if !errDone && ready.err {
        errLeft, errDone, overflowed := ReadPipe(job, Stderr, errLeft, stderr, stdout, outLeft, outDone);
      }
      if overflowed {
        outDone, errDone := true, true;
      }
      if outDone && errDone {
        if !overflowed {
          ConservedLengths(log.events, Stdout, stdout, outLeft, outDone, stderr, errLeft, errDone);
          ByteTotalIsSize(log.View());
        }
        break;
      }
    }
  }

  /**
    The whole task: drain, reap the child, write the terminal status, then wake every waiter.  The
    status depends on the pipes, the cap, the cancel signal and the exit only, not on the read order.
   */
  method RunToCompletion(job: Job, stdout: seq<ReadOutcome>, stderr: seq<ReadOutcome>, sched: seq<Readiness>,
                         exit: ChildExit)
    returns (polls: nat)
    requires job.replayLog.View() == NewLog(job.replayLog.byteCap) && job.replayLog.byteCap <= USIZE_MAX
    modifies job`status, job.replayLog
    ensures job.status.IsTerminal()
    ensures job.status == if Offered(stdout, stderr) > job.replayLog.byteCap then Failed(OVERFLOW_REASON)
                          else if CancelSeen(sched, polls) then Killed
                          else match exit
                            case ExitCode(c) => Exited(c)
                            case Signalled => Killed
                            case WaitError(reason) => Failed(reason)
    ensures Offered(stdout, stderr) <= job.replayLog.byteCap ==>
              && Logged(job.replayLog.events, Stdout) == Chunks(stdout)
              && Logged(job.replayLog.events, Stderr) == Chunks(stderr)
    ensures Logged(job.replayLog.events, Stdout) <= Chunks(stdout)
    ensures Logged(job.replayLog.events, Stderr) <= Chunks(stderr)
    ensures WellFormed(job.replayLog.View()) && job.replayLog.wakes == |job.replayLog.events| + 1
    ensures polls >= 1
    ensures Offered(stdout, stderr) <= job.replayLog.byteCap ==>
              && polls >= PollsNeeded(stdout, stderr, CancelSeen(sched, polls))
              && (CancelSeen(sched, PollsNeeded(stdout, stderr, false)) ==> job.status == Killed)
  {
    var overflowed, cancelled;
    overflowed, cancelled, polls := DrainPipes(job, stdout, stderr, sched);
    job.status := FinalStatus(overflowed, cancelled, exit);
    job.replayLog.wakes := job.replayLog.wakes + 1;
  }
}
