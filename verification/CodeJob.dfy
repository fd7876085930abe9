/**
  Cancelling a code job: the canceller sends the signal, then interrupts the run, then raises the host
  flag, while the job's task polls the signal before the run in a biased select.
 */
module CodeJob {
  import opened Prelude
  import opened JobModel

  /** The blocking run: a failure records whether the interrupt or the host flag brought it about. */
  datatype RunResult =
    | Unfinished
    | Returned(text: Option<string>, logged: bool)
    | Broke(reason: string)
    | Trapped(reason: string)
    | HostCancelled(reason: string)

  /** The select of the task; between its two halves it has polled the signal and not yet the run. */
  datatype Select = Waiting | Halfway | Joining | Decided(status: JobStatus)

  /** How far `kill_job` has come: nothing, signal sent, run interrupted, host flag raised. */
  datatype Kill = NotKilled | Signalled | Interrupted | Flagged

  /** `sawSignal` is what the last poll of the signal found. */
  datatype CodeRun = CodeRun(kill: Kill, interrupted: bool, result: RunResult, select: Select, sawSignal: bool)

  datatype Step =
    | KillNext
    | RunReturns(text: Option<string>, logged: bool)
    | RunBreaks(reason: string)
    | RunTraps(reason: string)
    | RunHostCancels(reason: string)
    | PollSignal
    | PollRun
    | PollBoth
    | Join

  function NewRun(): CodeRun {
    CodeRun(NotKilled, false, Unfinished, Waiting, false)
  }

  /** A result that the log refuses fails the job; a failed run fails it with the run's reason. */
  function StatusOf(r: RunResult): JobStatus
    requires !r.Unfinished?
  {
    match r
    case Returned(text, logged) =>
      if text.None? || logged then Exited(0) else Failed("log buffer overflow")
    case Broke(reason) => Failed(reason)
    case Trapped(reason) => Failed(reason)
    case HostCancelled(reason) => Failed(reason)
  }

  /** The first half: the signal wins if it is there, and the task interrupts the run itself. */
  function SignalHalf(s: CodeRun): CodeRun {
    if s.kill != NotKilled then s.(select := Joining, interrupted := true, sawSignal := true)
    else s.(select := Halfway, sawSignal := false)
  }

  function RunHalf(s: CodeRun): CodeRun {
    s.(select := if s.result.Unfinished? then Waiting else Decided(StatusOf(s.result)))
  }

  function Finish(s: CodeRun, result: RunResult): Option<CodeRun> {
    if s.result.Unfinished? then Some(s.(result := result)) else None
  }

  function Apply(s: CodeRun, step: Step): Option<CodeRun> {
    match step
    case KillNext =>
      (match s.kill
       case NotKilled => Some(s.(kill := Signalled))
       case Signalled => Some(s.(kill := Interrupted, interrupted := true))
       case Interrupted => Some(s.(kill := Flagged))
       case Flagged => None)
    case RunReturns(text, logged) => Finish(s, Returned(text, logged))
    case RunBreaks(reason) => Finish(s, Broke(reason))
    case RunTraps(reason) => if s.interrupted then Finish(s, Trapped(reason)) else None
    case RunHostCancels(reason) => if s.kill == Flagged then Finish(s, HostCancelled(reason)) else None
    case PollSignal => if s.select == Waiting then Some(SignalHalf(s)) else None
    case PollRun => if s.select == Halfway then Some(RunHalf(s)) else None
    case PollBoth =>
      if s.select != Waiting then None
      else if SignalHalf(s).select == Halfway then Some(RunHalf(SignalHalf(s)))
      else Some(SignalHalf(s))
    case Join =>
      if s.select == Joining && !s.result.Unfinished? then Some(s.(select := Decided(Killed))) else None
  }

  function Run(s: CodeRun, steps: seq<Step>): Option<CodeRun>
    decreases |steps|
  {
    if steps == [] then Some(s)
    else
      var next := Apply(s, steps[0]);
      if next.None? then None else Run(next.value, steps[1..])
  }

  predicate CancelCaused(r: RunResult) {
    r.Trapped? || r.HostCancelled?
  }

  /** The signal is sent before either way of breaking the run takes effect. */
  predicate Inv(s: CodeRun) {
    && (s.interrupted ==> s.kill != NotKilled)
    && (CancelCaused(s.result) ==> s.kill != NotKilled)
    && (s.select == Joining ==> s.sawSignal) && (s.select == Halfway ==> !s.sawSignal)
    && (s.sawSignal ==> s.kill != NotKilled)
    && (s.select.Decided? ==> !s.result.Unfinished?)
    && (s.select.Decided? ==> s.select.status == if s.sawSignal then Killed else StatusOf(s.result))
  }

  lemma {:induction false} RunKeepsInv(s: CodeRun, steps: seq<Step>)
    requires Inv(s) && Run(s, steps).Some?
    ensures Inv(Run(s, steps).value)
    decreases |steps|
  {
    if steps != [] {
      assert Inv(Apply(s, steps[0]).value);
      RunKeepsInv(Apply(s, steps[0]).value, steps[1..]);
    }
  }

  lemma {:induction false} RunSnoc(s: CodeRun, steps: seq<Step>, last: Step)
    requires Run(s, steps + [last]).Some?
    ensures Run(s, steps).Some? && Apply(Run(s, steps).value, last) == Run(s, steps + [last])
    decreases |steps|
  {
    hide Apply;
    if steps == [] {
      assert steps + [last] == [last] && [last][1..] == [];
    } else {
      assert (steps + [last])[1..] == steps[1..] + [last];
      RunSnoc(Apply(s, steps[0]).value, steps[1..], last);
    }
  }

  predicate Looks(step: Step) {
    step.PollSignal? || step.PollBoth?
  }

  /** The last poll of the signal came after the canceller had sent it. */
  predicate SentBeforeLastLook(steps: seq<Step>)
    decreases |steps|
  {
    steps != [] &&
    var front := steps[..|steps| - 1];
    if Looks(steps[|steps| - 1]) then KillNext in front else SentBeforeLastLook(front)
  }

  lemma HistoryStep(s: CodeRun, step: Step)
    requires Apply(s, step).Some?
    ensures var s' := Apply(s, step).value;
            && (s'.kill != NotKilled <==> s.kill != NotKilled || step == KillNext)
            && (s'.sawSignal <==> if Looks(step) then s.kill != NotKilled else s.sawSignal)
  {
  }

  lemma {:induction false} HistoryOfARun(steps: seq<Step>)
    requires Run(NewRun(), steps).Some?
    ensures var s := Run(NewRun(), steps).value;
            (s.kill != NotKilled <==> KillNext in steps) && (s.sawSignal <==> SentBeforeLastLook(steps))
    decreases |steps|
  {
    if steps == [] {
      assert Run(NewRun(), steps) == Some(NewRun());
    } else {
      var (front, last) := (steps[..|steps| - 1], steps[|steps| - 1]);
      assert steps == front + [last];
      hide Apply, Run;
      RunSnoc(NewRun(), front, last);
      HistoryOfARun(front);
      HistoryStep(Run(NewRun(), front).value, last);
    }
  }

  /**
    In every interleaving, a run broken by its cancel is reported Killed if and only if the signal was sent
    before the last poll looked for it, and Failed with the run's reason otherwise.
   */
  lemma CancelledRunKilledExactly(steps: seq<Step>)
    requires Run(NewRun(), steps).Some?
    ensures var s := Run(NewRun(), steps).value;
            s.select.Decided? && CancelCaused(s.result) ==>
              && (s.select.status == Killed <==> SentBeforeLastLook(steps))
              && (s.select.status != Killed ==> s.select.status == Failed(s.result.reason))
  {
    RunKeepsInv(NewRun(), steps);
    HistoryOfARun(steps);
  }

  /**
    A run that no cancel broke: if the last poll found no signal, a run that breaks by itself is Failed with its
    reason, and a returned result is Exited(0) unless it is one that the log refused; if it found one, Killed.
   */
  lemma UndisturbedRunEndsAsItRan(steps: seq<Step>)
    requires Run(NewRun(), steps).Some?
    ensures var s := Run(NewRun(), steps).value;
            s.select.Decided? && !CancelCaused(s.result) ==>
              s.select.status ==
                if SentBeforeLastLook(steps) then Killed
                else match s.result
                  case Broke(reason) => Failed(reason)
                  case Returned(text, logged) =>
                    if text.Some? && !logged then Failed("log buffer overflow") else Exited(0)
                  case _ => s.select.status
    ensures Run(NewRun(), steps).value.select.Decided? ==> !Run(NewRun(), steps).value.result.Unfinished?
  {
    RunKeepsInv(NewRun(), steps);
    HistoryOfARun(steps);
  }

  /** With polls in one piece, nothing comes between looking for the signal and looking at the run. */
  predicate AtomicInv(s: CodeRun) {
    && Inv(s) && s.select != Halfway
    && (s.select.Decided? && CancelCaused(s.result) ==> s.sawSignal)
  }

  lemma {:induction false} AtomicRun(s: CodeRun, steps: seq<Step>)
    requires AtomicInv(s) && PollSignal !in steps && Run(s, steps).Some?
    ensures AtomicInv(Run(s, steps).value)
    decreases |steps|
  {
    if steps != [] {
      assert steps[0] in steps;
      assert AtomicInv(Apply(s, steps[0]).value);
      AtomicRun(Apply(s, steps[0]).value, steps[1..]);
    }
  }

  /** If each poll of the select is one step, a run that its cancel broke is always Killed, never Failed. */
  lemma AtomicPollNeverReportsCancelAsFailed(steps: seq<Step>)
    requires PollSignal !in steps && Run(NewRun(), steps).Some?
    ensures var s := Run(NewRun(), steps).value;
            s.select.Decided? && CancelCaused(s.result) ==> s.select.status == Killed
  {
    AtomicRun(NewRun(), steps);
  }

  /** Another thread can fit the signal, the interrupt and the trap between the halves of one poll. */
  lemma SplitPollCanReportCancelAsFailed(reason: string)
    ensures var s := Run(NewRun(), [PollSignal, KillNext, KillNext, RunTraps(reason), PollRun]);
            s.Some? && CancelCaused(s.value.result) && s.value.select == Decided(Failed(reason))
  {
    var steps := [PollSignal, KillNext, KillNext, RunTraps(reason), PollRun];
    var s1 := CodeRun(NotKilled, false, Unfinished, Halfway, false);
    var s2 := s1.(kill := Signalled);
    var s3 := s2.(kill := Interrupted, interrupted := true);
    var s4 := s3.(result := Trapped(reason));
    assert steps[1..][1..] == [KillNext, RunTraps(reason), PollRun];
    assert Run(s2, [KillNext, RunTraps(reason), PollRun]) == Run(s3, [RunTraps(reason), PollRun]);
    assert Run(s3, [RunTraps(reason), PollRun]) == Run(s4, [PollRun]);
  }
}
