/**
  Many sessions and jobs over one engine, cut into atomic steps at lock boundaries: opening and closing
  sessions, starting jobs, their completion tasks, and cancellers racing over one table.
  Session and job ids are minted from counters, so an id is the index of its object.
 */
module Lifecycle {
  import opened Prelude
  import opened JobModel
  import DrainLoop

  datatype Audit = SessionOpened | SessionClosed | JobStarted(job: nat) | JobFinished(job: nat, status: JobStatus)

  /**
    Where the task of one job stands.  `StartRecording` and `FinishRecording` hold the session handle
    that the store returned and have not yet written to it.  A poll of the drain loop's biased select has
    two halves: `Polling` is about to look for the cancel signal, `Looked` found none and is about to look at
    the pipes.  `Reaping` has left the loop and waits for the child.
   */
  datatype Phase =
    | Inserted
    | Cancellable
    | StartRecording
    | Polling
    | Looked
    | Reaping
    | StatusWritten
    | Woken
    | FinishRecording
    | FinishRecorded
    | Done

  function Rank(p: Phase): nat {
    match p
    case Inserted => 0
    case Cancellable => 1
    case StartRecording => 2
    case Polling => 3
    case Looked => 3
    case Reaping => 4
    case StatusWritten => 5
    case Woken => 6
    case FinishRecording => 7
    case FinishRecorded => 8
    case Done => 9
  }

  /** What the second half of a poll brings: a logged chunk, nothing to go on with, or the end of the loop. */
  datatype Pipes = Chunk(data: seq<Byte>) | NoData | Leave(overflowed: bool)

  datatype JobRecord = JobRecord(session: nat, status: JobStatus, log: seq<seq<Byte>>, phase: Phase,
                                 claims: nat, cancelSeen: bool, overflowed: bool, exit: Option<DrainLoop.ChildExit>)

  datatype Engine = Engine(live: set<nat>, closing: set<nat>, tokens: seq<string>, audits: seq<seq<Audit>>,
                           jobs: seq<JobRecord>, cancels: set<nat>)

  datatype Step =
    | Open(token: string)
    | CloseRemove(session: nat)
    | CloseRecord(session: nat)
    | Insert(session: nat)
    | Task(job: nat)
    | LookForCancel(job: nat)
    | LookAtPipes(job: nat, pipes: Pipes)
    | WriteStatus(job: nat, exit: DrainLoop.ChildExit)
    | Kill(job: nat)

  function NewEngine(): Engine {
    Engine({}, {}, [], [], [], {})
  }

  predicate Authorizes(s: Engine, session: nat, presented: string) {
    session in s.live && session < |s.tokens| && s.tokens[session] == presented
  }

  function Record(s: Engine, session: nat, event: Audit): Engine
    requires session < |s.audits|
  {
    s.(audits := s.audits[session := s.audits[session] + [event]])
  }

  function SetPhase(s: Engine, j: nat, phase: Phase): Engine
    requires j < |s.jobs|
  {
    s.(jobs := s.jobs[j := s.jobs[j].(phase := phase)])
  }

  /** The cancel table decides: whoever removes the entry sends the signal, and nobody else can. */
  function KillJob(s: Engine, j: nat): (Engine, bool) {
    if j in s.cancels && j < |s.jobs|
    then (s.(cancels := s.cancels - {j}, jobs := s.jobs[j := s.jobs[j].(claims := s.jobs[j].claims + 1)]), true)
    else (s, false)
  }

  /** The next step of a job's own task; `None` while it runs the child or once it is done. */
  function TaskStep(s: Engine, j: nat): Option<Engine>
    requires j < |s.jobs| && s.jobs[j].session < |s.audits|
  {
    var job := s.jobs[j];
    match job.phase
    case Inserted => Some(SetPhase(s.(cancels := s.cancels + {j}), j, Cancellable))
    case Cancellable => Some(SetPhase(s, j, if job.session in s.live then StartRecording else Polling))
    case StartRecording => Some(SetPhase(Record(s, job.session, JobStarted(j)), j, Polling))
    case StatusWritten => Some(SetPhase(s, j, Woken))
    case Woken => Some(SetPhase(s, j, if job.session in s.live then FinishRecording else FinishRecorded))
    case FinishRecording => Some(SetPhase(Record(s, job.session, JobFinished(j, job.status)), j, FinishRecorded))
    case FinishRecorded => Some(SetPhase(s.(cancels := s.cancels - {j}), j, Done))
    case _ => None
  }

  /** A signal that is there is taken, once, and the select starts over; otherwise the pipes are next. */
  function FirstHalf(job: JobRecord): JobRecord {
    if job.claims > 0 && !job.cancelSeen then job.(cancelSeen := true) else job.(phase := Looked)
  }

  function SecondHalf(job: JobRecord, pipes: Pipes): JobRecord {
    match pipes
    case Chunk(data) => job.(log := job.log + [data], phase := Polling)
    case NoData => job.(phase := Polling)
    case Leave(overflowed) => job.(overflowed := overflowed, phase := Reaping)
  }

  function Apply(s: Engine, step: Step): Option<Engine> {
    match step
    case Open(token) =>
      Some(s.(live := s.live + {|s.audits|}, tokens := s.tokens + [token], audits := s.audits + [[SessionOpened]]))
    case CloseRemove(a) =>
      if a !in s.live then None else Some(s.(live := s.live - {a}, closing := s.closing + {a}))
    case CloseRecord(a) =>
      if a !in s.closing || a >= |s.audits| then None
      else Some(Record(s, a, SessionClosed).(closing := s.closing - {a}))
    case Insert(a) =>
      if a >= |s.audits| then None
      else Some(s.(jobs := s.jobs + [JobRecord(a, Running, [], Inserted, 0, false, false, None)]))
    case Task(j) =>
      if j >= |s.jobs| || s.jobs[j].session >= |s.audits| then None else TaskStep(s, j)
    case LookForCancel(j) =>
      if j >= |s.jobs| || s.jobs[j].phase != Polling then None
      else Some(s.(jobs := s.jobs[j := FirstHalf(s.jobs[j])]))
    case LookAtPipes(j, pipes) =>
      if j >= |s.jobs| || s.jobs[j].phase != Looked then None
      else Some(s.(jobs := s.jobs[j := SecondHalf(s.jobs[j], pipes)]))
    case WriteStatus(j, exit) =>
      if j >= |s.jobs| || s.jobs[j].phase != Reaping then None
      else
        var final := DrainLoop.FinalStatus(s.jobs[j].overflowed, s.jobs[j].cancelSeen, exit);
        Some(s.(jobs := s.jobs[j := s.jobs[j].(status := final, phase := StatusWritten, exit := Some(exit))]))
    case Kill(j) => Some(KillJob(s, j).0)
  }

  function Run(s: Engine, steps: seq<Step>): Option<Engine>
    decreases |steps|
  {
    if steps == [] then Some(s)
    else
      var next := Apply(s, steps[0]);
      if next.None? then None else Run(next.value, steps[1..])
  }

  // ---- Invariant ----

  predicate JobOk(s: Engine, j: nat)
    requires j < |s.jobs|
  {
    var job := s.jobs[j];
    && job.session < |s.audits|
    && (if Rank(job.phase) < Rank(StatusWritten) then job.status == Running && job.exit.None?
        else job.exit.Some? && job.status == DrainLoop.FinalStatus(job.overflowed, job.cancelSeen, job.exit.value))
    && job.claims <= 1 && (job.claims == 1 ==> Rank(job.phase) > Rank(Inserted))
    && (j in s.cancels <==> Rank(Inserted) < Rank(job.phase) < Rank(Done) && job.claims == 0)
    && (job.cancelSeen ==> job.claims == 1)
    && (job.phase == FinishRecording || (Rank(job.phase) >= Rank(Polling) && job.session in s.live) ==>
          JobStarted(j) in s.audits[job.session])
    && (Rank(job.phase) >= Rank(FinishRecorded) && job.session in s.live ==>
          JobFinished(j, job.status) in s.audits[job.session])
  }

  predicate EventOk(s: Engine, a: nat, i: nat)
    requires a < |s.audits| && i < |s.audits[a]|
  {
    match s.audits[a][i]
    case SessionOpened => i == 0
    case SessionClosed => a !in s.live && a !in s.closing
    case JobStarted(j) => j < |s.jobs| && s.jobs[j].session == a && Rank(s.jobs[j].phase) >= Rank(Polling)
    case JobFinished(j, status) =>
      && j < |s.jobs| && s.jobs[j].session == a && Rank(s.jobs[j].phase) >= Rank(FinishRecorded)
      && status == s.jobs[j].status
      && JobStarted(j) in s.audits[a][..i]
  }

  predicate SameRecord(x: Audit, y: Audit) {
    match x
    case SessionOpened => y == SessionOpened
    case SessionClosed => y == SessionClosed
    case JobStarted(j) => y == x
    case JobFinished(j, _) => y.JobFinished? && y.job == j
  }

  predicate NoRepeats(events: seq<Audit>) {
    forall i, k | 0 <= i < k < |events| :: !SameRecord(events[i], events[k])
  }

  predicate AuditOk(s: Engine, a: nat)
    requires a < |s.audits|
  {
    && s.audits[a] != [] && s.audits[a][0] == SessionOpened
    && (forall i | 0 <= i < |s.audits[a]| :: EventOk(s, a, i))
    && NoRepeats(s.audits[a])
  }

  predicate Inv(s: Engine) {
    && |s.tokens| == |s.audits|
    && (forall a | a in s.live :: a < |s.audits|)
    && (forall a | a in s.closing :: a < |s.audits|)
    && s.live !! s.closing
    && (forall j | j in s.cancels :: j < |s.jobs|)
    && (forall j | 0 <= j < |s.jobs| :: JobOk(s, j))
    && (forall a | 0 <= a < |s.audits| :: AuditOk(s, a))
  }

  // ---- What no step undoes ----

  /** How one job's record may change: forward only, and frozen in status and log once terminal. */
  predicate JobExtends(s: Engine, s': Engine, j: nat)
    requires j < |s.jobs| <= |s'.jobs|
  {
    var (b, c) := (s.jobs[j], s'.jobs[j]);
    && b.session == c.session
    && Rank(b.phase) <= Rank(c.phase)
    && b.log <= c.log
    && b.claims <= c.claims
    && (b.status.IsTerminal() ==> b.status == c.status && b.log == c.log)
    && (Rank(b.phase) > Rank(Inserted) && j !in s.cancels ==> j !in s'.cancels)
  }

  predicate SessionExtends(s: Engine, s': Engine, a: nat)
    requires a < |s.audits| <= |s'.audits|
  {
    && s.audits[a] <= s'.audits[a]
    && (a !in s.live ==> a !in s'.live)
    && (a !in s.live && a !in s.closing ==> a !in s'.closing)
  }

  predicate Extends(s: Engine, s': Engine) {
    && |s.jobs| <= |s'.jobs| && |s.audits| <= |s'.audits|
    && s.tokens <= s'.tokens
    && (forall j | 0 <= j < |s.jobs| :: JobExtends(s, s', j))
    && (forall a | 0 <= a < |s.audits| :: SessionExtends(s, s', a))
  }

  lemma FinalStatusIsTerminal(overflowed: bool, cancelled: bool, exit: DrainLoop.ChildExit)
    ensures DrainLoop.FinalStatus(overflowed, cancelled, exit).IsTerminal()
  {
  }

  /** Only job `j` and the audit log of session `a` differ, and nothing is undone there. */
  predicate Touches(s: Engine, s': Engine, j: nat, a: nat)
    requires j < |s.jobs| && a < |s.audits|
  {
    && |s'.jobs| == |s.jobs| && |s'.audits| == |s.audits| && s'.tokens == s.tokens
    && s'.live == s.live && s'.closing == s.closing
    && s'.jobs == s.jobs[j := s'.jobs[j]]
    && s'.cancels - {j} == s.cancels - {j}
    && s'.audits == s.audits[a := s'.audits[a]]
    && s.audits[a] <= s'.audits[a]
    && JobExtends(s, s', j)
  }

  lemma TouchesExtends(s: Engine, s': Engine, j: nat, a: nat)
    requires j < |s.jobs| && a < |s.audits| && Touches(s, s', j, a)
    ensures Extends(s, s')
  {
    forall k | 0 <= k < |s.jobs| ensures JobExtends(s, s', k) {
      assert k != j ==> s'.jobs[k] == s.jobs[k] && (k in s'.cancels <==> k in s'.cancels - {j});
      assert k != j ==> (k in s.cancels <==> k in s.cancels - {j});
    }
    forall b | 0 <= b < |s.audits| ensures SessionExtends(s, s', b) {
      assert b != a ==> s'.audits[b] == s.audits[b];
    }
  }

  /** The job that a step of a job is about, with the session whose audit log it may write. */
  function JobOf(step: Step): Option<nat> {
    match step
    case Task(j) => Some(j)
    case LookForCancel(j) => Some(j)
    case LookAtPipes(j, _) => Some(j)
    case WriteStatus(j, _) => Some(j)
    case Kill(j) => Some(j)
    case _ => None
  }

  lemma TaskStepTouches(s: Engine, j: nat)
    requires Inv(s) && Apply(s, Task(j)).Some? && j < |s.jobs|
    ensures s.jobs[j].session < |s.audits| && Touches(s, Apply(s, Task(j)).value, j, s.jobs[j].session)
  {
    hide AuditOk;
    assert JobOk(s, j);
    var s' := Apply(s, Task(j)).value;
    assert s'.cancels - {j} == s.cancels - {j};
    assert s'.jobs == s.jobs[j := s'.jobs[j]];
  }

  lemma JobStepTouches(s: Engine, step: Step)
    requires Inv(s) && Apply(s, step).Some? && JobOf(step).Some? && JobOf(step).value < |s.jobs|
    ensures var j := JobOf(step).value;
            s.jobs[j].session < |s.audits| && Touches(s, Apply(s, step).value, j, s.jobs[j].session)
  {
    hide AuditOk, TaskStep, DrainLoop.FinalStatus;
    var j := JobOf(step).value;
    if step.Task? {
      TaskStepTouches(s, j);
    } else {
      assert JobOk(s, j);
      var s' := Apply(s, step).value;
      assert s'.cancels - {j} == s.cancels - {j};
    }
  }

  lemma SessionStepExtends(s: Engine, step: Step)
    requires Inv(s) && Apply(s, step).Some? && JobOf(step).None?
    ensures Extends(s, Apply(s, step).value)
  {
    hide AuditOk, JobOk;
  }

  /** Every step only moves forward. */
  lemma ApplyExtends(s: Engine, step: Step)
    requires Inv(s) && Apply(s, step).Some?
    ensures Extends(s, Apply(s, step).value)
  {
    hide AuditOk, JobOk, Touches, Extends;
    if JobOf(step).None? {
      SessionStepExtends(s, step);
    } else if JobOf(step).value < |s.jobs| {
      JobStepTouches(s, step);
      var j := JobOf(step).value;
      TouchesExtends(s, Apply(s, step).value, j, s.jobs[j].session);
    } else {
      NothingExtends(s);
    }
  }

  lemma NothingExtends(s: Engine)
    ensures Extends(s, s)
  {
  }

  /** A job whose record is unchanged stays consistent as everything around it moves forward. */
  lemma JobKept(s: Engine, s': Engine, k: nat)
    requires Inv(s) && Extends(s, s') && k < |s.jobs|
    requires s'.jobs[k] == s.jobs[k] && (k in s'.cancels <==> k in s.cancels)
    ensures JobOk(s', k)
  {
    hide AuditOk;
    assert JobOk(s, k) && JobExtends(s, s', k) && SessionExtends(s, s', s.jobs[k].session);
  }

  lemma EventKept(s: Engine, s': Engine, a: nat, i: nat)
    requires Inv(s) && Extends(s, s') && a < |s.audits| && i < |s.audits[a]|
    ensures i < |s'.audits[a]| && s'.audits[a][i] == s.audits[a][i] && EventOk(s', a, i)
  {
    assert AuditOk(s, a) && EventOk(s, a, i) && SessionExtends(s, s', a);
    assert s'.audits[a][..i] == s.audits[a][..i];
    match s.audits[a][i]
    case JobStarted(j) => assert JobExtends(s, s', j);
    case JobFinished(j, status) =>
      assert JobExtends(s, s', j) && JobOk(s, j);
      FinalStatusIsTerminal(s.jobs[j].overflowed, s.jobs[j].cancelSeen, s.jobs[j].exit.value);
    case _ =>
  }

  lemma AuditKept(s: Engine, s': Engine, a: nat)
    requires Inv(s) && Extends(s, s') && a < |s.audits| && s'.audits[a] == s.audits[a]
    ensures AuditOk(s', a)
  {
    assert AuditOk(s, a);
    forall i | 0 <= i < |s'.audits[a]| ensures EventOk(s', a, i) {
      EventKept(s, s', a, i);
    }
  }

  lemma AuditGrown(s: Engine, s': Engine, a: nat, ev: Audit)
    requires Inv(s) && Extends(s, s') && a < |s.audits| && s'.audits[a] == s.audits[a] + [ev]
    requires EventOk(s', a, |s.audits[a]|)
    requires forall i | 0 <= i < |s.audits[a]| :: !SameRecord(s.audits[a][i], ev)
    ensures AuditOk(s', a)
  {
    assert AuditOk(s, a);
    forall i | 0 <= i < |s'.audits[a]| ensures EventOk(s', a, i) {
      if i < |s.audits[a]| { EventKept(s, s', a, i); }
    }
  }

  lemma JobStepKeepsInv(s: Engine, step: Step)
    requires Inv(s) && Apply(s, step).Some? && JobOf(step).Some? && JobOf(step).value < |s.jobs|
    ensures Inv(Apply(s, step).value)
  {
    hide AuditOk, Extends, EventOk;
    var (j, s') := (JobOf(step).value, Apply(s, step).value);
    var a := s.jobs[j].session;
    assert JobOk(s, j);
    JobStepTouches(s, step);
    ApplyExtends(s, step);
    forall k | 0 <= k < |s'.jobs| ensures JobOk(s', k) {
      if k == j {
        SteppedJobOk(s, step);
      } else {
        assert (k in s'.cancels <==> k in s'.cancels - {j}) && (k in s.cancels <==> k in s.cancels - {j});
        JobKept(s, s', k);
      }
    }
    forall b | 0 <= b < |s'.audits| ensures AuditOk(s', b) {
      if s'.audits[b] == s.audits[b] {
        AuditKept(s, s', b);
      } else {
        StepRecords(s, step);
      }
    }
    forall k | k in s'.cancels ensures k < |s'.jobs| {
      assert k != j ==> k in s'.cancels - {j};
    }
  }

  lemma TaskSteppedJobOk(s: Engine, j: nat)
    requires Inv(s) && Apply(s, Task(j)).Some? && j < |s.jobs|
    ensures j < |Apply(s, Task(j)).value.jobs| && JobOk(Apply(s, Task(j)).value, j)
  {
    hide AuditOk, DrainLoop.FinalStatus;
    var s' := Apply(s, Task(j)).value;
    var a := s.jobs[j].session;
    assert JobOk(s, j);
    if s.jobs[j].phase == StartRecording {
      assert s'.audits[a] == s.audits[a] + [JobStarted(j)];
      assert s'.audits[a][|s.audits[a]|] == JobStarted(j);
    }
    if s.jobs[j].phase == FinishRecording {
      assert s'.audits[a] == s.audits[a] + [JobFinished(j, s.jobs[j].status)];
    }
  }

  lemma SteppedJobOk(s: Engine, step: Step)
    requires Inv(s) && Apply(s, step).Some? && JobOf(step).Some? && JobOf(step).value < |s.jobs|
    ensures JobOf(step).value < |Apply(s, step).value.jobs| && JobOk(Apply(s, step).value, JobOf(step).value)
  {
    hide AuditOk, TaskStep, DrainLoop.FinalStatus;
    var j := JobOf(step).value;
    if step.Task? {
      TaskSteppedJobOk(s, j);
    } else {
      assert JobOk(s, j);
    }
  }

  /** A task step that writes an audit event writes one that the log did not hold, in its place. */
  lemma StepRecords(s: Engine, step: Step)
    requires Inv(s) && Apply(s, step).Some? && JobOf(step).Some? && JobOf(step).value < |s.jobs|
    requires s.jobs[JobOf(step).value].session < |s.audits|
    requires Apply(s, step).value.audits != s.audits
    ensures var a := s.jobs[JobOf(step).value].session;
            a < |Apply(s, step).value.audits| && AuditOk(Apply(s, step).value, a)
  {
    var (j, s') := (JobOf(step).value, Apply(s, step).value);
    var (a, job) := (s.jobs[j].session, s.jobs[j]);
    ApplyExtends(s, step);
    assert JobOk(s, j) && AuditOk(s, a);
    var n := |s.audits[a]|;
    if job.phase == StartRecording {
      forall i | 0 <= i < n ensures !SameRecord(s.audits[a][i], JobStarted(j)) { assert EventOk(s, a, i); }
      AuditGrown(s, s', a, JobStarted(j));
    } else {
      var ev := JobFinished(j, job.status);
      forall i | 0 <= i < n ensures !SameRecord(s.audits[a][i], ev) { assert EventOk(s, a, i); }
      assert s'.audits[a][..n] == s.audits[a];
      AuditGrown(s, s', a, ev);
    }
  }

  lemma SessionStepKeepsInv(s: Engine, step: Step)
    requires Inv(s) && Apply(s, step).Some? && JobOf(step).None?
    ensures Inv(Apply(s, step).value)
  {
    hide Extends, EventOk, NoRepeats;
    var s' := Apply(s, step).value;
    ApplyExtends(s, step);
    forall k | 0 <= k < |s'.jobs| ensures JobOk(s', k) {
      if k < |s.jobs| {
        JobKept(s, s', k);
      }
    }
    forall b | 0 <= b < |s'.audits| ensures AuditOk(s', b) {
      if b == |s.audits| {
        NewAuditOk(s', b);
      } else if s'.audits[b] == s.audits[b] {
        AuditKept(s, s', b);
      } else {
        CloseRecords(s, b);
      }
    }
  }

  lemma NewAuditOk(s: Engine, a: nat)
    requires a < |s.audits| && s.audits[a] == [SessionOpened]
    ensures AuditOk(s, a)
  {
  }

  lemma CloseRecords(s: Engine, a: nat)
    requires Inv(s) && a in s.closing && a < |s.audits|
    ensures var s' := Apply(s, CloseRecord(a)).value; a < |s'.audits| && AuditOk(s', a)
  {
    var s' := Apply(s, CloseRecord(a)).value;
    ApplyExtends(s, CloseRecord(a));
    assert AuditOk(s, a);
    forall i | 0 <= i < |s.audits[a]| ensures !SameRecord(s.audits[a][i], SessionClosed) { assert EventOk(s, a, i); }
    AuditGrown(s, s', a, SessionClosed);
  }

  lemma ApplyKeepsInv(s: Engine, step: Step)
    requires Inv(s) && Apply(s, step).Some?
    ensures Inv(Apply(s, step).value)
  {
    hide Inv;
    if JobOf(step).None? {
      SessionStepKeepsInv(s, step);
    } else if JobOf(step).value < |s.jobs| {
      JobStepKeepsInv(s, step);
    }
  }

  lemma ExtendsComposes(a: Engine, b: Engine, c: Engine)
    requires Extends(a, b) && Extends(b, c)
    ensures Extends(a, c)
  {
    forall j | 0 <= j < |a.jobs| ensures JobExtends(a, c, j) {
      assert JobExtends(a, b, j) && JobExtends(b, c, j);
    }
    forall x | 0 <= x < |a.audits| ensures SessionExtends(a, c, x) {
      assert SessionExtends(a, b, x) && SessionExtends(b, c, x);
    }
  }

  /** Over any run: the invariant holds throughout, and nothing that a step fixed is undone later. */
  lemma {:induction false} RunKeepsInvAndExtends(s: Engine, steps: seq<Step>)
    requires Inv(s) && Run(s, steps).Some?
    ensures Inv(Run(s, steps).value) && Extends(s, Run(s, steps).value)
    decreases |steps|
  {
    hide Inv, Extends;
    if steps == [] {
      NothingExtends(s);
    } else {
      var next := Apply(s, steps[0]).value;
      ApplyKeepsInv(s, steps[0]);
      ApplyExtends(s, steps[0]);
      RunKeepsInvAndExtends(next, steps[1..]);
      ExtendsComposes(s, next, Run(s, steps).value);
    }
  }

  lemma NewEngineInv()
    ensures Inv(NewEngine())
  {
  }
}
