/** What holds of sessions, jobs, cancellation and audit logs over every run of the engine. */
module LifecycleTheorems {
  import opened Prelude
  import opened JobModel
  import DrainLoop
  import opened Lifecycle

  ghost predicate Reachable(s: Engine) {
    exists steps: seq<Step> :: Run(NewEngine(), steps) == Some(s)
  }

  lemma ReachableIsInv(s: Engine)
    requires Reachable(s)
    ensures Inv(s)
  {
    var steps: seq<Step> :| Run(NewEngine(), steps) == Some(s);
    NewEngineInv();
    RunKeepsInvAndExtends(NewEngine(), steps);
  }

  /** A job goes from Running to one terminal status; status and log then never change. */
  lemma StatusIsFinalAndLogFrozen(s: Engine, steps: seq<Step>, j: nat)
    requires Reachable(s) && Run(s, steps).Some? && j < |s.jobs|
    ensures var s' := Run(s, steps).value;
            && j < |s'.jobs|
            && (s.jobs[j].status == Running || s.jobs[j].status.IsTerminal())
            && s.jobs[j].log <= s'.jobs[j].log
            && (s.jobs[j].status.IsTerminal() ==>
                  s'.jobs[j].status == s.jobs[j].status && s'.jobs[j].log == s.jobs[j].log)
  {
    ReachableIsInv(s);
    RunKeepsInvAndExtends(s, steps);
    assert JobOk(s, j) && JobExtends(s, Run(s, steps).value, j);
  }

  /** A cancel succeeds exactly on a registered, unfinished job that nobody has claimed yet. */
  lemma CancelSucceedsExactly(s: Engine, j: nat)
    requires Reachable(s)
    ensures KillJob(s, j).1 <==>
            j < |s.jobs| && Rank(Inserted) < Rank(s.jobs[j].phase) < Rank(Done) && s.jobs[j].claims == 0
  {
    ReachableIsInv(s);
    if j < |s.jobs| { assert JobOk(s, j); }
  }

  /** At most one cancel ever succeeds on a job, and none once its finish has ended. */
  lemma CancelWinsAtMostOnce(s: Engine, steps: seq<Step>, j: nat)
    requires Reachable(s) && j < |s.jobs|
    requires Run(KillJob(s, j).0, steps).Some?
    ensures var s' := Run(KillJob(s, j).0, steps).value;
            && j < |s'.jobs| && s'.jobs[j].claims <= 1
            && (KillJob(s, j).1 || s.jobs[j].phase == Done ==> !KillJob(s', j).1)
  {
    ReachableIsInv(s);
    assert JobOk(s, j);
    var k := KillJob(s, j).0;
    assert Apply(s, Kill(j)) == Some(k);
    ApplyKeepsInv(s, Kill(j));
    assert JobOk(k, j);
    RunKeepsInvAndExtends(k, steps);
    var s' := Run(k, steps).value;
    assert JobExtends(k, s', j) && JobOk(s', j);
  }

  lemma {:induction false} RunAppends(s: Engine, a: seq<Step>, b: seq<Step>)
    requires Run(s, a).Some?
    ensures Run(s, a + b) == Run(Run(s, a).value, b)
    decreases |a|
  {
    hide Apply;
    if a == [] {
      assert a + b == b;
    } else {
      assert (a + b)[0] == a[0] && (a + b)[1..] == a[1..] + b;
      RunAppends(Apply(s, a[0]).value, a[1..], b);
    }
  }

  lemma OneStep(s: Engine, step: Step)
    ensures Run(s, [step]) == Apply(s, step)
  {
    hide Apply;
    assert [step][1..] == [];
  }

  lemma StepReaches(s: Engine, step: Step, s': Engine)
    requires Reachable(s) && Apply(s, step) == Some(s')
    ensures Reachable(s')
  {
    hide Apply;
    var steps: seq<Step> :| Run(NewEngine(), steps) == Some(s);
    RunAppends(NewEngine(), steps, [step]);
    OneStep(s, step);
  }

  const FRESH_JOB := JobRecord(0, Running, [], Inserted, 0, false, false, None)

  /** One session, one job, cancellable, its task holding the session handle to record the start. */
  function OneJobStarting(): Engine {
    Engine({0}, {}, ["t"], [[SessionOpened]], [FRESH_JOB.(phase := StartRecording)], {0})
  }

  lemma OneJobStartingReachable()
    ensures Reachable(OneJobStarting())
  {
    hide Reachable;
    var s0 := NewEngine();
    var s1 := Engine({0}, {}, ["t"], [[SessionOpened]], [], {});
    var s2 := s1.(jobs := [FRESH_JOB]);
    var s3 := s2.(jobs := [FRESH_JOB.(phase := Cancellable)], cancels := {0});
    assert s0.live + {0} == s1.live && s0.tokens + ["t"] == s1.tokens && s0.audits + [[SessionOpened]] == s1.audits;
    assert s1.jobs + [FRESH_JOB] == s2.jobs;
    assert s2.jobs[0 := FRESH_JOB.(phase := Cancellable)] == s3.jobs && s2.cancels + {0} == s3.cancels;
    assert s3.jobs[0 := FRESH_JOB.(phase := StartRecording)] == OneJobStarting().jobs;
    EmptyRunReaches();
    StepReaches(s0, Open("t"), s1);
    StepReaches(s1, Insert(0), s2);
    StepReaches(s2, Task(0), s3);
    StepReaches(s3, Task(0), OneJobStarting());
  }

  lemma EmptyRunReaches()
    ensures Reachable(NewEngine())
  {
    assert Run(NewEngine(), []) == Some(NewEngine());
  }

  // ---- What a successful cancel brings about ----

  /** The job has yet to look for a signal before it can leave its loop. */
  predicate WillLook(p: Phase) {
    p in {Cancellable, StartRecording, Polling}
  }

  /** Somewhere on the run, its start and end included, the job is about to look for a signal. */
  ghost predicate LooksOn(s: Engine, steps: seq<Step>, j: nat) {
    exists n | 0 <= n <= |steps| :: LooksAt(s, steps, j, n)
  }

  ghost predicate LooksAt(s: Engine, steps: seq<Step>, j: nat, n: nat)
    requires n <= |steps|
  {
    var at := Run(s, steps[..n]);
    at.Some? && j < |at.value.jobs| && WillLook(at.value.jobs[j].phase)
  }

  predicate Claimed(s: Engine, j: nat) {
    j < |s.jobs| && s.jobs[j].claims == 1
  }

  /** The signal has been taken, or will be before the loop can be left. */
  predicate Due(s: Engine, j: nat) {
    Claimed(s, j) && (s.jobs[j].cancelSeen || WillLook(s.jobs[j].phase))
  }

  lemma ClaimedStep(s: Engine, step: Step, j: nat)
    requires Inv(s) && Claimed(s, j) && Apply(s, step).Some?
    ensures var s' := Apply(s, step).value;
            && Claimed(s', j)
            && (Due(s, j) ==> Due(s', j))
            && (!Due(s, j) ==> !s'.jobs[j].cancelSeen)
  {
    hide AuditOk;
    assert JobOk(s, j);
  }

  lemma {:induction false} DueStays(s: Engine, steps: seq<Step>, j: nat)
    requires Inv(s) && Due(s, j) && Run(s, steps).Some?
    ensures Due(Run(s, steps).value, j)
    decreases |steps|
  {
    if steps != [] {
      hide Inv, Apply, Due;
      ClaimedStep(s, steps[0], j);
      ApplyKeepsInv(s, steps[0]);
      DueStays(Apply(s, steps[0]).value, steps[1..], j);
    }
  }

  lemma {:induction false} UnseenStays(s: Engine, steps: seq<Step>, j: nat)
    requires Inv(s) && Claimed(s, j) && !s.jobs[j].cancelSeen && Run(s, steps).Some?
    requires !LooksOn(s, steps, j)
    ensures Claimed(Run(s, steps).value, j) && !Run(s, steps).value.jobs[j].cancelSeen
    decreases |steps|
  {
    hide Inv, Apply;
    assert steps[..0] == [];
    assert !LooksAt(s, steps, j, 0);
    if steps != [] {
      var next := Apply(s, steps[0]).value;
      ClaimedStep(s, steps[0], j);
      ApplyKeepsInv(s, steps[0]);
      forall n | 0 <= n <= |steps[1..]| ensures !LooksAt(next, steps[1..], j, n) {
        assert steps[..n + 1][1..] == steps[1..][..n];
        assert !LooksAt(s, steps, j, n + 1);
      }
      UnseenStays(next, steps[1..], j);
    }
  }

  lemma LookingIsDue(s: Engine, steps: seq<Step>, j: nat)
    requires Inv(s) && Claimed(s, j) && Run(s, steps).Some? && LooksOn(s, steps, j)
    ensures Due(Run(s, steps).value, j)
  {
    hide Inv;
    var n :| 0 <= n <= |steps| && LooksAt(s, steps, j, n);
    var (front, rest) := (steps[..n], steps[n..]);
    assert steps == front + rest;
    RunAppends(s, front, rest);
    RunKeepsInvAndExtends(s, front);
    ClaimedRun(s, front, j);
    DueStays(Run(s, front).value, rest, j);
  }

  lemma {:induction false} ClaimedRun(s: Engine, steps: seq<Step>, j: nat)
    requires Inv(s) && Claimed(s, j) && Run(s, steps).Some?
    ensures Claimed(Run(s, steps).value, j)
    decreases |steps|
  {
    if steps != [] {
      hide Inv, Apply, Claimed;
      ClaimedStep(s, steps[0], j);
      ApplyKeepsInv(s, steps[0]);
      ClaimedRun(Apply(s, steps[0]).value, steps[1..], j);
    }
  }

  lemma TerminalStatusIs(s: Engine, j: nat)
    requires Inv(s) && j < |s.jobs| && s.jobs[j].status.IsTerminal()
    ensures s.jobs[j].exit.Some? && !WillLook(s.jobs[j].phase)
    ensures s.jobs[j].status == DrainLoop.FinalStatus(s.jobs[j].overflowed, s.jobs[j].cancelSeen, s.jobs[j].exit.value)
  {
    hide AuditOk;
    assert JobOk(s, j);
  }

  lemma KillClaims(s: Engine, j: nat)
    requires Inv(s) && j < |s.jobs| && KillJob(s, j).1
    ensures var k := KillJob(s, j).0;
            && Inv(k) && Claimed(k, j) && !k.jobs[j].cancelSeen && k.jobs[j].phase == s.jobs[j].phase
            && Rank(Inserted) < Rank(s.jobs[j].phase)
  {
    ApplyKeepsInv(s, Kill(j));
    hide AuditOk;
    assert JobOk(s, j);
  }

  /**
    After a cancel that succeeded, whatever happens next: the job ends Killed if and only if nothing overflowed
    and it still looked for a signal at some point after the cancel, or a signal ended the child anyway.
   */
  lemma CancelKillsExactly(s: Engine, j: nat, steps: seq<Step>)
    requires Reachable(s) && j < |s.jobs| && KillJob(s, j).1
    requires Run(KillJob(s, j).0, steps).Some?
    ensures var k := KillJob(s, j).0;
            var s' := Run(k, steps).value;
            j < |s'.jobs| && (s'.jobs[j].status.IsTerminal() ==>
              && s'.jobs[j].exit.Some?
              && (s'.jobs[j].status == Killed <==>
                    !s'.jobs[j].overflowed && (LooksOn(k, steps, j) || s'.jobs[j].exit.value.Signalled?)))
  {
    ReachableIsInv(s);
    KillClaims(s, j);
    hide Inv, KillJob;
    var k := KillJob(s, j).0;
    RunKeepsInvAndExtends(k, steps);
    ClaimedRun(k, steps, j);
    var s' := Run(k, steps).value;
    if s'.jobs[j].status.IsTerminal() {
      TerminalStatusIs(s', j);
      if LooksOn(k, steps, j) {
        LookingIsDue(k, steps, j);
      } else {
        UnseenStays(k, steps, j);
      }
    }
  }

  /**
    Told from the state at the cancel: unless it falls between the two halves of one poll, the job ends Killed
    if and only if nothing overflowed and it had not yet left its loop, or a signal ended the child anyway.
   */
  lemma CancelKillsExactlyBeforeTheLoopEnds(s: Engine, j: nat, steps: seq<Step>)
    requires Reachable(s) && j < |s.jobs| && KillJob(s, j).1 && s.jobs[j].phase != Looked
    requires Run(KillJob(s, j).0, steps).Some?
    ensures var s' := Run(KillJob(s, j).0, steps).value;
            j < |s'.jobs| && (s'.jobs[j].status.IsTerminal() ==>
              && s'.jobs[j].exit.Some?
              && (s'.jobs[j].status == Killed <==>
                    !s'.jobs[j].overflowed &&
                    (Rank(s.jobs[j].phase) < Rank(Reaping) || s'.jobs[j].exit.value.Signalled?)))
  {
    CancelKillsExactly(s, j, steps);
    ReachableIsInv(s);
    KillClaims(s, j);
    hide Inv, KillJob, Reachable;
    var k := KillJob(s, j).0;
    if WillLook(s.jobs[j].phase) {
      assert steps[..0] == [];
      assert LooksAt(k, steps, j, 0);
    } else {
      PastTheLoop(k, steps, j);
    }
  }

  /** Who has left the loop never looks again. */
  lemma PastTheLoop(s: Engine, steps: seq<Step>, j: nat)
    requires Inv(s) && j < |s.jobs| && Rank(s.jobs[j].phase) >= Rank(Reaping)
    ensures !LooksOn(s, steps, j)
  {
    forall n | 0 <= n <= |steps| ensures !LooksAt(s, steps, j, n) {
      if Run(s, steps[..n]).Some? {
        hide Inv;
        RunKeepsInvAndExtends(s, steps[..n]);
        assert JobExtends(s, Run(s, steps[..n]).value, j);
      }
    }
  }

  /** One job whose task has looked for a signal, found none, and not yet looked at its pipes. */
  function OneJobLooked(): Engine {
    Engine({0}, {}, ["t"], [[SessionOpened, JobStarted(0)]], [FRESH_JOB.(phase := Looked)], {0})
  }

  lemma OneJobLookedReachable()
    ensures Reachable(OneJobLooked())
  {
    hide Reachable;
    var s4 := OneJobStarting();
    var s5 := s4.(jobs := [FRESH_JOB.(phase := Polling)], audits := [[SessionOpened, JobStarted(0)]]);
    assert [SessionOpened] + [JobStarted(0)] == [SessionOpened, JobStarted(0)];
    assert s4.audits[0 := [SessionOpened, JobStarted(0)]] == s5.audits;
    assert s4.jobs[0 := FRESH_JOB.(phase := Polling)] == s5.jobs;
    assert s5.jobs[0 := FRESH_JOB.(phase := Looked)] == OneJobLooked().jobs;
    OneJobStartingReachable();
    StepReaches(s4, Task(0), s5);
    StepReaches(s5, LookForCancel(0), OneJobLooked());
  }

  /** Inside a poll a successful cancel decides nothing: the same state can still end Exited or Killed. */
  lemma CancelInsideAPollIsOpen()
    ensures exists s, steps: seq<Step>, steps': seq<Step> ::
              && Reachable(s) && |s.jobs| == 1 && KillJob(s, 0).1
              && var (a, b) := (Run(KillJob(s, 0).0, steps), Run(KillJob(s, 0).0, steps'));
                 && a.Some? && |a.value.jobs| == 1 && a.value.jobs[0].status == Exited(0)
                 && b.Some? && |b.value.jobs| == 1 && b.value.jobs[0].status == Killed
  {
    var s := OneJobLooked();
    OneJobLookedReachable();
    hide Reachable;
    var k := KillJob(s, 0).0;
    var job := FRESH_JOB.(phase := Looked, claims := 1);
    assert k == s.(cancels := {}, jobs := [job]) by { assert s.jobs[0 := job] == [job]; }
    var end := [LookAtPipes(0, Leave(false)), WriteStatus(0, DrainLoop.ExitCode(0))];
    var more := [LookAtPipes(0, NoData), LookForCancel(0), LookForCancel(0)];
    LeaveAndExit(k);
    var k3 := k.(jobs := [job.(cancelSeen := true)]);
    LookOnceMore(k);
    LeaveAndExit(k3);
    RunAppends(k, more, end);
    assert Run(k, more + end).Some?;
  }

  lemma LeaveAndExit(s: Engine)
    requires |s.jobs| == 1 && s.jobs[0].phase == Looked && !s.jobs[0].overflowed
    ensures var r := Run(s, [LookAtPipes(0, Leave(false)), WriteStatus(0, DrainLoop.ExitCode(0))]);
            r.Some? && |r.value.jobs| == 1 && r.value.jobs[0].status == if s.jobs[0].cancelSeen then Killed else Exited(0)
  {
    var steps := [LookAtPipes(0, Leave(false)), WriteStatus(0, DrainLoop.ExitCode(0))];
    var s1 := Apply(s, steps[0]).value;
    OneStep(s1, steps[1]);
    assert steps[1..] == [steps[1]];
    assert Run(s, steps) == Run(s1, steps[1..]);
  }

  lemma LookOnceMore(s: Engine)
    requires |s.jobs| == 1 && s.jobs[0].phase == Looked && s.jobs[0].claims == 1 && !s.jobs[0].cancelSeen
    ensures Run(s, [LookAtPipes(0, NoData), LookForCancel(0), LookForCancel(0)]) ==
            Some(s.(jobs := [s.jobs[0].(cancelSeen := true)]))
  {
    hide Run;
    var steps := [LookAtPipes(0, NoData), LookForCancel(0), LookForCancel(0)];
    var s1 := s.(jobs := [s.jobs[0].(phase := Polling)]);
    var s2 := s.(jobs := [s.jobs[0].(phase := Polling, cancelSeen := true)]);
    var s3 := s.(jobs := [s.jobs[0].(cancelSeen := true)]);
    assert s.jobs[0 := s1.jobs[0]] == s1.jobs && s1.jobs[0 := s2.jobs[0]] == s2.jobs && s2.jobs[0 := s3.jobs[0]] == s3.jobs;
    OneStep(s, steps[0]);
    OneStep(s1, steps[1]);
    OneStep(s2, steps[2]);
    RunAppends(s, [steps[0]], [steps[1]]);
    RunAppends(s, [steps[0]] + [steps[1]], [steps[2]]);
    assert [steps[0]] + [steps[1]] + [steps[2]] == steps;
  }

  /** A cancel that reports success after the status is written changes nothing: the job stays Exited. */
  lemma CancelOkNeedNotMeanKilled()
    ensures exists s :: Reachable(s) && |s.jobs| == 1 && s.jobs[0].status == Exited(0)
                        && KillJob(s, 0).1 && KillJob(s, 0).0.jobs[0].status == Exited(0)
  {
    hide Reachable;
    var s6 := OneJobLooked();
    var s7 := s6.(jobs := [FRESH_JOB.(phase := Reaping)]);
    var s8 := s6.(jobs := [FRESH_JOB.(phase := StatusWritten, status := Exited(0), exit := Some(DrainLoop.ExitCode(0)))]);
    assert s6.jobs[0 := s7.jobs[0]] == s7.jobs;
    assert s7.jobs[0 := s8.jobs[0]] == s8.jobs;
    OneJobLookedReachable();
    StepReaches(s6, LookAtPipes(0, Leave(false)), s7);
    StepReaches(s7, WriteStatus(0, DrainLoop.ExitCode(0)), s8);
    assert KillJob(s8, 0).1;
  }

  /** A session that was opened and is no longer live never authorizes again, with any token. */
  lemma ClosedSessionNeverAuthorizes(s: Engine, steps: seq<Step>, a: nat, presented: string)
    requires Reachable(s) && Run(s, steps).Some?
    requires a < |s.audits| && a !in s.live
    ensures !Authorizes(Run(s, steps).value, a, presented)
  {
    ReachableIsInv(s);
    RunKeepsInvAndExtends(s, steps);
    assert SessionExtends(s, Run(s, steps).value, a);
  }

  /**
    A finished event names a job of that session, carries the job's stored terminal status, follows
    exactly one started event of the job, and is the only finished event of the job in any session.
   */
  lemma AuditAgreesWithJobs(s: Engine, a: nat, i: nat, j: nat, status: JobStatus)
    requires Reachable(s) && a < |s.audits| && i < |s.audits[a]| && s.audits[a][i] == JobFinished(j, status)
    ensures j < |s.jobs| && s.jobs[j].session == a && s.jobs[j].status == status && status.IsTerminal()
    ensures exists k | 0 <= k < i :: s.audits[a][k] == JobStarted(j)
    ensures forall k, m | 0 <= k < m < |s.audits[a]| ::
              !(s.audits[a][k] == JobStarted(j) && s.audits[a][m] == JobStarted(j))
    ensures forall b, m | 0 <= b < |s.audits| && 0 <= m < |s.audits[b]| && s.audits[b][m].JobFinished?
                          && s.audits[b][m].job == j :: b == a && m == i
  {
    ReachableIsInv(s);
    assert AuditOk(s, a) && EventOk(s, a, i) && JobOk(s, j);
    var k :| 0 <= k < |s.audits[a][..i]| && s.audits[a][..i][k] == JobStarted(j);
    assert s.audits[a][k] == JobStarted(j);
    forall x, m | 0 <= x < m < |s.audits[a]|
      ensures !(s.audits[a][x] == JobStarted(j) && s.audits[a][m] == JobStarted(j))
    {
      assert !SameRecord(s.audits[a][x], s.audits[a][m]);
    }
    forall b, m | 0 <= b < |s.audits| && 0 <= m < |s.audits[b]| && s.audits[b][m].JobFinished? && s.audits[b][m].job == j
      ensures b == a && m == i
    {
      assert AuditOk(s, b) && EventOk(s, b, m);
      assert SameRecord(s.audits[b][m], s.audits[a][i]) && SameRecord(s.audits[a][i], s.audits[b][m]);
    }
  }

  /** A job that is done while its session is still open has its start and its finish, with its status, in the audit log. */
  lemma DoneJobsAreAudited(s: Engine, j: nat)
    requires Reachable(s) && j < |s.jobs| && s.jobs[j].phase == Done && s.jobs[j].session in s.live
    ensures var a := s.jobs[j].session;
            && a < |s.audits|
            && JobStarted(j) in s.audits[a] && JobFinished(j, s.jobs[j].status) in s.audits[a]
            && s.jobs[j].status.IsTerminal() && j !in s.cancels
  {
    ReachableIsInv(s);
    hide AuditOk;
    assert JobOk(s, j);
  }

  /** A job that has left its loop ends with its child, and over every continuation: its code, a signal or the error of waiting. */
  lemma JobEndsAsItsChild(s: Engine, j: nat, exit: DrainLoop.ChildExit, steps: seq<Step>)
    requires Reachable(s) && j < |s.jobs|
    requires Run(s, [WriteStatus(j, exit)] + steps).Some?
    ensures var s' := Run(s, [WriteStatus(j, exit)] + steps).value;
            j < |s'.jobs|
            && s'.jobs[j].status ==
               if s.jobs[j].overflowed then Failed("log buffer overflow")
               else if s.jobs[j].cancelSeen then Killed
               else match exit
                 case ExitCode(c) => Exited(c)
                 case Signalled => Killed
                 case WaitError(reason) => Failed(reason)
  {
    ReachableIsInv(s);
    var all := [WriteStatus(j, exit)] + steps;
    assert all[0] == WriteStatus(j, exit) && all[1..] == steps;
    var next := Apply(s, all[0]).value;
    ApplyKeepsInv(s, all[0]);
    hide Inv;
    RunKeepsInvAndExtends(next, steps);
    assert JobExtends(next, Run(next, steps).value, j);
  }

  /** An opened session authorizes its own token and no other for as long as it is live, over every continuation. */
  lemma OpenedSessionAuthorizesItsToken(s: Engine, token: string, presented: string, steps: seq<Step>)
    requires Reachable(s) && Run(s, [Open(token)] + steps).Some?
    ensures var (s', a) := (Run(s, [Open(token)] + steps).value, |s.audits|);
            && a in Apply(s, Open(token)).value.live
            && (Authorizes(s', a, presented) <==> a in s'.live && presented == token)
  {
    ReachableIsInv(s);
    var all := [Open(token)] + steps;
    assert all[0] == Open(token) && all[1..] == steps;
    var next := Apply(s, all[0]).value;
    ApplyKeepsInv(s, all[0]);
    assert |s.tokens| == |s.audits| && next.tokens[|s.audits|] == token;
    hide Inv;
    RunKeepsInvAndExtends(next, steps);
    assert next.tokens <= Run(next, steps).value.tokens;
  }

  /** The chunk that a step reads for one job, if it does. */
  function ChunkRead(step: Step, j: nat): seq<seq<Byte>> {
    match step
    case LookAtPipes(k, Chunk(data)) => if k == j then [data] else []
    case _ => []
  }

  function ChunksRead(steps: seq<Step>, j: nat): seq<seq<Byte>> {
    if steps == [] then [] else ChunkRead(steps[0], j) + ChunksRead(steps[1..], j)
  }

  lemma StepLogsWhatItReads(s: Engine, step: Step, j: nat)
    requires j < |s.jobs| && Apply(s, step).Some?
    ensures j < |Apply(s, step).value.jobs|
    ensures Apply(s, step).value.jobs[j].log == s.jobs[j].log + ChunkRead(step, j)
  {
    assert s.jobs[j].log + [] == s.jobs[j].log;
  }

  /** Over every run a job's log grows by exactly the chunks read for it, in order. */
  lemma {:induction false} LogIsWhatWasRead(s: Engine, steps: seq<Step>, j: nat)
    requires j < |s.jobs| && Run(s, steps).Some?
    ensures j < |Run(s, steps).value.jobs|
    ensures Run(s, steps).value.jobs[j].log == s.jobs[j].log + ChunksRead(steps, j)
    decreases |steps|
  {
    hide Apply, ChunkRead;
    var log := s.jobs[j].log;
    if steps == [] {
      assert log + [] == log;
    } else {
      var rest := steps[1..];
      StepLogsWhatItReads(s, steps[0], j);
      LogIsWhatWasRead(Apply(s, steps[0]).value, rest, j);
      assert log + ChunkRead(steps[0], j) + ChunksRead(rest, j) == log + (ChunkRead(steps[0], j) + ChunksRead(rest, j));
    }
  }

  predicate Recording(p: Phase) {
    p in {StartRecording, FinishRecording}
  }

  /** The session is closed, its close is recorded, and no task still holds its handle to write. */
  predicate Quiet(s: Engine, a: nat) {
    && a !in s.live && a !in s.closing
    && forall k | 0 <= k < |s.jobs| && s.jobs[k].session == a :: !Recording(s.jobs[k].phase)
  }

  lemma QuietStep(s: Engine, step: Step, a: nat)
    requires Inv(s) && a < |s.audits| && Quiet(s, a) && Apply(s, step).Some?
    ensures var s' := Apply(s, step).value; a < |s'.audits| && Quiet(s', a) && s'.audits[a] == s.audits[a]
  {
    hide Inv;
  }

  lemma {:induction false} QuietRun(s: Engine, steps: seq<Step>, a: nat)
    requires Inv(s) && a < |s.audits| && Quiet(s, a) && Run(s, steps).Some?
    ensures a < |Run(s, steps).value.audits| && Run(s, steps).value.audits[a] == s.audits[a]
    decreases |steps|
  {
    if steps != [] {
      QuietStep(s, steps[0], a);
      ApplyKeepsInv(s, steps[0]);
      QuietRun(Apply(s, steps[0]).value, steps[1..], a);
    }
  }

  /** After its close is recorded an audit log is final if and only if no task holds the session to record. */
  lemma AuditFinalAfterCloseExactly(s: Engine, a: nat)
    requires Reachable(s) && a < |s.audits| && a !in s.live && a !in s.closing
    ensures Quiet(s, a) <==>
            forall steps: seq<Step> | Run(s, steps).Some? ::
              a < |Run(s, steps).value.audits| && Run(s, steps).value.audits[a] == s.audits[a]
  {
    ReachableIsInv(s);
    if Quiet(s, a) {
      forall steps: seq<Step> | Run(s, steps).Some?
        ensures a < |Run(s, steps).value.audits| && Run(s, steps).value.audits[a] == s.audits[a]
      {
        QuietRun(s, steps, a);
      }
    } else {
      var k :| 0 <= k < |s.jobs| && s.jobs[k].session == a && Recording(s.jobs[k].phase);
      var next := TaskStep(s, k).value;
      assert |next.audits[a]| == |s.audits[a]| + 1;
      var steps := [Task(k)];
      OneStep(s, Task(k));
      assert Run(s, steps) == Some(next);
    }
  }

  /** A started event can follow the close: its recorder took the session handle before the removal. */
  lemma SessionClosedNeedNotBeLast()
    ensures exists s :: Reachable(s) && s.audits == [[SessionOpened, SessionClosed, JobStarted(0)]]
  {
    hide Reachable;
    var s4 := OneJobStarting();
    var s5 := s4.(live := {}, closing := {0});
    var s6 := s5.(closing := {}, audits := [[SessionOpened, SessionClosed]]);
    var s7 := s6.(jobs := [FRESH_JOB.(phase := Polling)], audits := [[SessionOpened, SessionClosed, JobStarted(0)]]);
    assert s4.live - {0} == s5.live && s4.closing + {0} == s5.closing;
    assert [SessionOpened] + [SessionClosed] == [SessionOpened, SessionClosed];
    assert s5.audits[0 := [SessionOpened, SessionClosed]] == s6.audits && s5.closing - {0} == s6.closing;
    assert [SessionOpened, SessionClosed] + [JobStarted(0)] == [SessionOpened, SessionClosed, JobStarted(0)];
    assert s6.audits[0 := [SessionOpened, SessionClosed, JobStarted(0)]] == s7.audits;
    assert s6.jobs[0 := FRESH_JOB.(phase := Polling)] == s7.jobs;
    OneJobStartingReachable();
    StepReaches(s4, CloseRemove(0), s5);
    StepReaches(s5, CloseRecord(0), s6);
    StepReaches(s6, Task(0), s7);
  }
}
