/** The reader object itself: one uninterrupted poll of `next`, tied to the atomic steps. */
module JobLogStreams {
  import opened Prelude
  import opened ReplayLog
  import opened JobModel
  import opened LogStreaming

  datatype Polled = Ready(frame: Option<LogEventFrame>) | Waiting(seen: nat)

  function AdvanceMany(r: Reader, jobId: string, log: LogState, status: JobStatus, n: nat): Option<Reader>
    decreases n
  {
    if n == 0 then Some(r)
    else
      var before := AdvanceMany(r, jobId, log, status, n - 1);
      if before.None? then None else AdvanceReader(before.value, jobId, log, status, false)
  }

  lemma NoSteps(r: Reader, jobId: string, log: LogState, status: JobStatus)
    ensures AdvanceMany(r, jobId, log, status, 0) == Some(r)
  {
  }

  lemma PhaseIsNotContent(r: Reader, r': Reader, jobId: string, events: seq<LogEvent>)
    requires ExactDelivery(r, jobId, events) && r' == r.(phase := r'.phase)
    ensures ExactDelivery(r', jobId, events)
  {
  }

  lemma PoppedIsExact(r: Reader, jobId: string, events: seq<LogEvent>)
    requires ExactDelivery(r, jobId, events) && r.pending != []
    ensures ExactDelivery(r.(pending := r.pending[1..], delivered := r.delivered + [r.pending[0]], phase := Idle),
                          jobId, events)
  {
    assert r.delivered + [r.pending[0]] + r.pending[1..] == r.delivered + r.pending;
  }

  lemma DrainedToTheEnd(events: seq<LogEvent>, cursor: nat, jobId: string)
    requires cursor >= |events|
    ensures FramesOf(jobId, Since(events, cursor)) == []
  {
  }

  lemma {:induction false} AdvanceManyAdds(r: Reader, jobId: string, log: LogState, status: JobStatus, n: nat, m: nat)
    requires AdvanceMany(r, jobId, log, status, n).Some?
    ensures AdvanceMany(r, jobId, log, status, n + m) ==
            AdvanceMany(AdvanceMany(r, jobId, log, status, n).value, jobId, log, status, m)
    decreases m
  {
    if m > 0 {
      AdvanceManyAdds(r, jobId, log, status, n, m - 1);
    }
  }

  /** Where a drained reader goes next. */
  function AfterDrain(r: Reader): Reader
    requires r.phase.Drained?
  {
    r.(phase := if r.pending != [] then Polling else if r.phase.terminal then Ended else Parked(r.phase.seen))
  }

  lemma RefillIsThreeSteps(r: Reader, jobId: string, log: LogState, status: JobStatus)
    requires r.phase == Polling && r.pending == []
    ensures AdvanceMany(r, jobId, log, status, 3) ==
            Some(AfterDrain(Drain(r.(phase := Registered(log.wakes)), jobId, log, status)))
  {
    hide FramesOf, Since;
    var registered := r.(phase := Registered(log.wakes));
    assert AdvanceMany(r, jobId, log, status, 0 + 1) == Some(registered);
    AdvanceManyAdds(r, jobId, log, status, 1, 1);
    var drained := Drain(registered, jobId, log, status);
    assert AdvanceMany(registered, jobId, log, status, 0 + 1) == Some(drained);
    AdvanceManyAdds(r, jobId, log, status, 2, 1);
    assert AdvanceMany(drained, jobId, log, status, 0 + 1) == Some(AfterDrain(drained));
  }

  /** What a reader has still to return is its queue, then the log from its cursor on. */
  lemma UndeliveredIsQueueThenLog(r: Reader, jobId: string, events: seq<LogEvent>)
    requires ExactDelivery(r, jobId, events)
    ensures FramesOf(jobId, Since(events, r.start + |r.delivered|)) == r.pending + FramesOf(jobId, Since(events, r.cursor))
  {
    var undelivered := FramesOf(jobId, Since(events, r.start + |r.delivered|));
    forall k | 0 <= k < |r.pending| ensures k < |undelivered| && undelivered[k] == r.pending[k] {
      assert (r.delivered + r.pending)[|r.delivered| + k] == r.pending[k];
    }
  }

  class JobLogStream {
    const jobId: string
    var cursor: nat
    var pending: seq<LogEventFrame>
    ghost const start: nat
    ghost var delivered: seq<LogEventFrame>
    ghost var phase: Phase

    ghost function View(): Reader
      reads this
    {
      Reader(start, cursor, pending, delivered, phase)
    }

    constructor (jobId: string, fromOffset: nat)
      ensures this.jobId == jobId && View() == NewReader(fromOffset)
    {
      this.jobId, cursor, pending := jobId, fromOffset, [];
      start, delivered, phase := fromOffset, [], Idle;
    }

    /** The locked section: queue every event from the cursor on, and read whether the job is terminal. */
    method DrainLog(log: InMemoryReplayLog, status: JobStatus) returns (terminal: bool)
      requires phase.Registered? && pending == []
      modifies this
      ensures View() == Drain(old(View()), jobId, log.View(), status)
      ensures terminal == status.IsTerminal()
    {
      var replay := Since(log.events, cursor);
      var k := 0;
      while k < |replay|
        invariant k <= |replay|
        invariant pending == FramesOf(jobId, replay[..k])
        invariant cursor == if k == 0 then old(cursor) else replay[k - 1].seqNo + 1
        invariant phase == old(phase) && delivered == old(delivered)
      {
        pending := pending + [EventToFrame(jobId, replay[k])];
        cursor := replay[k].seqNo + 1;
        k := k + 1;
      }
      assert replay[..k] == replay;
      assert [] + FramesOf(jobId, replay) == FramesOf(jobId, replay);
      terminal := status.IsTerminal();
      phase := Drained(phase.seen, terminal);
    }

    method Pop(ghost log: LogState, ghost status: JobStatus) returns (frame: LogEventFrame)
      requires phase == Polling && pending != [] && ExactDelivery(View(), jobId, log.events)
      modifies this
      ensures frame == old(pending)[0] && delivered == old(delivered) + [frame] && phase == Idle
      ensures ExactDelivery(View(), jobId, log.events)
      ensures AdvanceMany(old(View()), jobId, log, status, 1) == Some(View())
    {
      PoppedIsExact(View(), jobId, log.events);
      frame := pending[0];
      pending := pending[1..];
      delivered := delivered + [frame];
      phase := Idle;
    }

    /** Register interest, drain under the lock, and go where the drain leads. */
    method Refill(log: InMemoryReplayLog, status: JobStatus)
      requires phase == Polling && pending == []
      requires WellFormed(log.View()) && ExactDelivery(View(), jobId, log.events)
      modifies this
      ensures ExactDelivery(View(), jobId, log.events)
      ensures delivered == old(delivered) && cursor >= |log.events|
      ensures phase == if pending != [] then Polling else if status.IsTerminal() then Ended else Parked(log.wakes)
      ensures AdvanceMany(old(View()), jobId, log.View(), status, 3) == Some(View())
    {
      hide AdvanceMany, ExactDelivery, WellFormed, Since, FramesOf;
      RefillIsThreeSteps(View(), jobId, log.View(), status);
      PhaseIsNotContent(View(), View().(phase := Registered(log.wakes)), jobId, log.events);
      phase := Registered(log.wakes);
      DrainKeepsExactDelivery(View(), Stream(jobId, log.View(), status, Notified, []));
      var terminal := DrainLog(log, status);
      ghost var drained := View();
      phase := if pending != [] then Polling else if terminal then Ended else Parked(phase.seen);
      PhaseIsNotContent(drained, View(), jobId, log.events);
    }

    /**
      One poll with no other task in between: the next undelivered frame if there is one, else the end
      of a terminal job, else a wait.  It is a run of the atomic steps of the reader.
     */
    method Poll(log: InMemoryReplayLog, status: JobStatus) returns (polled: Polled, ghost steps: nat)
      requires phase == Polling && WellFormed(log.View()) && ExactDelivery(View(), jobId, log.events)
      modifies this
      ensures ExactDelivery(View(), jobId, log.events)
      ensures var undelivered := FramesOf(jobId, Since(log.events, start + |old(delivered)|));
              if undelivered != [] then
                && polled == Ready(Some(undelivered[0]))
                && delivered == old(delivered) + [undelivered[0]]
                && phase == Idle
              else
                && polled == (if status.IsTerminal() then Ready(None) else Waiting(log.wakes))
                && delivered == old(delivered)
                && phase == (if status.IsTerminal() then Ended else Parked(log.wakes))
      ensures AdvanceMany(old(View()), jobId, log.View(), status, steps) == Some(View())
    {
      hide AdvanceMany, WellFormed, ExactDelivery, FramesOf, Since;
      ghost var first := View();
      NoSteps(first, jobId, log.View(), status);
      UndeliveredIsQueueThenLog(first, jobId, log.events);
      steps := 0;
      while true
        invariant phase == Polling && delivered == first.delivered
        invariant ExactDelivery(View(), jobId, log.events)
        invariant AdvanceMany(first, jobId, log.View(), status, steps) == Some(View())
        decreases |pending| == 0
      {
        UndeliveredIsQueueThenLog(View(), jobId, log.events);
        if pending != [] {
          var frame := Pop(log.View(), status);
          AdvanceManyAdds(first, jobId, log.View(), status, steps, 1);
          return Ready(Some(frame)), steps + 1;
        }
        var seen := log.wakes;
        Refill(log, status);
        AdvanceManyAdds(first, jobId, log.View(), status, steps, 3);
        steps := steps + 3;
        if pending != [] {
          continue;
        }
        UndeliveredIsQueueThenLog(View(), jobId, log.events);
        DrainedToTheEnd(log.events, cursor, jobId);
        if status.IsTerminal() {
          return Ready(None), steps;
        }
        return Waiting(seen), steps;
      }
    }
  }
}
