/**
  One job's log as its writer and any number of attached readers share it, cut into atomic steps at
  lock and await boundaries.  The wake handle is a generation counter: registering interest records
  the current generation, `notify_waiters` bumps it, and a waiter runs on once it has moved.
  */
module LogStreaming {
  import opened Prelude
  import opened ReplayLog
  import opened JobModel

  /** Where a reader stands in `next`; `seen` is the generation at which it registered interest. */
  datatype Phase =
    | Idle
    | Polling
    | Registered(seen: nat)
    | Drained(seen: nat, terminal: bool)
    | Parked(seen: nat)
    | Ended

  /** A reader attached at `start`; `delivered` is the history of what its `next` calls returned. */
  datatype Reader = Reader(start: nat, cursor: nat, pending: seq<LogEventFrame>,
                           delivered: seq<LogEventFrame>, phase: Phase)

  /** The writer: draining the child, inside `append` between push and notify, or in `finish_job`. */
  datatype Writer = Draining | Pushed | StatusWritten | Notified

  datatype Stream = Stream(jobId: string, log: LogState, status: JobStatus, writer: Writer, readers: seq<Reader>)

  datatype Step =
    | Push(event: AppendLogEvent)
    | NotifyAppend
    | WriteStatus(final: JobStatus)
    | NotifyFinish
    | Attach(fromOffset: nat)
    | CallNext(i: nat)
    | Advance(i: nat)
    | Abandon(i: nat)

  function NewStream(jobId: string, byteCap: nat): Stream {
    Stream(jobId, NewLog(byteCap), Running, Draining, [])
  }

  function NewReader(fromOffset: nat): Reader {
    Reader(fromOffset, fromOffset, [], [], Idle)
  }

  /** The locked section of `next`: queue every event from the cursor on, and look at the status. */
  function Drain(r: Reader, jobId: string, log: LogState, status: JobStatus): Reader
    requires r.phase.Registered?
  {
    var replay := Since(log.events, r.cursor);
    r.(pending := r.pending + FramesOf(jobId, replay),
       cursor := if replay == [] then r.cursor else replay[|replay| - 1].seqNo + 1,
       phase := Drained(r.phase.seen, status.IsTerminal()))
  }

  /** One atomic step of a `next` call in progress; `None` while it has to wait. */
  function AdvanceReader(r: Reader, jobId: string, log: LogState, status: JobStatus, writeLocked: bool): Option<Reader> {
    match r.phase
    case Polling =>
      if r.pending != []
      then Some(r.(pending := r.pending[1..], delivered := r.delivered + [r.pending[0]], phase := Idle))
      else Some(r.(phase := Registered(log.wakes)))
    case Registered(_) =>
      if writeLocked then None else Some(Drain(r, jobId, log, status))
    case Drained(seen, terminal) =>
      if r.pending != [] then Some(r.(phase := Polling))
      else if terminal then Some(r.(phase := Ended))
      else Some(r.(phase := Parked(seen)))
    case Parked(seen) =>
      if log.wakes > seen then Some(r.(phase := Polling)) else None
    case _ => None
  }

  /** `None` where the step is not enabled. */
  function Apply(s: Stream, step: Step): Option<Stream> {
    match step
    case Push(e) =>
      if s.writer != Draining then None
      else
        var (log, r) := AppendTo(s.log, e);
        if r.Failure? then Some(s) else Some(s.(log := log.(wakes := s.log.wakes), writer := Pushed))
    case NotifyAppend =>
      if s.writer != Pushed then None
      else Some(s.(log := s.log.(wakes := s.log.wakes + 1), writer := Draining))
    case WriteStatus(final) =>
      if s.writer != Draining || !final.IsTerminal() then None
      else Some(s.(status := final, writer := StatusWritten))
    case NotifyFinish =>
      if s.writer != StatusWritten then None
      else Some(s.(log := s.log.(wakes := s.log.wakes + 1), writer := Notified))
    case Attach(fromOffset) => Some(s.(readers := s.readers + [NewReader(fromOffset)]))
    case CallNext(i) =>
      if i >= |s.readers| || !(s.readers[i].phase in {Idle, Ended}) then None
      else Some(s.(readers := s.readers[i := s.readers[i].(phase := Polling)]))
    case Advance(i) =>
      if i >= |s.readers| then None
      else
        var r := AdvanceReader(s.readers[i], s.jobId, s.log, s.status, s.writer == Pushed);
        if r.None? then None else Some(s.(readers := s.readers[i := r.value]))
    case Abandon(i) =>
      if i >= |s.readers| || !s.readers[i].phase.Parked? then None
      else Some(s.(readers := s.readers[i := s.readers[i].(phase := Idle)]))
  }

  function Run(s: Stream, steps: seq<Step>): Option<Stream>
    decreases |steps|
  {
    if steps == [] then Some(s)
    else
      var next := Apply(s, steps[0]);
      if next.None? then None else Run(next.value, steps[1..])
  }

  // ---- The invariant ----

  function Slice(events: seq<LogEvent>, from: nat, to: nat): seq<LogEvent> {
    if from <= to <= |events| then events[from..to] else []
  }

  /** Exact delivery: what a reader returned and still queues is the log from its offset to its cursor. */
  predicate ExactDelivery(r: Reader, jobId: string, events: seq<LogEvent>) {
    && r.start <= r.cursor
    && (r.cursor == r.start || r.cursor <= |events|)
    && r.delivered + r.pending == FramesOf(jobId, Slice(events, r.start, r.cursor))
  }

  /** Nothing has been missed since registration, unless a notify has happened or is still owed. */
  predicate NothingMissed(r: Reader, s: Stream, seen: nat, terminal: bool) {
    && seen <= s.log.wakes
    && (seen == s.log.wakes && s.writer != Pushed ==> r.cursor >= |s.log.events|)
    && (seen == s.log.wakes && !terminal && s.status.IsTerminal() ==> s.writer == StatusWritten)
  }

  predicate PhaseOk(r: Reader, s: Stream) {
    match r.phase
    case Idle => true
    case Polling => true
    case Registered(seen) => r.pending == [] && seen <= s.log.wakes
    case Drained(seen, terminal) =>
      && NothingMissed(r, s, seen, terminal)
      && (terminal ==> s.status.IsTerminal() && r.cursor >= |s.log.events|)
    case Parked(seen) => r.pending == [] && NothingMissed(r, s, seen, false)
    case Ended => r.pending == [] && s.status.IsTerminal() && r.cursor >= |s.log.events|
  }

  predicate ReaderOk(r: Reader, s: Stream) {
    ExactDelivery(r, s.jobId, s.log.events) && PhaseOk(r, s)
  }

  predicate Inv(s: Stream) {
    && WellFormed(s.log)
    && (s.status == Running || s.status.IsTerminal())
    && (s.status.IsTerminal() <==> s.writer in {StatusWritten, Notified})
    && forall k | 0 <= k < |s.readers| :: ReaderOk(s.readers[k], s)
  }

  lemma FramesOfAppended(jobId: string, a: seq<LogEvent>, b: seq<LogEvent>)
    ensures FramesOf(jobId, a + b) == FramesOf(jobId, a) + FramesOf(jobId, b)
  {
  }

  lemma DrainKeepsExactDelivery(r: Reader, s: Stream)
    requires WellFormed(s.log) && r.phase.Registered? && ExactDelivery(r, s.jobId, s.log.events)
    ensures var r' := Drain(r, s.jobId, s.log, s.status);
            ExactDelivery(r', s.jobId, s.log.events) && r'.cursor >= |s.log.events|
  {
    var events := s.log.events;
    var replay := Since(events, r.cursor);
    if replay != [] {
      assert replay[|replay| - 1] == events[|events| - 1];
      assert Slice(events, r.start, |events|) == Slice(events, r.start, r.cursor) + replay;
      FramesOfAppended(s.jobId, Slice(events, r.start, r.cursor), replay);
    }
  }

  lemma AdvanceKeepsReaderOk(r: Reader, s: Stream)
    requires Inv(s) && ReaderOk(r, s)
    ensures var r' := AdvanceReader(r, s.jobId, s.log, s.status, s.writer == Pushed);
            r'.Some? ==> ReaderOk(r'.value, s)
  {
    match r.phase
    case Polling =>
      if r.pending != [] {
        assert r.delivered + [r.pending[0]] + r.pending[1..] == r.delivered + r.pending;
      }
    case Registered(_) => DrainKeepsExactDelivery(r, s);
    case _ =>
  }

  /** Steps of the writer: they add at most one event, under the lock, and never after the status. */
  predicate WriterStep(s: Stream, s': Stream) {
    && s' == s.(log := s'.log, status := s'.status, writer := s'.writer)
    && s.log.events <= s'.log.events && s.log.wakes <= s'.log.wakes
    && (s.status.IsTerminal() ==> s'.status == s.status && s'.log.events == s.log.events)
    && (s'.log.events != s.log.events ==> s'.writer == Pushed)
    && (s'.log.wakes == s.log.wakes && s'.writer != Pushed ==> s.writer != Pushed)
    && (s'.log.wakes == s.log.wakes && s'.status.IsTerminal() ==> s'.writer == StatusWritten)
  }

  lemma WriterStepKeepsReaders(s: Stream, s': Stream)
    requires Inv(s) && WellFormed(s'.log) && WriterStep(s, s')
    ensures forall k | 0 <= k < |s'.readers| :: ReaderOk(s'.readers[k], s')
  {
    forall k | 0 <= k < |s'.readers| ensures ReaderOk(s'.readers[k], s') {
      var r := s.readers[k];
      assert ReaderOk(r, s);
      if r.cursor <= |s.log.events| {
        assert Slice(s'.log.events, r.start, r.cursor) == Slice(s.log.events, r.start, r.cursor);
      } else if r.cursor <= |s'.log.events| {
        assert Slice(s'.log.events, r.start, r.cursor) == [];
      }
    }
  }

  lemma WriterStepKeepsInv(s: Stream, step: Step)
    requires Inv(s) && Apply(s, step).Some?
    requires step.Push? || step.NotifyAppend? || step.WriteStatus? || step.NotifyFinish?
    ensures Inv(Apply(s, step).value)
  {
    hide ReaderOk, Size;
    var s' := Apply(s, step).value;
    if step.Push? {
      AppendKeepsLogWellFormed(s.log, step.event);
    }
    if s' != s {
      WriterStepKeepsReaders(s, s');
    }
  }

  lemma ReaderStepKeepsInv(s: Stream, step: Step)
    requires Inv(s) && Apply(s, step).Some?
    requires step.CallNext? || step.Advance? || step.Abandon?
    ensures Inv(Apply(s, step).value)
  {
    hide AdvanceReader, WellFormed, ExactDelivery;
    var (s', i) := (Apply(s, step).value, step.i);
    assert ReaderOk(s.readers[i], s);
    if step.Advance? {
      AdvanceKeepsReaderOk(s.readers[i], s);
    } else {
      PhaseIsNotDelivery(s.readers[i], s'.readers[i].phase, s);
    }
    OthersKept(s, s', i);
  }

  lemma PhaseIsNotDelivery(r: Reader, phase: Phase, s: Stream)
    ensures ExactDelivery(r.(phase := phase), s.jobId, s.log.events) <==> ExactDelivery(r, s.jobId, s.log.events)
  {
  }

  lemma AttachKeepsInv(s: Stream, fromOffset: nat)
    requires Inv(s)
    ensures Inv(s.(readers := s.readers + [NewReader(fromOffset)]))
  {
    hide WellFormed;
    var s' := s.(readers := s.readers + [NewReader(fromOffset)]);
    assert ReaderOk(NewReader(fromOffset), s');
    forall k | 0 <= k < |s'.readers| ensures ReaderOk(s'.readers[k], s') {
      if k < |s.readers| {
        assert ReaderOk(s.readers[k], s);
      }
    }
  }

  lemma ApplyKeepsInv(s: Stream, step: Step)
    requires Inv(s) && Apply(s, step).Some?
    ensures Inv(Apply(s, step).value)
  {
    hide Inv;
    match step
    case Attach(fromOffset) => AttachKeepsInv(s, fromOffset);
    case CallNext(_) => ReaderStepKeepsInv(s, step);
    case Advance(_) => ReaderStepKeepsInv(s, step);
    case Abandon(_) => ReaderStepKeepsInv(s, step);
    case _ => WriterStepKeepsInv(s, step);
  }

  lemma OthersKept(s: Stream, s': Stream, i: nat)
    requires Inv(s) && i < |s.readers| && i < |s'.readers|
    requires s' == s.(readers := s.readers[i := s'.readers[i]])
    requires ReaderOk(s'.readers[i], s)
    ensures Inv(s')
  {
    hide WellFormed, ExactDelivery;
    forall k | 0 <= k < |s'.readers| ensures ReaderOk(s'.readers[k], s') {
      if k != i {
        assert s'.readers[k] == s.readers[k] && ReaderOk(s.readers[k], s);
      }
    }
  }

  lemma {:induction false} RunKeepsInv(s: Stream, steps: seq<Step>)
    requires Inv(s) && Run(s, steps).Some?
    ensures Inv(Run(s, steps).value)
    decreases |steps|
  {
    if steps != [] {
      ApplyKeepsInv(s, steps[0]);
      RunKeepsInv(Apply(s, steps[0]).value, steps[1..]);
    }
  }

  ghost predicate Reachable(s: Stream) {
    exists jobId: string, byteCap: nat, steps: seq<Step> ::
      byteCap <= USIZE_MAX && Run(NewStream(jobId, byteCap), steps) == Some(s)
  }

  lemma ReachableIsInv(s: Stream)
    requires Reachable(s)
    ensures Inv(s)
  {
    var jobId: string, byteCap: nat, steps: seq<Step> :|
      byteCap <= USIZE_MAX && Run(NewStream(jobId, byteCap), steps) == Some(s);
    RunKeepsInv(NewStream(jobId, byteCap), steps);
  }

  lemma {:induction false} RunAppends(s: Stream, a: seq<Step>, b: seq<Step>)
    requires Run(s, a).Some?
    ensures Run(s, a + b) == Run(Run(s, a).value, b)
    decreases |a|
  {
    hide Apply;
    if a == [] {
      assert a + b == b;
    } else {
      assert (a + b)[0] == a[0] && (a + b)[1..] == a[1..] + b;
      RunAppends(Apply(s, a[0]).value, a[1..], b);
    }
  }

  lemma RunReaches(s: Stream, steps: seq<Step>)
    requires Reachable(s) && Run(s, steps).Some?
    ensures Reachable(Run(s, steps).value)
  {
    var jobId: string, byteCap: nat, before: seq<Step> :|
      byteCap <= USIZE_MAX && Run(NewStream(jobId, byteCap), before) == Some(s);
    RunAppends(NewStream(jobId, byteCap), before, steps);
    hide Run;
    assert Run(NewStream(jobId, byteCap), before + steps) == Some(Run(s, steps).value);
  }

  // ---- What readers can rely on ----

  predicate OwesNotify(s: Stream) {
    s.writer in {Pushed, StatusWritten}
  }

  /** A parked reader that nobody has woken or still owes a wake has read everything of a running job. */
  lemma NoLostWakeup(s: Stream, i: nat)
    requires Reachable(s) && i < |s.readers| && s.readers[i].phase.Parked?
    requires s.log.wakes == s.readers[i].phase.seen && !OwesNotify(s)
    ensures s.status == Running && s.readers[i].cursor >= |s.log.events| && s.readers[i].pending == []
    ensures s.readers[i].delivered == FramesOf(s.jobId, Since(s.log.events, s.readers[i].start))
  {
    ReachableIsInv(s);
    DeliveredAllAtCursor(s.readers[i], s);
  }

  lemma DeliveredAllAtCursor(r: Reader, s: Stream)
    requires ReaderOk(r, s) && r.cursor >= |s.log.events| && r.pending == []
    ensures r.delivered == FramesOf(s.jobId, Since(s.log.events, r.start))
  {
    assert r.delivered + [] == r.delivered;
    assert Slice(s.log.events, r.start, r.cursor) == Since(s.log.events, r.start);
  }

  /** In every reachable state: no gap, no repeat, no reorder, whatever the attach offset. */
  lemma DeliveryIsExact(s: Stream, i: nat)
    requires Reachable(s) && i < |s.readers|
    ensures var r := s.readers[i];
            r.delivered + r.pending == FramesOf(s.jobId, Slice(s.log.events, r.start, r.cursor))
    ensures forall k | 0 <= k < |s.readers[i].delivered| :: s.readers[i].delivered[k].seqNo == s.readers[i].start + k
  {
    ReachableIsInv(s);
    var r := s.readers[i];
    assert ReaderOk(r, s);
    forall k | 0 <= k < |r.delivered| ensures r.delivered[k].seqNo == r.start + k {
      assert r.delivered[k] == (r.delivered + r.pending)[k];
    }
  }

  /**
    What a client is handed: the frame numbered `start + k` carries the job's id and the stream and the bytes of
    that very event of the log, with its time cut to milliseconds; a time before the epoch reads as zero.
   */
  lemma DeliveredFramesCarryTheLog(s: Stream, i: nat, k: nat)
    requires Reachable(s) && i < |s.readers| && k < |s.readers[i].delivered|
    ensures var n := s.readers[i].start + k;
            n < |s.log.events|
            && var (frame, ev) := (s.readers[i].delivered[k], s.log.events[n]);
               && frame.jobId == s.jobId && frame.seqNo == n
               && frame.stream == ev.stream && frame.data == ev.data
               && (ev.timestamp < 0 ==> frame.tsMillis == 0)
               && (0 <= ev.timestamp < 0x1_0000_0000_0000_0000 * 1_000_000 ==>
                     frame.tsMillis * 1_000_000 <= ev.timestamp < (frame.tsMillis + 1) * 1_000_000)
  {
    ReachableIsInv(s);
    DeliveryIsExact(s, i);
    var r := s.readers[i];
    assert r.delivered[k] == (r.delivered + r.pending)[k];
    assert s.log.events[r.start + k].seqNo == r.start + k;
    MillisBracket(s.jobId, s.log.events[r.start + k]);
  }

  lemma MillisBracket(jobId: string, ev: LogEvent)
    ensures var millis := EventToFrame(jobId, ev).tsMillis;
            0 <= ev.timestamp < 0x1_0000_0000_0000_0000 * 1_000_000 ==>
              millis * 1_000_000 <= ev.timestamp < (millis + 1) * 1_000_000
  {
  }

  /** `next` has returned `None` only once everything of the final log from the offset was returned. */
  lemma EndMeansAllDelivered(s: Stream, i: nat)
    requires Reachable(s) && i < |s.readers| && s.readers[i].phase.Ended?
    ensures s.status.IsTerminal()
    ensures s.readers[i].delivered == FramesOf(s.jobId, Since(s.log.events, s.readers[i].start))
  {
    ReachableIsInv(s);
    DeliveredAllAtCursor(s.readers[i], s);
  }

  /** A reader keeps its offset, and what it was handed stays handed. */
  lemma StepKeepsReader(s: Stream, step: Step, i: nat)
    requires i < |s.readers| && Apply(s, step).Some?
    ensures var s' := Apply(s, step).value;
            && i < |s'.readers| && s'.readers[i].start == s.readers[i].start
            && s.readers[i].delivered <= s'.readers[i].delivered
            && s'.jobId == s.jobId
  {
    hide Since, FramesOf;
  }

  lemma {:induction false} RunKeepsReader(s: Stream, steps: seq<Step>, i: nat)
    requires i < |s.readers| && Run(s, steps).Some?
    ensures var s' := Run(s, steps).value;
            && i < |s'.readers| && s'.readers[i].start == s.readers[i].start
            && s.readers[i].delivered <= s'.readers[i].delivered
            && s'.jobId == s.jobId
    decreases |steps|
  {
    if steps != [] {
      hide Apply;
      StepKeepsReader(s, steps[0], i);
      RunKeepsReader(Apply(s, steps[0]).value, steps[1..], i);
    }
  }

  /**
    Attaching at any offset and then running on in any way: the new reader is handed the log from exactly that
    offset on, and once it has ended it was handed all of it.
   */
  lemma AttachDeliversFromTheOffset(s: Stream, from: nat, steps: seq<Step>)
    requires Inv(s) && Run(s, [Attach(from)] + steps).Some?
    ensures var (s', i) := (Run(s, [Attach(from)] + steps).value, |s.readers|);
            i < |s'.readers|
            && var r := s'.readers[i];
               && r.start == from
               && r.delivered <= FramesOf(s.jobId, Since(s'.log.events, from))
               && (r.phase.Ended? ==> r.delivered == FramesOf(s.jobId, Since(s'.log.events, from)))
  {
    var all := [Attach(from)] + steps;
    assert all[0] == Attach(from) && all[1..] == steps;
    var next := Apply(s, Attach(from)).value;
    assert next.readers[|s.readers|].start == from;
    RunKeepsReader(next, steps, |s.readers|);
    RunKeepsInv(s, all);
    var s' := Run(s, all).value;
    var r := s'.readers[|s.readers|];
    assert ReaderOk(r, s');
    hide Run, Apply, Inv;
    if r.phase.Ended? {
      DeliveredAllAtCursor(r, s');
    } else {
      DeliveredIsOfTheRest(r, s');
    }
  }

  lemma DeliveredIsOfTheRest(r: Reader, s: Stream)
    requires ReaderOk(r, s)
    ensures r.delivered <= FramesOf(s.jobId, Since(s.log.events, r.start))
  {
    hide PhaseOk;
    var slice := Slice(s.log.events, r.start, r.cursor);
    if r.start <= r.cursor <= |s.log.events| {
      LogCutAt(s.jobId, s.log.events, r.start, r.cursor);
    }
    assert r.delivered <= r.delivered + r.pending;
  }

  // ---- What the writer puts there ----

  /** A chunk that fits becomes the next event, with its own stream, bytes and time; one that does not changes nothing. */
  lemma PushAppendsExactly(s: Stream, e: AppendLogEvent)
    requires Inv(s) && Apply(s, Push(e)).Some?
    ensures var s' := Apply(s, Push(e)).value;
            if Fits(s.log, e)
            then s'.log.events == s.log.events + [LogEvent(|s.log.events|, e.stream, e.data, e.timestamp)] && OwesNotify(s')
            else s' == s
  {
    AppendKeepsLogWellFormed(s.log, e);
  }

  /** The status a job finishes with is the one every later state shows. */
  lemma FinalStatusStays(s: Stream, final: JobStatus, steps: seq<Step>)
    requires Inv(s) && Run(s, [WriteStatus(final)] + steps).Some?
    ensures Run(s, [WriteStatus(final)] + steps).value.status == final && final.IsTerminal()
  {
    var all := [WriteStatus(final)] + steps;
    assert all[0] == WriteStatus(final) && all[1..] == steps;
    var next := Apply(s, all[0]).value;
    ApplyKeepsInv(s, all[0]);
    TerminalIsFrozen(next, steps);
  }

  /** From a terminal status on, neither the status nor the log changes again. */
  lemma {:induction false} TerminalIsFrozen(s: Stream, steps: seq<Step>)
    requires Inv(s) && Run(s, steps).Some?
    ensures s.log.events <= Run(s, steps).value.log.events
    ensures s.status.IsTerminal() ==>
            var s' := Run(s, steps).value; s'.status == s.status && s'.log.events == s.log.events
    decreases |steps|
  {
    if steps != [] {
      ApplyKeepsInv(s, steps[0]);
      TerminalIsFrozen(Apply(s, steps[0]).value, steps[1..]);
    }
  }

  // ---- Progress after the final notify ----

  function Unread(r: Reader, events: seq<LogEvent>): nat {
    if r.cursor >= |events| then 0 else |events| - r.cursor
  }

  /** Steps a reader can still take: two for each undelivered frame, and a constant for the last drains. */
  function Remaining(r: Reader, events: seq<LogEvent>): nat {
    var u := Unread(r, events);
    2 * |r.pending| + (if u > 0 then 2 * u + 3 else 0) +
    match r.phase
    case Idle => 5
    case Polling => 4
    case Registered(_) => 3
    case Drained(_, terminal) => if r.pending != [] then 5 else if terminal then 2 else 7
    case Parked(_) => 6
    case Ended => 0
  }

  predicate Own(step: Step, i: nat) {
    (step.CallNext? || step.Advance? || step.Abandon?) && step.i == i
  }

  /** How many steps of a run belong to reader `i`. */
  function OwnSteps(steps: seq<Step>, i: nat): nat {
    if steps == [] then 0 else (if Own(steps[0], i) then 1 else 0) + OwnSteps(steps[1..], i)
  }

  lemma DrainLowersRemaining(r: Reader, s: Stream)
    requires Inv(s) && s.writer == Notified && ReaderOk(r, s) && r.phase.Registered?
    ensures Remaining(Drain(r, s.jobId, s.log, s.status), s.log.events) < Remaining(r, s.log.events)
  {
    DrainKeepsExactDelivery(r, s);
    hide ExactDelivery, FramesOf, WellFormed;
    assert |Drain(r, s.jobId, s.log, s.status).pending| == Unread(r, s.log.events);
  }

  lemma OwnAdvanceLowersRemaining(r: Reader, s: Stream)
    requires Inv(s) && s.writer == Notified && ReaderOk(r, s)
    requires AdvanceReader(r, s.jobId, s.log, s.status, false).Some?
    ensures Remaining(AdvanceReader(r, s.jobId, s.log, s.status, false).value, s.log.events) < Remaining(r, s.log.events)
  {
    hide ExactDelivery, WellFormed, Drain;
    if r.phase.Registered? {
      DrainLowersRemaining(r, s);
    }
  }

  /**
    Once `finish_job` has notified, a reader that has not ended always has a step of its own to take, and
    every such step, also an abandoned wait, brings it closer to its end.
   */
  lemma OwnStepProgresses(s: Stream, step: Step, i: nat)
    requires Inv(s) && s.writer == Notified && i < |s.readers| && !s.readers[i].phase.Ended?
    ensures Apply(s, CallNext(i)).Some? || Apply(s, Advance(i)).Some?
    ensures Own(step, i) && Apply(s, step).Some? ==>
              Remaining(Apply(s, step).value.readers[i], s.log.events) < Remaining(s.readers[i], s.log.events)
  {
    assert ReaderOk(s.readers[i], s);
    if step == Advance(i) && Apply(s, step).Some? {
      OwnAdvanceLowersRemaining(s.readers[i], s);
    }
  }

  /** After the final notify only readers move: nobody writes, and each step changes its own reader alone. */
  lemma NotifiedStep(s: Stream, step: Step, i: nat)
    requires Inv(s) && s.writer == Notified && Apply(s, step).Some? && i < |s.readers|
    ensures var s' := Apply(s, step).value;
            && s' == s.(readers := s'.readers)
            && i < |s'.readers| && (!Own(step, i) ==> s'.readers[i] == s.readers[i])
            && s'.readers[i].start == s.readers[i].start
  {
    hide Inv, Since, FramesOf;
  }

  ghost predicate EndsWithin(s: Stream, steps: seq<Step>, i: nat, n: nat)
    requires n <= |steps| && i < |s.readers|
  {
    && Run(s, steps[..n]).Some?
    && var s' := Run(s, steps[..n]).value;
       && i < |s'.readers| && s'.readers[i].phase.Ended?
       && s'.readers[i].delivered == FramesOf(s.jobId, Since(s.log.events, s.readers[i].start))
  }

  lemma RemainingBound(r: Reader, events: seq<LogEvent>)
    ensures Remaining(r, events) <= 2 * (|r.pending| + Unread(r, events)) + 10
  {
  }

  /**
    Once `finish_job` has notified, and whatever other readers attach, drain, park or abandon in between: a run
    in which a reader takes at least as many steps as its undelivered frames allow passes a state in which that
    reader has returned `None` and has delivered all of the final log from its offset.
   */
  lemma {:induction false} EveryReaderEnds(s: Stream, steps: seq<Step>, i: nat)
    requires Inv(s) && s.writer == Notified && i < |s.readers|
    requires Run(s, steps).Some? && OwnSteps(steps, i) >= Remaining(s.readers[i], s.log.events)
    ensures exists n | 0 <= n <= |steps| :: EndsWithin(s, steps, i, n)
    ensures Remaining(s.readers[i], s.log.events) <= 2 * (|s.readers[i].pending| + Unread(s.readers[i], s.log.events)) + 10
    decreases |steps|
  {
    hide Apply, Since, FramesOf, ExactDelivery, WellFormed;
    RemainingBound(s.readers[i], s.log.events);
    if s.readers[i].phase.Ended? {
      assert steps[..0] == [];
      DeliveredAllAtCursor(s.readers[i], s);
      assert EndsWithin(s, steps, i, 0);
    } else {
      NotEndedRemains(s.readers[i], s.log.events);
      var next := Apply(s, steps[0]).value;
      ApplyKeepsInv(s, steps[0]);
      NotifiedStep(s, steps[0], i);
      OwnStepProgresses(s, steps[0], i);
      hide Inv, Remaining;
      EveryReaderEnds(next, steps[1..], i);
      var m :| 0 <= m <= |steps[1..]| && EndsWithin(next, steps[1..], i, m);
      assert steps[..m + 1][1..] == steps[1..][..m];
      assert EndsWithin(s, steps, i, m + 1);
    }
  }

  lemma NotEndedRemains(r: Reader, events: seq<LogEvent>)
    requires !r.phase.Ended?
    ensures Remaining(r, events) > 0
  {
  }

  /**
    A client that has seen any of what one reader returned, up to sequence number `k`, and reads a second
    attachment to its end: attached at `k + 1` it has the log once over, attached at `k` it has one frame twice.
   */
  lemma ResumeIsSeamless(s: Stream, i: nat, j: nat, seen: seq<LogEventFrame>, k: nat)
    requires Reachable(s) && i < |s.readers| && j < |s.readers|
    requires seen != [] && seen <= s.readers[i].delivered && seen[|seen| - 1].seqNo == k
    requires s.readers[j].phase.Ended?
    ensures s.readers[j].start == k + 1 ==>
            seen + s.readers[j].delivered == FramesOf(s.jobId, Since(s.log.events, s.readers[i].start))
    ensures s.readers[j].start == k ==>
            && |s.readers[j].delivered| >= 1
            && s.readers[j].delivered[0] == seen[|seen| - 1]
            && seen + s.readers[j].delivered[1..] == FramesOf(s.jobId, Since(s.log.events, s.readers[i].start))
  {
    DeliveryIsExact(s, i);
    EndMeansAllDelivered(s, j);
    var (a, b, events) := (s.readers[i], s.readers[j], s.log.events);
    var d := |seen|;
    assert seen[d - 1] == a.delivered[d - 1];
    hide Reachable, Slice, EventToFrame, Since;
    DeliveredIsPrefix(s, i, d);
    assert seen == FramesOf(s.jobId, events[a.start..a.start + d]);
    if b.start == k + 1 || b.start == k {
      LogCutAt(s.jobId, events, a.start, k + 1);
      if b.start == k {
        LogCutAt(s.jobId, events, k, k + 1);
        LastFrame(s.jobId, events, a.start, k);
      }
    }
  }

  lemma DeliveredIsPrefix(s: Stream, i: nat, d: nat)
    requires Reachable(s) && i < |s.readers| && 0 < d <= |s.readers[i].delivered|
    ensures var start := s.readers[i].start;
            && start + d <= |s.log.events|
            && s.readers[i].delivered[..d] == FramesOf(s.jobId, s.log.events[start..start + d])
  {
    DeliveryIsExact(s, i);
    hide Reachable;
    var r := s.readers[i];
    assert |r.delivered + r.pending| > 0;
    forall m | 0 <= m < d ensures r.delivered[m] == EventToFrame(s.jobId, s.log.events[r.start + m]) {
      assert r.delivered[m] == (r.delivered + r.pending)[m];
    }
  }

  /** The log from an offset is the log from there to a later cut, then from the cut. */
  lemma LogCutAt(jobId: string, events: seq<LogEvent>, from: nat, cut: nat)
    requires from <= cut <= |events|
    ensures FramesOf(jobId, Since(events, from)) ==
            FramesOf(jobId, events[from..cut]) + FramesOf(jobId, Since(events, cut))
  {
    assert events[from..] == events[from..cut] + events[cut..];
    FramesOfAppended(jobId, events[from..cut], events[cut..]);
  }

  lemma LastFrame(jobId: string, events: seq<LogEvent>, from: nat, k: nat)
    requires from <= k < |events|
    ensures FramesOf(jobId, events[from..k + 1])[k - from] == EventToFrame(jobId, events[k])
    ensures FramesOf(jobId, events[k..k + 1]) == [EventToFrame(jobId, events[k])]
  {
  }
}
