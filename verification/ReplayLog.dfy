/** The append-only job log held in memory: numbering, byte cap, replay, wake signal. */
module ReplayLog {
  import opened Prelude
  import Timestamp

  datatype LogStream = Stdout | Stderr

  datatype AppendLogEvent = AppendLogEvent(stream: LogStream, data: seq<Byte>, timestamp: Timestamp.SystemTime)

  datatype LogEvent = LogEvent(seqNo: nat, stream: LogStream, data: seq<Byte>, timestamp: Timestamp.SystemTime)

  /** `wakes` counts the calls of `notify_waiters` on the log's wake handle. */
  datatype LogState = LogState(events: seq<LogEvent>, byteTotal: nat, byteCap: nat, wakes: nat)

  function NewLog(byteCap: nat): LogState {
    LogState([], 0, byteCap, 0)
  }

  function Numbered(e: AppendLogEvent, seqNo: nat): LogEvent {
    LogEvent(seqNo, e.stream, e.data, e.timestamp)
  }

  function Size(events: seq<LogEvent>): nat {
    if events == [] then 0 else |events[0].data| + Size(events[1..])
  }

  predicate NumberedFrom(events: seq<LogEvent>, base: nat) {
    forall i | 0 <= i < |events| :: events[i].seqNo == base + i
  }

  predicate WellFormed(s: LogState) {
    && NumberedFrom(s.events, 0)
    && s.byteTotal == Size(s.events) <= s.byteCap <= USIZE_MAX
  }

  predicate Fits(s: LogState, e: AppendLogEvent) {
    s.byteTotal + |e.data| <= s.byteCap
  }

  /** What one append does to the log: all of the event, or nothing but the error. */
  function AppendTo(s: LogState, e: AppendLogEvent): (LogState, Result<nat, LogError>) {
    if s.byteTotal + |e.data| > USIZE_MAX then (s, Failure(LogBufferOverflow(s.byteCap)))
    else if s.byteTotal + |e.data| > s.byteCap then (s, Failure(LogBufferOverflow(s.byteCap)))
    else
      var seqNo := |s.events|;
      (LogState(s.events + [Numbered(e, seqNo)], s.byteTotal + |e.data|, s.byteCap, s.wakes + 1),
       Success(seqNo))
  }

  function Since(events: seq<LogEvent>, from: nat): seq<LogEvent> {
    var start := if from <= |events| then from else |events|;
    events[start..]
  }

  lemma {:induction false} SizeOfAppended(a: seq<LogEvent>, b: seq<LogEvent>)
    ensures Size(a + b) == Size(a) + Size(b)
  {
    if a == [] {
      assert a + b == b;
    } else {
      assert (a + b)[1..] == a[1..] + b;
      SizeOfAppended(a[1..], b);
    }
  }

  /** An append is refused exactly when it would pass the cap, and keeps the numbering and the byte count. */
  lemma AppendKeepsLogWellFormed(s: LogState, e: AppendLogEvent)
    requires WellFormed(s)
    ensures var (s', r) := AppendTo(s, e);
            && WellFormed(s')
            && s.events <= s'.events
            && (r.Success? <==> Fits(s, e))
            && (r.Success? ==>
                  && r.value == |s.events| && s'.wakes == s.wakes + 1 && s'.byteCap == s.byteCap
                  && s'.events == s.events + [LogEvent(|s.events|, e.stream, e.data, e.timestamp)])
            && (r.Failure? ==> s' == s && r.error == LogBufferOverflow(s.byteCap))
  {
    SizeOfAppended(s.events, [Numbered(e, |s.events|)]);
  }

  /** Replay from an offset is exactly the events numbered at or after it, in order. */
  lemma SinceIsBySequenceNumber(s: LogState, from: nat, e: LogEvent)
    requires WellFormed(s)
    ensures e in Since(s.events, from) <==> e in s.events && e.seqNo >= from
    ensures forall i | 0 <= i < |Since(s.events, from)| :: Since(s.events, from)[i].seqNo == from + i
  {
    var r := Since(s.events, from);
    if e in s.events && e.seqNo >= from {
      assert e == s.events[e.seqNo] == r[e.seqNo - from];
    }
  }

  class InMemoryReplayLog {
    var events: seq<LogEvent>
    var byteTotal: nat
    const byteCap: nat
    var wakes: nat

    ghost function View(): LogState
      reads this
    {
      LogState(events, byteTotal, byteCap, wakes)
    }

    constructor (byteCap: nat)
      ensures View() == NewLog(byteCap)
    {
      events, byteTotal, wakes := [], 0, 0;
      this.byteCap := byteCap;
    }

    method Append(e: AppendLogEvent) returns (r: Result<nat, LogError>)
      modifies this
      ensures (View(), r) == AppendTo(old(View()), e)
    {
      if byteTotal + |e.data| > USIZE_MAX {
        return Failure(LogBufferOverflow(byteCap));
      }
      var newTotal := byteTotal + |e.data|;
      if newTotal > byteCap {
        return Failure(LogBufferOverflow(byteCap));
      }
      var seqNo := |events|;
      byteTotal := newTotal;
      events := events + [Numbered(e, seqNo)];
      wakes := wakes + 1;
      return Success(seqNo);
    }
  }
}
