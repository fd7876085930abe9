/** The file-backed job log: whole-file decoding, appends, reopening, and its refinement of the memory log. */
module DurableLog {
  import opened Prelude
  import opened Timestamp
  import opened ReplayLog
  import opened FrameCodec

  predicate Printable(events: seq<LogEvent>) {
    NumberedFrom(events, 0) && forall ev | ev in events :: Writable(ev)
  }

  function Frames(events: seq<LogEvent>): seq<Byte>
    requires forall ev | ev in events :: Writable(ev)
  {
    if events == [] then [] else Frame(events[0]) + Frames(events[1..])
  }

  function LogBytes(events: seq<LogEvent>): seq<Byte>
    requires forall ev | ev in events :: Writable(ev)
  {
    MAGIC + Frames(events)
  }

  function FrameEnd(start: nat, ev: LogEvent): nat {
    start + FRAME_FIXED_LEN + |ev.data|
  }

  function DecodeFrames(bytes: seq<Byte>, offset: nat, events: seq<LogEvent>, total: nat, cap: nat)
    : Result<(seq<LogEvent>, nat), LogError>
    decreases |bytes| - offset
  {
    if offset >= |bytes| then Success((events, total))
    else
      var ev :- DecodeFrame(bytes, offset, |events|, total, cap);
      DecodeFrames(bytes, FrameEnd(offset, ev), events + [ev], total + |ev.data|, cap)
  }

  function DecodeFileLog(bytes: seq<Byte>, cap: nat): Result<(seq<LogEvent>, nat), LogError> {
    if !(MAGIC <= bytes) then Failure(ReplayLogCorrupt(0, MissingMagic))
    else DecodeFrames(bytes, |MAGIC|, [], 0, cap)
  }

  /** The decoder as it runs: one pass with a moving offset, stopping at the first fault. */
  method DecodeFile(bytes: seq<Byte>, cap: nat) returns (r: Result<(seq<LogEvent>, nat), LogError>)
    ensures r == DecodeFileLog(bytes, cap)
  {
    hide ReadHeader, TakeData;
    if !(MAGIC <= bytes) {
      return Failure(ReplayLogCorrupt(0, MissingMagic));
    }
    var offset := |MAGIC|;
    var events: seq<LogEvent> := [];
    var total: nat := 0;
    while offset < |bytes|
      invariant DecodeFrames(bytes, offset, events, total, cap) == DecodeFileLog(bytes, cap)
      decreases |bytes| - offset
    {
      var start := offset;
      var header := ReadHeader(bytes, offset);
      if header.Failure? {
        return Failure(header.error);
      }
      offset := offset + FRAME_FIXED_LEN;
      var taken := TakeData(bytes, start, header.value, |events|, total, cap);
      if taken.Failure? {
        return Failure(taken.error);
      }
      total := total + |taken.value.data|;
      events := events + [taken.value];
      offset := offset + |taken.value.data|;
    }
    return Success((events, total));
  }

  lemma {:induction false} FramesOfAppended(a: seq<LogEvent>, b: seq<LogEvent>)
    requires forall ev | ev in a + b :: Writable(ev)
    ensures (forall ev | ev in a :: Writable(ev)) && (forall ev | ev in b :: Writable(ev))
    ensures Frames(a + b) == Frames(a) + Frames(b)
  {
    assert forall ev | ev in a :: ev in a + b;
    assert forall ev | ev in b :: ev in a + b;
    if a == [] {
      assert a + b == b;
    } else {
      assert (a + b)[1..] == a[1..] + b;
      FramesOfAppended(a[1..], b);
    }
  }

  lemma {:induction false} DecodedAreFrames(bytes: seq<Byte>, offset: nat, events: seq<LogEvent>, total: nat, cap: nat)
    requires offset <= |bytes|
    requires Printable(events) && total == Size(events) <= cap
    requires DecodeFrames(bytes, offset, events, total, cap).Success?
    ensures var (all, size) := DecodeFrames(bytes, offset, events, total, cap).value;
            && events <= all && Printable(all) && size == Size(all) <= cap
            && bytes[offset..] == Frames(all[|events|..])
    decreases |bytes| - offset
  {
    hide DecodeFrame, Frame;
    var (all, size) := DecodeFrames(bytes, offset, events, total, cap).value;
    if offset == |bytes| {
      assert all[|events|..] == [];
    } else {
      AcceptedFrameIsCanonical(bytes, offset, |events|, total, cap);
      hide Writable;
      var ev := DecodeFrame(bytes, offset, |events|, total, cap).value;
      var end := FrameEnd(offset, ev);
      SizeOfAppended(events, [ev]);
      DecodedAreFrames(bytes, end, events + [ev], total + |ev.data|, cap);
      assert all[|events|] == (events + [ev])[|events|] == ev;
      assert all[|events|..] == [ev] + all[|events| + 1..];
      assert bytes[offset..] == bytes[offset..end] + bytes[end..];
    }
  }

  lemma FirstFrame(bytes: seq<Byte>, offset: nat, es: seq<LogEvent>, rest: seq<Byte>)
    requires offset <= |bytes| && es != [] && forall ev | ev in es :: Writable(ev)
    requires bytes[offset..] == Frames(es) + rest
    ensures var end := FrameEnd(offset, es[0]);
            && end <= |bytes|
            && bytes[offset..end] == Frame(es[0])
            && bytes[end..] == Frames(es[1..]) + rest
  {
    hide Frame, Writable;
    var (f, more) := (Frame(es[0]), Frames(es[1..]));
    assert Frames(es) == f + more;
    hide Frames;
    assert f + more + rest == f + (more + rest);
    SplitAfter(bytes, offset, f, more + rest);
  }

  lemma SplitAfter(bytes: seq<Byte>, offset: nat, f: seq<Byte>, tail: seq<Byte>)
    requires offset <= |bytes| && bytes[offset..] == f + tail
    ensures offset + |f| <= |bytes| && bytes[offset..offset + |f|] == f && bytes[offset + |f|..] == tail
  {
    assert bytes[offset..offset + |f|] == bytes[offset..][..|f|];
    assert bytes[offset + |f|..] == bytes[offset..][|f|..];
  }

  /** One turn of the decoder over a frame that it accepts or refuses. */
  lemma DecodeOneFrame(bytes: seq<Byte>, offset: nat, events: seq<LogEvent>, ev: LogEvent, total: nat, cap: nat)
    requires |bytes| <= USIZE_MAX && cap <= USIZE_MAX && Writable(ev) && ev.seqNo == |events|
    requires FrameEnd(offset, ev) <= |bytes| && bytes[offset..FrameEnd(offset, ev)] == Frame(ev)
    ensures DecodeFrames(bytes, offset, events, total, cap) ==
            if total + |ev.data| <= cap
            then DecodeFrames(bytes, FrameEnd(offset, ev), events + [ev], total + |ev.data|, cap)
            else Failure(LogBufferOverflow(cap))
  {
    hide DecodeFrame, Frame;
    FrameParses(bytes, offset, ev, total, cap);
  }

  lemma NextInLog(events: seq<LogEvent>, es: seq<LogEvent>)
    requires Printable(events + es) && es != []
    ensures Writable(es[0]) && es[0].seqNo == |events|
    ensures events + [es[0]] + es[1..] == events + es
    ensures forall ev | ev in es :: Writable(ev)
    ensures forall ev | ev in es[1..] :: ev in events + es
  {
    assert (events + es)[|events|] == es[0];
    assert forall ev | ev in es :: ev in events + es;
  }

  lemma {:induction false} FramesDecode(bytes: seq<Byte>, offset: nat, events: seq<LogEvent>, es: seq<LogEvent>,
                                        total: nat, cap: nat)
    requires offset <= |bytes| <= USIZE_MAX && cap <= USIZE_MAX
    requires Printable(events + es)
    requires forall ev | ev in es :: ev in events + es
    requires total <= cap && bytes[offset..] == Frames(es)
    ensures DecodeFrames(bytes, offset, events, total, cap) ==
            if total + Size(es) <= cap then Success((events + es, total + Size(es)))
            else Failure(LogBufferOverflow(cap))
    decreases es
  {
    hide DecodeFrame;
    if es == [] {
      assert events + es == events;
    } else {
      var ev := es[0];
      NextInLog(events, es);
      hide Printable, Writable, Frame, DecodeFrames, Frames;
      assert Frames(es) + [] == Frames(es);
      FirstFrame(bytes, offset, es, []);
      assert bytes[FrameEnd(offset, ev)..] == Frames(es[1..]);
      DecodeOneFrame(bytes, offset, events, ev, total, cap);
      if total + |ev.data| <= cap {
        FramesDecode(bytes, FrameEnd(offset, ev), events + [ev], es[1..], total + |ev.data|, cap);
      }
    }
  }

  /** The decoder accepts a file as `events` if and only if the file is the printed form of `events`. */
  lemma DecodeAcceptsExactlyPrintedLogs(bytes: seq<Byte>, events: seq<LogEvent>, cap: nat)
    requires |bytes| <= USIZE_MAX && cap <= USIZE_MAX
    ensures DecodeFileLog(bytes, cap) == Success((events, Size(events))) <==>
            Printable(events) && Size(events) <= cap && bytes == LogBytes(events)
    ensures DecodeFileLog(bytes, cap).Success? ==>
            DecodeFileLog(bytes, cap).value.1 == Size(DecodeFileLog(bytes, cap).value.0)
    ensures Printable(events) && Size(events) > cap && bytes == LogBytes(events) ==>
            DecodeFileLog(bytes, cap) == Failure(LogBufferOverflow(cap))
  {
    if DecodeFileLog(bytes, cap).Success? {
      DecodedAreFrames(bytes, |MAGIC|, [], 0, cap);
      var all := DecodeFileLog(bytes, cap).value.0;
      assert all[0..] == all;
      assert bytes == MAGIC + bytes[|MAGIC|..];
    }
    if Printable(events) && bytes == LogBytes(events) {
      assert [] + events == events;
      assert bytes[|MAGIC|..] == Frames(events);
      FramesDecode(bytes, |MAGIC|, [], events, 0, cap);
    }
  }

  function Reencode(events: seq<LogEvent>, base: nat): Result<seq<Byte>, LogError>
    requires base + |events| <= U64_MAX + 1
  {
    if events == [] then Success([])
    else
      var first :- EncodeFrame(base, AppendLogEvent(events[0].stream, events[0].data, events[0].timestamp));
      var rest :- Reencode(events[1..], base + 1);
      Success(first + rest)
  }

  lemma {:induction false} ReencodeIsFrames(events: seq<LogEvent>, base: nat)
    requires base + |events| <= U64_MAX + 1
    requires NumberedFrom(events, base)
    requires forall ev | ev in events :: Writable(ev) && FRAME_FIXED_LEN + |ev.data| <= USIZE_MAX
    ensures Reencode(events, base).Success? <==> forall ev | ev in events :: Encodable(ev.timestamp)
    ensures Reencode(events, base).Success? ==> Reencode(events, base).value == Frames(events)
  {
    if events != [] {
      var e := events[0];
      EncodeFrameIsFrame(base, AppendLogEvent(e.stream, e.data, e.timestamp));
      ReencodeIsFrames(events[1..], base + 1);
      assert events == [e] + events[1..];
    }
  }

  lemma {:induction false} FramesBoundData(events: seq<LogEvent>)
    requires forall ev | ev in events :: Writable(ev)
    ensures forall ev | ev in events :: FRAME_FIXED_LEN + |ev.data| <= |Frames(events)|
    ensures FRAME_FIXED_LEN * |events| <= |Frames(events)|
  {
    if events != [] {
      FramesBoundData(events[1..]);
      assert events == [events[0]] + events[1..];
    }
  }

  /** Accepted bytes print back to themselves, except where a timestamp has the least `i64` second. */
  lemma DecodingIsCanonical(bytes: seq<Byte>, cap: nat)
    requires |bytes| <= USIZE_MAX && cap <= USIZE_MAX
    requires DecodeFileLog(bytes, cap).Success?
    ensures var events := DecodeFileLog(bytes, cap).value.0;
            && |events| <= U64_MAX
            && (Reencode(events, 0).Success? <==> forall ev | ev in events :: Encodable(ev.timestamp))
            && (Reencode(events, 0).Success? ==> bytes == MAGIC + Reencode(events, 0).value)
  {
    var events := DecodeFileLog(bytes, cap).value.0;
    DecodeAcceptsExactlyPrintedLogs(bytes, events, cap);
    FramesBoundData(events);
    ReencodeIsFrames(events, 0);
  }

  lemma DecodingIsInjective(a: seq<Byte>, b: seq<Byte>, cap: nat)
    requires |a| <= USIZE_MAX && |b| <= USIZE_MAX && cap <= USIZE_MAX
    requires DecodeFileLog(a, cap).Success? && DecodeFileLog(a, cap) == DecodeFileLog(b, cap)
    ensures a == b
  {
    var events := DecodeFileLog(a, cap).value.0;
    DecodeAcceptsExactlyPrintedLogs(a, events, cap);
    DecodeAcceptsExactlyPrintedLogs(b, events, cap);
  }

  // ---- Truncation ----

  /** How many whole frames lie in the first `len` bytes. */
  function WholeFrames(events: seq<LogEvent>, len: nat): (n: nat)
    ensures n <= |events|
  {
    if events == [] || len < FrameEnd(0, events[0]) then 0
    else 1 + WholeFrames(events[1..], len - FrameEnd(0, events[0]))
  }

  predicate IsBoundary(events: seq<LogEvent>, len: nat)
    requires forall ev | ev in events :: Writable(ev)
  {
    len == |Frames(events[..WholeFrames(events, len)])|
  }

  /** A boundary is the length of some whole number of frames, and that number is the one counted. */
  lemma {:induction false} BoundaryExactly(events: seq<LogEvent>, len: nat)
    requires forall ev | ev in events :: Writable(ev)
    ensures IsBoundary(events, len) <==> exists n | 0 <= n <= |events| :: |Frames(events[..n])| == len
    ensures forall n | 0 <= n <= |events| && |Frames(events[..n])| == len :: WholeFrames(events, len) == n
  {
    forall n | 0 <= n <= |events| && |Frames(events[..n])| == len ensures WholeFrames(events, len) == n {
      CountsFrames(events, n);
    }
    var n := WholeFrames(events, len);
    assert IsBoundary(events, len) ==> |Frames(events[..n])| == len;
  }

  lemma {:induction false} CountsFrames(events: seq<LogEvent>, n: nat)
    requires n <= |events| && forall ev | ev in events :: Writable(ev)
    ensures WholeFrames(events, |Frames(events[..n])|) == n
  {
    if n > 0 {
      hide Frame, Writable;
      CountsFrames(events[1..], n - 1);
      assert events[..n][1..] == events[1..][..n - 1];
    }
  }

  predicate CutShort(e: LogError) {
    e.ReplayLogCorrupt? && e.reason in {TruncatedFrame, TruncatedData}
  }

  lemma {:induction false} TruncatedFramesDecode(bytes: seq<Byte>, offset: nat, events: seq<LogEvent>,
                                                es: seq<LogEvent>, total: nat, cap: nat)
    requires Printable(events + es) && (forall ev | ev in es :: ev in events + es)
    requires offset <= |bytes| && offset + |Frames(es)| <= USIZE_MAX && cap <= USIZE_MAX
    requires total + Size(es) <= cap
    requires bytes[offset..] <= Frames(es)
    ensures var n := WholeFrames(es, |bytes| - offset);
            var r := DecodeFrames(bytes, offset, events, total, cap);
            if IsBoundary(es, |bytes| - offset)
            then r == Success((events + es[..n], total + Size(es[..n])))
            else r.Failure? && CutShort(r.error)
    decreases es
  {
    hide DecodeFrame, Frame, WholeFrames, IsBoundary, CutShort, Size;
    var len := |bytes| - offset;
    if len == 0 {
      NothingLeft(events, es);
    } else if es != [] {
      var ev := es[0];
      NextInLog(events, es);
      hide Printable, Writable, DecodeFrames, Frames;
      if len < |Frame(ev)| {
        CutFirstFrame(bytes, offset, events, es, total, cap);
      } else {
        FirstOfCutFrames(bytes, offset, es);
        DecodeOneFrame(bytes, offset, events, ev, total, cap);
        BoundaryStep(events, es, len);
        SizeUnfolds(es);
        TruncatedFramesDecode(bytes, FrameEnd(offset, ev), events + [ev], es[1..], total + |ev.data|, cap);
      }
    }
  }

  lemma NothingLeft(events: seq<LogEvent>, es: seq<LogEvent>)
    requires forall ev | ev in es :: Writable(ev)
    ensures IsBoundary(es, 0) && WholeFrames(es, 0) == 0
    ensures events + es[..0] == events && Size(es[..0]) == 0
  {
  }

  /** Whole frames and boundaries behind the first frame, counted from there. */
  lemma BoundaryStep(events: seq<LogEvent>, es: seq<LogEvent>, len: nat)
    requires es != [] && (forall ev | ev in es :: Writable(ev)) && len >= FrameEnd(0, es[0])
    ensures var rest := len - FrameEnd(0, es[0]);
            var (n, m) := (WholeFrames(es, len), WholeFrames(es[1..], rest));
            && (IsBoundary(es, len) <==> IsBoundary(es[1..], rest))
            && events + [es[0]] + es[1..][..m] == events + es[..n]
            && Size(es[..n]) == |es[0].data| + Size(es[1..][..m])
  {
    hide Frame, Writable;
    var rest := len - FrameEnd(0, es[0]);
    var m := WholeFrames(es[1..], rest);
    assert WholeFrames(es, len) == m + 1;
    assert es[..m + 1] == [es[0]] + es[1..][..m] && es[..m + 1][1..] == es[1..][..m];
    assert Frames(es[..m + 1]) == Frame(es[0]) + Frames(es[1..][..m]);
  }

  lemma SizeUnfolds(es: seq<LogEvent>)
    requires es != []
    ensures Size(es) == |es[0].data| + Size(es[1..])
  {
  }

  lemma CutFirstFrame(bytes: seq<Byte>, offset: nat, events: seq<LogEvent>, es: seq<LogEvent>, total: nat, cap: nat)
    requires es != [] && (forall ev | ev in es :: Writable(ev)) && es[0].seqNo == |events|
    requires offset < |bytes| < FrameEnd(offset, es[0]) <= USIZE_MAX && bytes[offset..] <= Frames(es)
    ensures !IsBoundary(es, |bytes| - offset)
    ensures var r := DecodeFrames(bytes, offset, events, total, cap); r.Failure? && CutShort(r.error)
  {
    hide DecodeFrame, Frame;
    var (f, len) := (Frame(es[0]), |bytes| - offset);
    assert bytes[offset..] == Frames(es)[..len] == f[..len];
    CutFrameRefused(bytes, offset, es[0], total, cap);
    assert es[..0] == [];
  }

  lemma FirstOfCutFrames(bytes: seq<Byte>, offset: nat, es: seq<LogEvent>)
    requires es != [] && (forall ev | ev in es :: Writable(ev))
    requires FrameEnd(offset, es[0]) <= |bytes| && bytes[offset..] <= Frames(es)
    ensures var end := FrameEnd(offset, es[0]);
            bytes[offset..end] == Frame(es[0]) && bytes[end..] <= Frames(es[1..])
  {
    hide Frame, Writable;
    var (f, more, len) := (Frame(es[0]), Frames(es[1..]), |bytes| - offset);
    assert Frames(es) == f + more;
    hide Frames;
    assert bytes[offset..] == (f + more)[..len] == f + more[..len - |f|];
    SplitAfter(bytes, offset, f, more[..len - |f|]);
  }

  /** A cut log decodes to its first whole frames when the cut is between frames, and is refused otherwise. */
  lemma TruncationIsNeverSilent(events: seq<LogEvent>, k: nat, cap: nat)
    requires Printable(events) && Size(events) <= cap <= USIZE_MAX
    requires |MAGIC| <= k <= |LogBytes(events)| <= USIZE_MAX
    ensures var r := DecodeFileLog(LogBytes(events)[..k], cap);
            var n := WholeFrames(events, k - |MAGIC|);
            && (r.Success? <==> IsBoundary(events, k - |MAGIC|))
            && (r.Success? ==> r == Success((events[..n], Size(events[..n]))))
            && (r.Failure? ==> CutShort(r.error))
  {
    hide DecodeFrames, Frames, Size;
    var cut := LogBytes(events)[..k];
    assert [] + events == events;
    assert cut[|MAGIC|..] <= Frames(events);
    TruncatedFramesDecode(cut, |MAGIC|, [], events, 0, cap);
    var n := WholeFrames(events, k - |MAGIC|);
    assert [] + events[..n] == events[..n];
  }

  // ---- The file-backed log ----

  /** One `write_all` then `sync_data`: both done, nothing written, or written and then not synced. */
  datatype Io = Written | NotWritten | WrittenNotSynced

  datatype FileState = FileState(log: LogState, disk: seq<Byte>)

  function FileAppend(s: FileState, e: AppendLogEvent, io: Io): (FileState, Result<nat, LogError>) {
    if s.log.byteTotal + |e.data| > USIZE_MAX then (s, Failure(LogBufferOverflow(s.log.byteCap)))
    else if s.log.byteTotal + |e.data| > s.log.byteCap then (s, Failure(LogBufferOverflow(s.log.byteCap)))
    else if |s.log.events| > U64_MAX then (s, Failure(ReplayLogCorrupt(|s.log.events|, EventCountOverflow)))
    else
      var frame := EncodeFrame(|s.log.events|, e);
      if frame.Failure? then (s, Failure(frame.error))
      else match io
        case NotWritten => (s, Failure(ReplayLogIo))
        case WrittenNotSynced => (s.(disk := s.disk + frame.value), Failure(ReplayLogIo))
        case Written => (FileState(AppendTo(s.log, e).0, s.disk + frame.value), Success(|s.log.events|))
  }

  function HeaderIfEmpty(disk: seq<Byte>): seq<Byte> {
    if disk == [] then MAGIC else disk
  }

  function OpenLog(disk: seq<Byte>, cap: nat): Result<FileState, LogError> {
    var (events, total) :- DecodeFileLog(HeaderIfEmpty(disk), cap);
    Success(FileState(LogState(events, total, cap, 0), HeaderIfEmpty(disk)))
  }

  /** The file is the printed form of what the log holds in memory. */
  predicate Consistent(s: FileState) {
    && WellFormed(s.log)
    && Printable(s.log.events)
    && (forall ev | ev in s.log.events :: Encodable(ev.timestamp))
    && s.disk == LogBytes(s.log.events)
  }

  /** An event the frame format can hold as the next one of this log. */
  predicate Storable(s: LogState, e: AppendLogEvent) {
    |s.events| <= U64_MAX && Encodable(e.timestamp) && FRAME_FIXED_LEN + |e.data| <= USIZE_MAX
  }

  lemma AppendedLogBytes(events: seq<LogEvent>, ev: LogEvent)
    requires Printable(events) && ev.seqNo == |events| && Writable(ev)
    ensures Printable(events + [ev]) && LogBytes(events + [ev]) == LogBytes(events) + Frame(ev)
  {
    FramesOfAppended(events, [ev]);
    assert Frames([ev]) == Frame(ev) + [];
  }

  /** The file log does what the memory log does, except that it also refuses what a frame cannot hold. */
  lemma FileAppendRefinesMemoryAppend(s: FileState, e: AppendLogEvent)
    requires Consistent(s)
    ensures var (f, r) := FileAppend(s, e, Written);
            var (m, q) := AppendTo(s.log, e);
            && Consistent(f)
            && ((f.log, r) == (m, q) <==> !Fits(s.log, e) || Storable(s.log, e))
            && (!((f.log, r) == (m, q)) ==> f == s && r.Failure? && r.error.ReplayLogCorrupt?)
            && s.disk <= f.disk
  {
    AppendKeepsLogWellFormed(s.log, e);
    if Fits(s.log, e) && |s.log.events| <= U64_MAX {
      EncodeFrameIsFrame(|s.log.events|, e);
      EncodeIsFloorDivision(e.timestamp);
      if Storable(s.log, e) {
        AppendedLogBytes(s.log.events, Numbered(e, |s.log.events|));
      }
    }
  }

  /** Reopening a consistent log gives back the same events, byte count, cap and file. */
  lemma ReopenRestores(s: FileState)
    requires Consistent(s) && |s.disk| <= USIZE_MAX
    ensures OpenLog(s.disk, s.log.byteCap) == Success(FileState(s.log.(wakes := 0), s.disk))
  {
    DecodeAcceptsExactlyPrintedLogs(s.disk, s.log.events, s.log.byteCap);
  }

  /** The contract of append survives every disk outcome but one: written and then not synced. */
  lemma ConsistencyNeedsSync(s: FileState, e: AppendLogEvent, io: Io)
    requires Consistent(s)
    ensures var (f, r) := FileAppend(s, e, io);
            && (Consistent(f) <==> !(io == WrittenNotSynced && Fits(s.log, e) && Storable(s.log, e)))
            && (r.Success? <==> io == Written && Fits(s.log, e) && Storable(s.log, e))
            && (r.Failure? ==> f.log == s.log)
            && (r.Failure? && Fits(s.log, e) && Storable(s.log, e) ==> r.error == ReplayLogIo)
            && (io == NotWritten ==> f == s)
  {
    FileAppendRefinesMemoryAppend(s, e);
    if |s.log.events| <= U64_MAX {
      EncodeFrameIsFrame(|s.log.events|, e);
    }
  }

  /** After an append that failed at the sync, the next good append leaves a file that no longer opens. */
  lemma UnsyncedAppendThenAppendCorrupts(s: FileState, e: AppendLogEvent, e': AppendLogEvent)
    requires Consistent(s)
    requires Fits(s.log, e) && Storable(s.log, e) && Fits(s.log, e') && Storable(s.log, e')
    requires |s.disk| + 2 * FRAME_FIXED_LEN + |e.data| + |e'.data| <= USIZE_MAX
    ensures var (f, r) := FileAppend(s, e, WrittenNotSynced);
            var (g, q) := FileAppend(f, e', Written);
            var n := |s.log.events|;
            && r == Failure(ReplayLogIo) && q == Success(n) && n < U64_MAX
            && OpenLog(g.disk, s.log.byteCap) ==
               Failure(ReplayLogCorrupt(|s.disk| + FRAME_FIXED_LEN + |e.data|, SeqMismatch(n + 1, n)))
  {
    hide DecodeFileLog, EncodeFrame, Frame, LogBytes, Size, Storable;
    var n := |s.log.events|;
    StorableFrame(s.log, e);
    StorableFrame(s.log, e');
    LogIsLonger(s.log.events);
    RepeatedFrameRefused(s.log.events, Numbered(e, n), Numbered(e', n), s.log.byteCap);
  }

  lemma StorableFrame(s: LogState, e: AppendLogEvent)
    requires Storable(s, e)
    ensures |s.events| <= U64_MAX && Writable(Numbered(e, |s.events|))
    ensures EncodeFrame(|s.events|, e) == Success(Frame(Numbered(e, |s.events|)))
  {
    EncodeFrameIsFrame(|s.events|, e);
  }

  lemma LogIsLonger(events: seq<LogEvent>)
    requires Printable(events)
    ensures |events| < |LogBytes(events)|
  {
    FramesBoundData(events);
  }

  /** A log followed by two frames of the next number is refused at the second. */
  lemma RepeatedFrameRefused(events: seq<LogEvent>, ev: LogEvent, ev': LogEvent, cap: nat)
    requires Printable(events) && Size(events) + |ev.data| <= cap <= USIZE_MAX
    requires ev.seqNo == ev'.seqNo == |events| < U64_MAX && Writable(ev) && Writable(ev')
    requires |LogBytes(events) + Frame(ev) + Frame(ev')| <= USIZE_MAX
    ensures DecodeFileLog(LogBytes(events) + Frame(ev) + Frame(ev'), cap) ==
            Failure(ReplayLogCorrupt(|LogBytes(events)| + FRAME_FIXED_LEN + |ev.data|, SeqMismatch(|events| + 1, |events|)))
  {
    hide DecodeFrame, DecodeFrames, Frame, Frames, Size, Writable;
    var disk := LogBytes(events) + Frame(ev) + Frame(ev');
    assert [] + events == events;
    assert disk[|MAGIC|..] == Frames(events) + (Frame(ev) + Frame(ev'));
    PrefixDecodes(disk, |MAGIC|, [], events, 0, cap, Frame(ev) + Frame(ev'));
    var off := |LogBytes(events)|;
    var off' := FrameEnd(off, ev);
    assert disk[off..off'] == Frame(ev);
    DecodeOneFrame(disk, off, events, ev, Size(events), cap);
    assert disk[off'..] == Frame(ev');
    RefusedFrame(disk, off', events + [ev], ev', Size(events) + |ev.data|, cap);
  }

  lemma RefusedFrame(bytes: seq<Byte>, start: nat, events: seq<LogEvent>, ev: LogEvent, total: nat, cap: nat)
    requires Writable(ev) && |bytes| <= USIZE_MAX && start <= |bytes| && bytes[start..] == Frame(ev)
    requires ev.seqNo != |events| <= U64_MAX
    ensures DecodeFrames(bytes, start, events, total, cap) ==
            Failure(ReplayLogCorrupt(start, SeqMismatch(|events|, ev.seqNo)))
  {
    hide DecodeFrame, Frame;
    RepeatedSeqRefused(bytes, start, ev, |events|, total, cap);
  }

  lemma RepeatedSeqRefused(bytes: seq<Byte>, start: nat, ev: LogEvent, count: nat, total: nat, cap: nat)
    requires Writable(ev) && |bytes| <= USIZE_MAX && start <= |bytes| && bytes[start..] == Frame(ev)
    requires ev.seqNo != count <= U64_MAX
    ensures DecodeFrame(bytes, start, count, total, cap) ==
            Failure(ReplayLogCorrupt(start, SeqMismatch(count, ev.seqNo)))
  {
    hide ReadHeader;
    Slice(bytes, start, |Frame(ev)|, Frame(ev), 0, FRAME_FIXED_LEN);
    HeaderParses(bytes, start, HeaderOf(ev));
  }

  lemma {:induction false} PrefixDecodes(bytes: seq<Byte>, offset: nat, events: seq<LogEvent>, es: seq<LogEvent>,
                                         total: nat, cap: nat, rest: seq<Byte>)
    requires offset <= |bytes| <= USIZE_MAX && cap <= USIZE_MAX
    requires Printable(events + es)
    requires forall ev | ev in es :: ev in events + es
    requires total + Size(es) <= cap && bytes[offset..] == Frames(es) + rest
    ensures DecodeFrames(bytes, offset, events, total, cap) ==
            DecodeFrames(bytes, |bytes| - |rest|, events + es, total + Size(es), cap)
    decreases es
  {
    hide DecodeFrame;
    if es == [] {
      assert events + es == events;
    } else {
      var ev := es[0];
      NextInLog(events, es);
      hide Printable, Writable, Frame, Frames, DecodeFrames;
      FirstFrame(bytes, offset, es, rest);
      DecodeOneFrame(bytes, offset, events, ev, total, cap);
      PrefixDecodes(bytes, FrameEnd(offset, ev), events + [ev], es[1..], total + |ev.data|, cap, rest);
    }
  }

  /** Opening a cut file: refused, the whole frames before the cut, or, at length zero, a silent fresh log. */
  lemma OpenAfterTruncation(s: FileState, k: nat)
    requires Consistent(s) && k <= |s.disk| <= USIZE_MAX
    ensures OpenLog(s.disk[..k], s.log.byteCap).Success? <==>
            k == 0 || (k >= |MAGIC| && IsBoundary(s.log.events, k - |MAGIC|))
    ensures k == 0 ==> OpenLog(s.disk[..k], s.log.byteCap) == Success(FileState(NewLog(s.log.byteCap), MAGIC))
    ensures 0 < k < |MAGIC| ==>
            OpenLog(s.disk[..k], s.log.byteCap) == Failure(ReplayLogCorrupt(0, MissingMagic))
    ensures OpenLog(s.disk[..k], s.log.byteCap).Success? ==>
            OpenLog(s.disk[..k], s.log.byteCap).value.log.events <= s.log.events
  {
    if k >= |MAGIC| {
      TruncationIsNeverSilent(s.log.events, k, s.log.byteCap);
    }
  }

  // ---- Whole runs ----

  datatype LogOp = Append(event: AppendLogEvent) | Reopen

  function MemoryRun(s: LogState, ops: seq<LogOp>): (LogState, seq<Result<nat, LogError>>)
    decreases |ops|
  {
    if ops == [] then (s, [])
    else match ops[0]
      case Append(e) =>
        var (s', r) := AppendTo(s, e);
        var (t, rs) := MemoryRun(s', ops[1..]);
        (t, [r] + rs)
      case Reopen => MemoryRun(s, ops[1..])
  }

  /** `None` if some reopening is refused. */
  function FileRun(s: FileState, ops: seq<LogOp>): Option<(FileState, seq<Result<nat, LogError>>)>
    decreases |ops|
  {
    if ops == [] then Some((s, []))
    else match ops[0]
      case Append(e) =>
        var (s', r) := FileAppend(s, e, Written);
        (match FileRun(s', ops[1..])
         case Some((t, rs)) => Some((t, [r] + rs))
         case None => None)
      case Reopen =>
        var reopened := OpenLog(s.disk, s.log.byteCap);
        if reopened.Failure? then None else FileRun(reopened.value, ops[1..])
  }

  predicate AllStorable(ops: seq<LogOp>) {
    forall op | op in ops && op.Append? ::
      Encodable(op.event.timestamp) && FRAME_FIXED_LEN + |op.event.data| <= USIZE_MAX
  }

  /** Room the appends of a run may need on disk. */
  function SpaceFor(ops: seq<LogOp>): nat {
    if ops == [] then 0
    else SpaceFor(ops[1..]) + if ops[0].Append? then FRAME_FIXED_LEN + |ops[0].event.data| else 0
  }

  function SameContents(a: LogState, b: LogState): bool {
    a.(wakes := 0) == b.(wakes := 0)
  }

  lemma AppendIgnoresWakes(a: LogState, b: LogState, e: AppendLogEvent)
    requires SameContents(a, b)
    ensures SameContents(AppendTo(a, e).0, AppendTo(b, e).0) && AppendTo(a, e).1 == AppendTo(b, e).1
  {
  }

  lemma FileAppendUsesBoundedSpace(s: FileState, e: AppendLogEvent)
    requires Consistent(s)
    ensures |FileAppend(s, e, Written).0.disk| <= |s.disk| + FRAME_FIXED_LEN + |e.data|
  {
    if |s.log.events| <= U64_MAX {
      EncodeFrameIsFrame(|s.log.events|, e);
    }
  }

  /** Over any run of appends, refused appends and reopenings, the durable log cannot be told from the memory log. */
  lemma {:induction false} DurableRunRefinesMemoryRun(s: FileState, m: LogState, ops: seq<LogOp>)
    requires Consistent(s) && SameContents(s.log, m)
    requires AllStorable(ops) && |s.disk| + SpaceFor(ops) <= USIZE_MAX
    ensures FileRun(s, ops).Some?
    ensures var (s', rs) := FileRun(s, ops).value;
            var (m', qs) := MemoryRun(m, ops);
            Consistent(s') && SameContents(s'.log, m') && rs == qs
    decreases |ops|
  {
    if ops != [] {
      var rest := ops[1..];
      match ops[0]
      case Append(e) =>
        FramesBoundData(s.log.events);
        FileAppendRefinesMemoryAppend(s, e);
        FileAppendUsesBoundedSpace(s, e);
        AppendIgnoresWakes(s.log, m, e);
        DurableRunRefinesMemoryRun(FileAppend(s, e, Written).0, AppendTo(m, e).0, rest);
      case Reopen =>
        ReopenRestores(s);
        DurableRunRefinesMemoryRun(OpenLog(s.disk, s.log.byteCap).value, m, rest);
    }
  }

  lemma FreshFileIsConsistent(cap: nat)
    requires cap <= USIZE_MAX
    ensures OpenLog([], cap) == Success(FileState(NewLog(cap), MAGIC))
    ensures Consistent(OpenLog([], cap).value)
  {
  }

  /** How far opening gets: the calls on the file fail one after the other, or none does. */
  datatype OpenIo = NoFile | HeaderNotWritten | HeaderNotSynced | NotRead | NotSeeked | Open

  /** What opening leaves on disk and yields; the header is written, and can fail, only on an empty file. */
  function OpenWith(disk: seq<Byte>, cap: nat, io: OpenIo): (seq<Byte>, Result<FileState, LogError>) {
    if io == NoFile || (disk == [] && io == HeaderNotWritten) then (disk, Failure(ReplayLogIo))
    else if (disk == [] && io == HeaderNotSynced) || io == NotRead then (HeaderIfEmpty(disk), Failure(ReplayLogIo))
    else
      var reopened := OpenLog(disk, cap);
      (HeaderIfEmpty(disk), if reopened.Success? && io == NotSeeked then Failure(ReplayLogIo) else reopened)
  }

  /** Opening never harms a log: whatever fails, trying again later gives what opening now would have given. */
  lemma FailedOpenIsHarmless(disk: seq<Byte>, cap: nat, io: OpenIo)
    ensures var (disk', r) := OpenWith(disk, cap, io);
            && OpenLog(disk', cap) == OpenLog(disk, cap)
            && (r.Success? ==> r == OpenLog(disk, cap) && disk' == r.value.disk)
            && (r.Failure? ==> r.error == ReplayLogIo || r == OpenLog(disk, cap))
            && (io == Open || (disk != [] && (io == HeaderNotWritten || io == HeaderNotSynced)) ==> r == OpenLog(disk, cap))
            && (io == NoFile || io == NotRead || (disk == [] && (io == HeaderNotWritten || io == HeaderNotSynced)) ==>
                  r == Failure(ReplayLogIo))
            && (io == NotSeeked ==> r.Failure?)
  {
    hide DecodeFileLog;
  }

  // ---- The object, over a file shared with the outside ----

  class LogFile {
    var bytes: seq<Byte>

    constructor (bytes: seq<Byte>)
      ensures this.bytes == bytes
    {
      this.bytes := bytes;
    }
  }

  class FileReplayLog {
    const file: LogFile
    var events: seq<LogEvent>
    var byteTotal: nat
    const byteCap: nat
    var wakes: nat

    ghost function View(): FileState
      reads this, file
    {
      FileState(LogState(events, byteTotal, byteCap, wakes), file.bytes)
    }

    constructor (file: LogFile, events: seq<LogEvent>, byteTotal: nat, byteCap: nat)
      ensures this.file == file && View() == FileState(LogState(events, byteTotal, byteCap, 0), file.bytes)
    {
      this.file, this.events, this.byteTotal, this.byteCap, this.wakes := file, events, byteTotal, byteCap, 0;
    }

    static method WithCap(file: LogFile, byteCap: nat, io: OpenIo) returns (r: Result<FileReplayLog, LogError>)
      modifies file
      ensures var (disk, result) := OpenWith(old(file.bytes), byteCap, io);
              && file.bytes == disk
              && if result.Success? then r.Success? && fresh(r.value) && r.value.file == file && r.value.View() == result.value
                 else r == Failure(result.error)
    {
      if io == NoFile {
        return Failure(ReplayLogIo);
      }
      if |file.bytes| == 0 {
        if io == HeaderNotWritten {
          return Failure(ReplayLogIo);
        }
        file.bytes := file.bytes + MAGIC;
        if io == HeaderNotSynced {
          return Failure(ReplayLogIo);
        }
      }
      if io == NotRead {
        return Failure(ReplayLogIo);
      }
      var decoded := DecodeFile(file.bytes, byteCap);
      if decoded.Failure? {
        return Failure(decoded.error);
      }
      if io == NotSeeked {
        return Failure(ReplayLogIo);
      }
      var log := new FileReplayLog(file, decoded.value.0, decoded.value.1, byteCap);
      return Success(log);
    }

    method Append(e: AppendLogEvent, io: Io) returns (r: Result<nat, LogError>)
      modifies this, file
      ensures (View(), r) == FileAppend(old(View()), e, io)
    {
      if byteTotal + |e.data| > USIZE_MAX {
        return Failure(LogBufferOverflow(byteCap));
      }
      var newTotal := byteTotal + |e.data|;
      if newTotal > byteCap {
        return Failure(LogBufferOverflow(byteCap));
      }
      if |events| > U64_MAX {
        return Failure(ReplayLogCorrupt(|events|, EventCountOverflow));
      }
      var seqNo := |events|;
      var frame := EncodeFrame(seqNo, e);
      if frame.Failure? {
        return Failure(frame.error);
      }
      if io != NotWritten {
        file.bytes := file.bytes + frame.value;
      }
      if io != Written {
        return Failure(ReplayLogIo);
      }
      byteTotal := newTotal;
      events := events + [Numbered(e, seqNo)];
      wakes := wakes + 1;
      return Success(seqNo);
    }
  }
}
