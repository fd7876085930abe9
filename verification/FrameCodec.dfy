/** The on-disk form of a job log: printing one frame, and parsing a whole file. */
module FrameCodec {
  import opened Prelude
  import opened LittleEndian
  import opened Timestamp
  import opened ReplayLog

  /** `AXPJOBLOG1\n` */
  const MAGIC: seq<Byte> := [65, 88, 80, 74, 79, 66, 76, 79, 71, 49, 10]
  const FRAME_FIXED_LEN: int := 29

  lemma MagicIs()
    ensures |MAGIC| == 11 && forall i | 0 <= i < 11 :: MAGIC[i] == "AXPJOBLOG1\n"[i] as int
  {
  }

  function EncodeStream(stream: LogStream): Byte {
    match stream
    case Stdout => 1
    case Stderr => 2
  }

  function DecodeStream(tag: Byte, offset: nat): Result<LogStream, LogError> {
    if tag == 1 then Success(Stdout)
    else if tag == 2 then Success(Stderr)
    else Failure(ReplayLogCorrupt(offset, InvalidStreamTag(tag)))
  }

  /** One and two are the tags of the streams; any other tag is refused and named. */
  lemma TagsExactly(stream: LogStream, tag: Byte, offset: nat)
    ensures DecodeStream(EncodeStream(stream), offset) == Success(stream)
    ensures DecodeStream(tag, offset) ==
            if tag == 1 || tag == 2 then Success(if tag == 1 then Stdout else Stderr)
            else Failure(ReplayLogCorrupt(offset, InvalidStreamTag(tag)))
  {
  }

  function EncodeFrame(seqNo: U64, e: AppendLogEvent): Result<seq<Byte>, LogError> {
    var (secs, nanos) :- EncodeTimestamp(e.timestamp);
    if FRAME_FIXED_LEN + |e.data| > USIZE_MAX then
      Failure(ReplayLogCorrupt(0, FrameLengthOverflow))
    else
      Success(ToLE(seqNo, 8) + [EncodeStream(e.stream)] + ToLE(Unsigned64(secs), 8) + ToLE(nanos, 4)
              + ToLE(|e.data|, 8) + e.data)
  }

  function CheckedReadEnd(bytes: seq<Byte>, offset: nat, len: nat): (r: Result<nat, LogError>)
    ensures r.Success? <==> offset + len <= |bytes|
    ensures r.Success? ==> r.value == offset + len
    ensures r.Failure? ==> r.error == ReplayLogCorrupt(offset, TruncatedFrame)
  {
    if offset + len > |bytes| then Failure(ReplayLogCorrupt(offset, TruncatedFrame)) else Success(offset + len)
  }

  function ReadUint(bytes: seq<Byte>, offset: nat, len: nat): Result<nat, LogError> {
    var end :- CheckedReadEnd(bytes, offset, len);
    Success(FromLE(bytes[offset..end]))
  }

  function ReadU64(bytes: seq<Byte>, offset: nat): Result<U64, LogError> {
    Widths();
    var x :- ReadUint(bytes, offset, 8);
    Success(x)
  }

  function ReadU32(bytes: seq<Byte>, offset: nat): Result<U32, LogError> {
    Widths();
    var x :- ReadUint(bytes, offset, 4);
    Success(x)
  }

  function ReadI64(bytes: seq<Byte>, offset: nat): Result<I64, LogError> {
    var x :- ReadU64(bytes, offset);
    Success(Signed64(x))
  }

  function ReadU8(bytes: seq<Byte>, offset: nat): Result<Byte, LogError> {
    if offset >= |bytes| then Failure(ReplayLogCorrupt(offset, TruncatedFrame)) else Success(bytes[offset])
  }

  /** The fixed-width fields in front of a frame's data. */
  datatype Header = Header(seqNo: U64, stream: LogStream, secs: I64, nanos: U32, dataLen: U64)

  function ReadHeader(bytes: seq<Byte>, start: nat): Result<Header, LogError> {
    var seqNo :- ReadU64(bytes, start);
    var tag :- ReadU8(bytes, start + 8);
    var stream :- DecodeStream(tag, start);
    var secs :- ReadI64(bytes, start + 9);
    var nanos :- ReadU32(bytes, start + 17);
    var dataLen :- ReadU64(bytes, start + 21);
    Success(Header(seqNo, stream, secs, nanos, dataLen))
  }

  /** Check a frame's fields and take its data; `count` and `total` are the events and bytes before it. */
  function TakeData(bytes: seq<Byte>, start: nat, h: Header, count: nat, total: nat, cap: nat)
    : Result<LogEvent, LogError>
  {
    var dataStart := start + FRAME_FIXED_LEN;
    if dataStart + h.dataLen > USIZE_MAX then Failure(ReplayLogCorrupt(start, DataLengthOverflow))
    else if dataStart + h.dataLen > |bytes| then Failure(ReplayLogCorrupt(dataStart, TruncatedData))
    else if count > U64_MAX then Failure(ReplayLogCorrupt(start, EventCountOverflow))
    else if h.seqNo != count then Failure(ReplayLogCorrupt(start, SeqMismatch(count, h.seqNo)))
    else if total + h.dataLen > USIZE_MAX then Failure(LogBufferOverflow(cap))
    else if total + h.dataLen > cap then Failure(LogBufferOverflow(cap))
    else
      var timestamp :- DecodeTimestamp(h.secs, h.nanos, start);
      Success(LogEvent(h.seqNo, h.stream, bytes[dataStart..dataStart + h.dataLen], timestamp))
  }

  function DecodeFrame(bytes: seq<Byte>, start: nat, count: nat, total: nat, cap: nat)
    : Result<LogEvent, LogError>
  {
    var h :- ReadHeader(bytes, start);
    TakeData(bytes, start, h, count, total, cap)
  }

  function HeaderBytes(h: Header): (s: seq<Byte>)
    ensures |s| == FRAME_FIXED_LEN
  {
    ToLE(h.seqNo, 8) + [EncodeStream(h.stream)] + ToLE(Unsigned64(h.secs), 8) + ToLE(h.nanos, 4) + ToLE(h.dataLen, 8)
  }

  function HeaderOf(ev: LogEvent): Header
    requires ev.seqNo <= U64_MAX && |ev.data| <= U64_MAX
  {
    Header(ev.seqNo, ev.stream, ev.timestamp / 1_000_000_000, ev.timestamp % 1_000_000_000, |ev.data|)
  }

  predicate Writable(ev: LogEvent) {
    ev.seqNo <= U64_MAX && |ev.data| <= U64_MAX
  }

  /** The bytes of one event; the only event an encoder never writes has the least `i64` second. */
  function Frame(ev: LogEvent): (s: seq<Byte>)
    requires Writable(ev)
    ensures |s| == FRAME_FIXED_LEN + |ev.data|
  {
    HeaderBytes(HeaderOf(ev)) + ev.data
  }

  lemma EncodeFrameIsFrame(seqNo: U64, e: AppendLogEvent)
    ensures EncodeFrame(seqNo, e).Success? <==>
            Encodable(e.timestamp) && FRAME_FIXED_LEN + |e.data| <= USIZE_MAX
    ensures EncodeFrame(seqNo, e).Success? ==> EncodeFrame(seqNo, e).value == Frame(Numbered(e, seqNo))
  {
    EncodeIsFloorDivision(e.timestamp);
  }

  lemma ReadUintAt(bytes: seq<Byte>, offset: nat, len: nat, x: nat)
    requires offset + len <= |bytes| && x < Pow256(len)
    requires bytes[offset..offset + len] == ToLE(x, len)
    ensures ReadUint(bytes, offset, len) == Success(x)
  {
    FromToLE(x, len);
  }

  lemma ReadUintInverse(bytes: seq<Byte>, offset: nat, len: nat)
    requires ReadUint(bytes, offset, len).Success?
    ensures offset + len <= |bytes|
    ensures bytes[offset..offset + len] == ToLE(ReadUint(bytes, offset, len).value, len)
  {
    ToFromLE(bytes[offset..offset + len]);
  }

  lemma ReadHeaderIsCanonical(bytes: seq<Byte>, start: nat)
    requires ReadHeader(bytes, start).Success?
    ensures start + FRAME_FIXED_LEN <= |bytes|
    ensures bytes[start..start + FRAME_FIXED_LEN] == HeaderBytes(ReadHeader(bytes, start).value)
  {
    hide ToLE, FromLE, Pow256;
    var h := ReadHeader(bytes, start).value;
    ReadUintInverse(bytes, start, 8);
    ReadUintInverse(bytes, start + 9, 8);
    ReadUintInverse(bytes, start + 17, 4);
    ReadUintInverse(bytes, start + 21, 8);
    assert bytes[start..start + FRAME_FIXED_LEN] ==
           bytes[start..start + 8] + [bytes[start + 8]] + bytes[start + 9..start + 9 + 8]
           + bytes[start + 17..start + 17 + 4] + bytes[start + 21..start + 21 + 8];
  }

  /** A frame accepted at `start` is, byte for byte, the frame of the event it yields. */
  lemma AcceptedFrameIsCanonical(bytes: seq<Byte>, start: nat, count: nat, total: nat, cap: nat)
    requires DecodeFrame(bytes, start, count, total, cap).Success?
    ensures var ev := DecodeFrame(bytes, start, count, total, cap).value;
            && ev.seqNo == count && Writable(ev)
            && start + FRAME_FIXED_LEN + |ev.data| <= |bytes|
            && total + |ev.data| <= cap
            && bytes[start..start + FRAME_FIXED_LEN + |ev.data|] == Frame(ev)
  {
    hide ReadHeader, HeaderBytes, DecodeTimestamp;
    var h := ReadHeader(bytes, start).value;
    var ev := TakeData(bytes, start, h, count, total, cap).value;
    ReadHeaderIsCanonical(bytes, start);
    DecodeIsFloorInverse(h.secs, h.nanos, start);
    assert HeaderOf(ev) == h;
    assert bytes[start..start + FRAME_FIXED_LEN + |ev.data|] ==
           bytes[start..start + FRAME_FIXED_LEN] + bytes[start + FRAME_FIXED_LEN..start + FRAME_FIXED_LEN + |ev.data|];
  }

  lemma Slice(bytes: seq<Byte>, start: nat, len: nat, f: seq<Byte>, a: nat, b: nat)
    requires a <= b <= len <= |f| && start + len <= |bytes|
    requires bytes[start..start + len] == f[..len]
    ensures bytes[start + a..start + b] == f[a..b]
  {
    forall i | a <= i < b ensures bytes[start + i] == f[i] {
      assert bytes[start..start + len][i] == f[..len][i];
    }
  }

  /**
    The layout of a frame, byte by byte: sequence number, stream tag, floor second in two's complement,
    nanoseconds, data length, data; numbers are little-endian.
   */
  lemma FrameLayout(ev: LogEvent)
    requires Writable(ev)
    ensures var f := Frame(ev);
            && |f| == 29 + |ev.data|
            && FromLE(f[0..8]) == ev.seqNo
            && f[8] == (if ev.stream == Stdout then 1 else 2)
            && FromLE(f[9..17]) == (if ev.timestamp >= 0 then 0 else 0x1_0000_0000_0000_0000) + ev.timestamp / 1_000_000_000
            && FromLE(f[17..21]) == ev.timestamp % 1_000_000_000
            && FromLE(f[21..29]) == |ev.data|
            && f[29..] == ev.data
  {
    var h := HeaderOf(ev);
    HeaderFields(h);
    Widths();
    FromToLE(h.seqNo, 8);
    FromToLE(Unsigned64(h.secs), 8);
    FromToLE(h.nanos, 4);
    FromToLE(h.dataLen, 8);
    hide ToLE, FromLE, Pow256, HeaderBytes;
    var (f, b) := (Frame(ev), HeaderBytes(h));
    assert f[0..8] == b[0..8] && f[9..17] == b[9..17] && f[17..21] == b[17..21] && f[21..29] == b[21..29];
    assert f[8] == b[8..9][0];
  }

  lemma HeaderFields(h: Header)
    ensures var f := HeaderBytes(h);
            && f[0..8] == ToLE(h.seqNo, 8)
            && f[8..9] == [EncodeStream(h.stream)]
            && f[9..17] == ToLE(Unsigned64(h.secs), 8)
            && f[17..21] == ToLE(h.nanos, 4)
            && f[21..29] == ToLE(h.dataLen, 8)
  {
    hide ToLE;
  }

  /** One unsigned field of a header that lies, perhaps cut, at `start`. */
  lemma FieldAt(bytes: seq<Byte>, start: nat, len: nat, f: seq<Byte>, a: nat, width: nat, x: nat)
    requires a + width <= len <= |f| && start + len <= |bytes|
    requires bytes[start..start + len] == f[..len]
    requires x < Pow256(width) && f[a..a + width] == ToLE(x, width)
    ensures ReadUint(bytes, start + a, width) == Success(x)
  {
    hide ToLE, FromLE, Pow256, ReadUint;
    Slice(bytes, start, len, f, a, a + width);
    ReadUintAt(bytes, start + a, width, x);
  }

  /** What the field readers return over the first `len` bytes of a header that lies at `start`. */
  lemma FieldsAt(bytes: seq<Byte>, start: nat, len: nat, h: Header)
    requires len <= FRAME_FIXED_LEN && start + len <= |bytes|
    requires bytes[start..start + len] == HeaderBytes(h)[..len]
    ensures len >= 8 ==> ReadUint(bytes, start, 8) == Success(h.seqNo)
    ensures len >= 9 ==> bytes[start + 8] == EncodeStream(h.stream)
    ensures len >= 17 ==> ReadUint(bytes, start + 9, 8) == Success(Unsigned64(h.secs))
    ensures len >= 21 ==> ReadUint(bytes, start + 17, 4) == Success(h.nanos)
    ensures len >= 29 ==> ReadUint(bytes, start + 21, 8) == Success(h.dataLen)
  {
    Widths();
    HeaderFields(h);
    hide ToLE, FromLE, Pow256, ReadUint, HeaderBytes;
    var f := HeaderBytes(h);
    if len >= 8 { FieldAt(bytes, start, len, f, 0, 8, h.seqNo); }
    if len >= 9 { Slice(bytes, start, len, f, 8, 9); assert bytes[start + 8] == bytes[start + 8..start + 9][0]; }
    if len >= 17 { FieldAt(bytes, start, len, f, 9, 8, Unsigned64(h.secs)); }
    if len >= 21 { FieldAt(bytes, start, len, f, 17, 4, h.nanos); }
    if len >= 29 { FieldAt(bytes, start, len, f, 21, 8, h.dataLen); }
  }

  lemma HeaderParses(bytes: seq<Byte>, start: nat, h: Header)
    requires start + FRAME_FIXED_LEN <= |bytes|
    requires bytes[start..start + FRAME_FIXED_LEN] == HeaderBytes(h)
    ensures ReadHeader(bytes, start) == Success(h)
  {
    FieldsAt(bytes, start, FRAME_FIXED_LEN, h);
  }

  lemma CutHeaderRefused(bytes: seq<Byte>, start: nat, h: Header)
    requires start < |bytes| < start + FRAME_FIXED_LEN
    requires bytes[start..] == HeaderBytes(h)[..|bytes| - start]
    ensures var r := ReadHeader(bytes, start);
            r.Failure? && r.error.ReplayLogCorrupt? && r.error.reason == TruncatedFrame
  {
    assert bytes[start..] == bytes[start..start + (|bytes| - start)];
    FieldsAt(bytes, start, |bytes| - start, h);
    ShortReadFails(bytes, start, 8);
    ShortReadFails(bytes, start + 9, 8);
    ShortReadFails(bytes, start + 17, 4);
    ShortReadFails(bytes, start + 21, 8);
    TagsExactly(h.stream, 0, start);
    hide ReadUint, HeaderBytes, EncodeStream, DecodeStream, Pow256, ToLE, FromLE;
  }

  lemma ShortReadFails(bytes: seq<Byte>, offset: nat, len: nat)
    ensures offset + len > |bytes| ==> ReadUint(bytes, offset, len) == Failure(ReplayLogCorrupt(offset, TruncatedFrame))
  {
  }

  /** The bytes of an event, found at `start` after `count` events, parse to that event. */
  lemma FrameParses(bytes: seq<Byte>, start: nat, ev: LogEvent, total: nat, cap: nat)
    requires |bytes| <= USIZE_MAX && cap <= USIZE_MAX && Writable(ev)
    requires start + FRAME_FIXED_LEN + |ev.data| <= |bytes|
    requires bytes[start..start + FRAME_FIXED_LEN + |ev.data|] == Frame(ev)
    ensures DecodeFrame(bytes, start, ev.seqNo, total, cap) ==
            if total + |ev.data| <= cap then Success(ev) else Failure(LogBufferOverflow(cap))
  {
    hide ReadHeader, HeaderBytes;
    var h := HeaderOf(ev);
    Slice(bytes, start, |Frame(ev)|, Frame(ev), 0, FRAME_FIXED_LEN);
    Slice(bytes, start, |Frame(ev)|, Frame(ev), FRAME_FIXED_LEN, |Frame(ev)|);
    HeaderParses(bytes, start, h);
    DecodeIsFloorInverse(h.secs, h.nanos, start);
  }

  /** A frame cut short is refused, whatever byte it is cut at. */
  lemma CutFrameRefused(bytes: seq<Byte>, start: nat, ev: LogEvent, total: nat, cap: nat)
    requires Writable(ev)
    requires start < |bytes| < start + FRAME_FIXED_LEN + |ev.data| <= USIZE_MAX
    requires bytes[start..] == Frame(ev)[..|bytes| - start]
    ensures var r := DecodeFrame(bytes, start, ev.seqNo, total, cap);
            r.Failure? && r.error.ReplayLogCorrupt? && r.error.reason in {TruncatedFrame, TruncatedData}
  {
    hide ReadHeader, HeaderBytes;
    var h := HeaderOf(ev);
    var len := |bytes| - start;
    if len < FRAME_FIXED_LEN {
      CutHeaderRefused(bytes, start, h);
    } else {
      assert bytes[start..] == bytes[start..start + len];
      Slice(bytes, start, len, Frame(ev), 0, FRAME_FIXED_LEN);
      HeaderParses(bytes, start, h);
    }
  }
}
