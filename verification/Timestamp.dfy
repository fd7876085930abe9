/** The (seconds, nanoseconds) pair a log frame stores for a wall-clock instant. */
module Timestamp {
  import opened Prelude

  const NANOS_PER_SEC: int := 1_000_000_000

  /** An instant in signed nanoseconds from the Unix epoch; the whole-second part is an `i64`. */
  type SystemTime = t: int |
    -0x8000_0000_0000_0000 * 1_000_000_000 <= t < 0x8000_0000_0000_0000 * 1_000_000_000

  /** A non-negative span; `nanos` is below one second. */
  datatype Duration = Duration(secs: nat, nanos: nat)

  function DurationOf(span: nat): Duration {
    Duration(span / 1_000_000_000, span % 1_000_000_000)
  }

  function Nanos(d: Duration): nat {
    d.secs * 1_000_000_000 + d.nanos
  }

  /** Distance from the epoch: forwards is a success, backwards carries the distance as the error. */
  function DurationSinceEpoch(t: SystemTime): Result<Duration, Duration> {
    if t >= 0 then Success(DurationOf(t)) else Failure(DurationOf(-(t as int)))
  }

  function InstantAt(t: int): Option<SystemTime> {
    if -0x8000_0000_0000_0000 * 1_000_000_000 <= t < 0x8000_0000_0000_0000 * 1_000_000_000
    then Some(t)
    else None
  }

  function EncodeTimestamp(t: SystemTime): Result<(I64, U32), LogError> {
    var outOfRange := ReplayLogCorrupt(0, TimestampSecondsRange);
    match DurationSinceEpoch(t)
    case Success(d) =>
      if d.secs > 0x7FFF_FFFF_FFFF_FFFF then Failure(outOfRange) else Success((d.secs, d.nanos))
    case Failure(d) =>
      if d.secs > 0x7FFF_FFFF_FFFF_FFFF then Failure(outOfRange)
      else if d.nanos == 0 then Success((-(d.secs as int), 0))
      else if d.secs + 1 > 0x7FFF_FFFF_FFFF_FFFF then Failure(outOfRange)
      else Success((-(d.secs as int) - 1, 1_000_000_000 - d.nanos))
  }

  function DecodeTimestamp(secs: I64, nanos: U32, offset: nat): Result<SystemTime, LogError> {
    var outOfRange := ReplayLogCorrupt(offset, SystemTimeRange);
    if nanos >= 1_000_000_000 then
      Failure(ReplayLogCorrupt(offset, InvalidNanos(nanos)))
    else
      var instant :=
        if secs >= 0 then InstantAt(Nanos(Duration(secs, nanos)))
        else if nanos == 0 then InstantAt(-(Nanos(Duration(-(secs as int), 0)) as int))
        else InstantAt(-(Nanos(Duration(-(secs as int) - 1, 1_000_000_000 - nanos)) as int));
      match instant
      case Some(t) => Success(t)
      case None => Failure(outOfRange)
  }

  /** An instant can be written to a frame exactly when its floor second is not the least `i64`. */
  predicate Encodable(t: SystemTime) {
    t >= (-0x8000_0000_0000_0000 + 1) * 1_000_000_000
  }

  /** The borrow done by hand before the epoch is floor division and remainder by 10^9. */
  lemma EncodeIsFloorDivision(t: SystemTime)
    ensures EncodeTimestamp(t).Success? <==> Encodable(t)
    ensures Encodable(t) <==> -I64_MAX <= t / NANOS_PER_SEC <= I64_MAX
    ensures Encodable(t) ==> EncodeTimestamp(t).value == (t / NANOS_PER_SEC, t % NANOS_PER_SEC)
    ensures !Encodable(t) ==> EncodeTimestamp(t).error == ReplayLogCorrupt(0, TimestampSecondsRange)
  {
  }

  lemma DecodeIsFloorInverse(secs: I64, nanos: U32, offset: nat)
    ensures DecodeTimestamp(secs, nanos, offset).Success? <==> nanos < NANOS_PER_SEC
    ensures nanos >= NANOS_PER_SEC ==>
              DecodeTimestamp(secs, nanos, offset) == Failure(ReplayLogCorrupt(offset, InvalidNanos(nanos)))
    ensures nanos < NANOS_PER_SEC ==>
              var t := DecodeTimestamp(secs, nanos, offset).value;
              t == secs * NANOS_PER_SEC + nanos && t / NANOS_PER_SEC == secs && t % NANOS_PER_SEC == nanos
  {
  }

  /** Reading back what was written gives the same instant, on both sides of the epoch. */
  lemma TimestampRoundTrip(t: SystemTime, offset: nat)
    requires Encodable(t)
    ensures var (secs, nanos) := EncodeTimestamp(t).value;
            DecodeTimestamp(secs, nanos, offset) == Success(t)
  {
    EncodeIsFloorDivision(t);
    DecodeIsFloorInverse(t / NANOS_PER_SEC, t % NANOS_PER_SEC, offset);
  }
}
