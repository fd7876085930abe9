/** Failure-compatible results, and the machine ranges the runtime works in (a 64-bit target). */
module Prelude {
  datatype Option<+T> = None | Some(value: T)

  datatype Result<+T, +E> = Success(value: T) | Failure(error: E) {
    predicate IsFailure() {
      Failure?
    }

    function PropagateFailure<U>(): (r: Result<U, E>)
      requires Failure?
    {
      Failure(error)
    }

    function Extract(): T
      requires Success?
    {
      value
    }
  }

  type Byte = b: int | 0 <= b < 256

  const U64_MAX: int := 0xFFFF_FFFF_FFFF_FFFF
  const USIZE_MAX: int := 0xFFFF_FFFF_FFFF_FFFF
  const I64_MAX: int := 0x7FFF_FFFF_FFFF_FFFF
  const I64_MIN: int := -0x8000_0000_0000_0000

  type I64 = x: int | -0x8000_0000_0000_0000 <= x <= 0x7FFF_FFFF_FFFF_FFFF
  type U64 = x: int | 0 <= x <= 0xFFFF_FFFF_FFFF_FFFF
  type U32 = x: int | 0 <= x <= 0xFFFF_FFFF

  /** What stops a replay log from being opened or extended; paths are left out. */
  datatype LogError =
    | LogBufferOverflow(cap: nat)
    | ReplayLogCorrupt(offset: nat, reason: CorruptReason)
    | ReplayLogIo

  datatype CorruptReason =
    | MissingMagic
    | TruncatedFrame
    | TruncatedData
    | InvalidStreamTag(tag: Byte)
    | DataLengthOverflow
    | SeqMismatch(expected: nat, found: nat)
    | InvalidNanos(nanos: nat)
    | TimestampSecondsRange
    | SystemTimeRange
    | EventCountOverflow
    | FrameLengthOverflow
}
