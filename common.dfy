/** Shared vocabulary of the blueprint service model: identifiers, instants,
    32-bit integers, and the outcome types that replace the source's exceptions. */
module Common {

  /** A UUID. Its text form is outside the model (see GrpcService.GuidFormat);
      `Guid.Empty` is 0. */
  type Guid = nat

  const EmptyGuid: Guid := 0

  /** An instant (DateTime or protobuf Timestamp) as a tick count; `default(DateTime)` is 0. */
  type Timestamp = int

  const MinDateTime: Timestamp := 0

  /** A TimeSpan as a tick count (100 ns per tick). */
  type TimeSpan = int

  const TicksPerSecond: int := 10_000_000
  const TicksPerMinute: int := 60 * TicksPerSecond
  const TicksPerHour: int := 60 * TicksPerMinute
  const TicksPerDay: int := 24 * TicksPerHour

  const Int32Min: int := -0x8000_0000
  const Int32Max: int := 0x7fff_ffff
  const TwoTo32: int := 0x1_0000_0000

  /** C# `int`. */
  type Int32 = x: int | Int32Min <= x <= Int32Max

  predicate InInt32Range(x: int) {
    Int32Min <= x <= Int32Max
  }

  /** Unchecked C# `int` arithmetic: the result of an operation reduced into
      the 32-bit range by two's-complement wrap-around. */
  function Wrap32(x: int): (r: Int32)
    ensures (r - x) % TwoTo32 == 0
    ensures InInt32Range(x) ==> r == x
  {
    (x - Int32Min) % TwoTo32 + Int32Min
  }

  function Min(a: int, b: int): int {
    if a <= b then a else b
  }

  datatype Option<T> = None | Some(value: T)

  /** What went wrong in the relational store (an NpgsqlException or PostgresException). */
  datatype StoreFault =
    | Unreachable        // connection could not be opened or the command failed in transit
    | UniqueViolation    // INSERT of an id that is already present (id is the primary key)
    | NegativePaging     // LIMIT or OFFSET below zero, which PostgreSQL rejects
    | ScalarOverflow     // a bigint scalar read as int exceeds Int32.MaxValue (OverflowException)

  /** The exceptions that cross component boundaries. */
  datatype Failure =
    | ArgumentError(message: string)  // System.ArgumentException
    | StoreError(fault: StoreFault)   // any exception raised by the database client

  /** The value of a call that may throw. */
  datatype Result<T> = Ok(value: T) | Err(failure: Failure)

  /** The outcome of a `void` call that may throw. */
  datatype Outcome = Pass | Fail(failure: Failure)
}
