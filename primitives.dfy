/** Value types shared by every service: nullable values, identifiers, instants and C# `int`. */
module Primitives {

  /** A C# nullable value (`string?`, `DateTime?`, a reference that may be null). */
  datatype Option<T> = None | Some(value: T) {
    function GetOr(default: T): T {
      match this
      case Some(v) => v
      case None => default
    }
  }

  const GuidBound: nat := 0x1_0000_0000_0000_0000_0000_0000_0000_0000

  /** A Guid, as the 128-bit number whose 32 hexadecimal digits its text form shows. */
  type Guid = g: nat | g < GuidBound

  /** `Guid.Empty`. */
  const EmptyGuid: Guid := 0

  /** A `DateTimeOffset`, as its UTC tick count (100 ns units since 0001-01-01). */
  type Timestamp = int

  /** `default(DateTimeOffset)`, i.e. `DateTimeOffset.MinValue`. */
  const DefaultTimestamp: Timestamp := 0

  /** `DateTimeOffset.MaxValue`. */
  const MaxTimestamp: Timestamp := 3155378975999999999

  const TicksPerDay: nat := 864000000000

  const Int32Min: int := -0x8000_0000
  const Int32Max: int := 0x7FFF_FFFF

  /** A C# `int`. */
  type Int32 = x: int | Int32Min <= x <= Int32Max

  /** The two's-complement wrap-around of unchecked C# `int` arithmetic. */
  function Wrap32(x: int): (r: Int32)
    ensures (r - x) % 0x1_0000_0000 == 0
    ensures Int32Min <= x <= Int32Max ==> r == x
  {
    var m := (x - Int32Min) % 0x1_0000_0000;
    m + Int32Min
  }

  /** C#'s `/` on `int`, which truncates toward zero (divisor non-zero). */
  function TruncDiv(a: int, b: int): (q: int)
    requires b != 0
    ensures a >= 0 && b > 0 ==> q == a / b
    ensures a >= 0 && b < 0 ==> q == -(a / -b)
  {
    if a >= 0 then (if b > 0 then a / b else -(a / -b))
    else (if b > 0 then -((-a) / b) else (-a) / (-b))
  }

  /** The smaller of two integers. */
  function Min(a: int, b: int): int {
    if a <= b then a else b
  }

  /** `DateTime.Date` on a tick count: midnight of the same day. */
  function DatePart(ticks: Timestamp): (d: Timestamp)
    ensures d % TicksPerDay == 0
    ensures d <= ticks < d + TicksPerDay
  {
    ticks - ticks % TicksPerDay
  }
}
