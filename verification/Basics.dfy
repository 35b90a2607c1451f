/** Outcomes, errors and integer widths shared by every component. */
module Basics {

  datatype Option<+T> = None | Some(value: T)

  /** The error kinds of src/parser.rs and src/error.rs, without their message text. */
  datatype Error = InvalidProtocol | BadInteger | BadCommand | BadRdb

  /** The outcome of a call: a value, an `Err` that the caller sees, or a panic (a slice or an index
      out of range), which ends the task that made the call. */
  datatype Outcome<+T> = Ok(value: T) | Err(error: Error) | Panic {

    predicate IsFailure() {
      !Ok?
    }

    function PropagateFailure<U>(): Outcome<U>
      requires IsFailure()
    {
      match this
      case Err(e) => Err(e)
      case Panic => Panic
    }

    function Extract(): T
      requires Ok?
    {
      value
    }
  }

  const I32_MIN: int := -0x8000_0000
  const I32_MAX: int := 0x7fff_ffff
  const I64_MIN: int := -0x8000_0000_0000_0000
  const I64_MAX: int := 0x7fff_ffff_ffff_ffff
  const U16_MAX: int := 0xffff
  const U64_MAX: int := 0xffff_ffff_ffff_ffff

  const WIDTH_32: int := 0x1_0000_0000

  type i32 = n: int | I32_MIN <= n <= I32_MAX

  type u64 = n: int | 0 <= n <= U64_MAX

  /** Addition of the release profile wraps around at the width of the type. */
  function Wrap32(n: int): (w: i32)
    ensures I32_MIN <= n <= I32_MAX ==> w == n
    ensures -0x8000_0000 <= w < 0x8000_0000 && (n - w) % 0x1_0000_0000 == 0
  {
    (n + 0x8000_0000) % WIDTH_32 - 0x8000_0000
  }

  function Wrap64(n: int): (w: u64)
    ensures 0 <= n <= U64_MAX ==> w == n
    ensures 0 <= w < 0x1_0000_0000_0000_0000 && (n - w) % 0x1_0000_0000_0000_0000 == 0
  {
    n % 0x1_0000_0000_0000_0000
  }
}
