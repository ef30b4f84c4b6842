/** Outcomes of operations that can abort.

    The evictor has no error type of its own: every failure is a Rust panic
    (a debug-build overflow check or a remainder by zero).  The model makes
    each of those panics an explicit value so that the inputs which reach
    them can be named and reasoned about.
 */
module Outcomes {

  /** The reason a computation panicked. */
  datatype Fault =
    | ShiftOverflow     // `1u64 << h` with `h >= 64`
    | RemainderByZero   // `x % 0`
    | AddOverflow       // a `u64` addition that exceeds `u64::MAX`

  /** Either the value a computation returns, or the panic that stopped it. */
  datatype Result<+T> = Ok(value: T) | Panic(fault: Fault)

  /** Machine integer ranges of the original code. */
  const TWO_32: nat := 0x1_0000_0000
  const TWO_64: nat := 0x1_0000_0000_0000_0000

  type u32 = x: nat | x < TWO_32
  type u64 = x: nat | x < TWO_64
}
