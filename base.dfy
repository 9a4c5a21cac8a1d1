/** Shared value types: fixed-width integers as subset types of `int`, and the
    Option/Result wrappers used for the error paths of the tools. */
module Base {

  /** An unsigned 8-bit value (`unsigned char`, `uint8_t`). */
  type Byte = b: int | 0 <= b < 0x100

  /** An unsigned 32-bit value (`uint32_t`). */
  type U32 = x: int | 0 <= x < 0x1_0000_0000

  /** An unsigned 64-bit value (`size_t` on the 64-bit target). */
  type U64 = x: int | 0 <= x < 0x1_0000_0000_0000_0000

  /** `a + b` in `uint32_t` arithmetic: the sum wraps around past 2^32 - 1. */
  function AddU32(a: U32, b: U32): (r: U32)
    ensures r == if a + b < 0x1_0000_0000 then a + b else a + b - 0x1_0000_0000
  {
    (a + b) % 0x1_0000_0000
  }

  /** An optional value; `None` propagates through `:-`. */
  datatype Option<+T> = None | Some(value: T) {
    predicate IsFailure() { None? }

    function PropagateFailure<U>(): Option<U>
      requires None?
    {
      None
    }

    function Extract(): T
      requires Some?
    {
      value
    }
  }

  datatype Result<+T, +E> = Ok(value: T) | Err(error: E)
}
