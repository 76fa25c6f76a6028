/** Shared vocabulary: Rust's fixed-width unsigned integers and the
    Option/Result wrappers the source uses for absent values and errors. */
module Common {

  const MAX_U8: int := 0xFF
  const MAX_U32: int := 0xFFFF_FFFF
  const MAX_USIZE: int := 0xFFFF_FFFF_FFFF_FFFF

  /** Rust `u8`. */
  type u8 = x: int | 0 <= x <= MAX_U8
  /** Rust `u32`. */
  type u32 = x: int | 0 <= x <= MAX_U32
  /** Rust `usize` on a 64-bit target. */
  type usize = x: int | 0 <= x <= MAX_USIZE

  datatype Option<+T> = None | Some(value: T)

  datatype Result<+T, +E> = Ok(value: T) | Err(error: E) {
    predicate IsFailure() {
      Err?
    }

    function PropagateFailure<U>(): Result<U, E>
      requires Err?
    {
      Err(error)
    }

    function Extract(): T
      requires Ok?
    {
      value
    }
  }

  /** `n` zero bytes. */
  function Zeros(n: nat): (r: seq<u8>)
    ensures |r| == n
    ensures forall i :: 0 <= i < n ==> r[i] == 0
  {
    seq(n, _ => 0)
  }
}
