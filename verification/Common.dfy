/** Types and sequence functions shared by the components. */
module Common {
  type byte = b: int | 0 <= b < 256

  const WORD: int := 0x1_0000_0000

  type u32 = n: int | 0 <= n < WORD

  /** Arithmetic on `unsigned int` wraps. */
  function Wrap(n: int): u32 {
    n % WORD
  }

  /** The largest value of the C type `int`. */
  const INT_MAX: int := 0x7FFF_FFFF

  /** An `unsigned int` taken as an `int`. */
  function AsInt(n: u32): int {
    if n <= INT_MAX then n else n - WORD
  }

  datatype Option<+T> = None | Some(value: T)

  /** The stream that arrives in some buffers. */
  function Flatten(bufs: seq<seq<byte>>): seq<byte> {
    if bufs == [] then [] else bufs[0] + Flatten(bufs[1..])
  }

  function Without<T>(s: seq<T>, i: nat): seq<T>
    requires i < |s|
  {
    s[..i] + s[i + 1..]
  }
}
