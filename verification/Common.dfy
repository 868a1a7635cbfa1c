/** Small shared vocabulary: optional values, results, and the fixed-width
    integer bounds that the Rust sources rely on. */
module Common {
  datatype Option<+T> = None | Some(value: T)

  datatype Result<+T, +E> = Ok(value: T) | Err(error: E)

  const TWO_32: nat := 0x1_0000_0000
  const TWO_64: nat := 0x1_0000_0000_0000_0000

  /** The Rust `u64`: arithmetic on it must be shown not to overflow. */
  newtype u64 = x: int | 0 <= x < 0x1_0000_0000_0000_0000

  lemma Associate<T>(x: seq<T>, y: seq<T>, z: seq<T>)
    ensures x + (y + z) == x + y + z
  {
  }
}
