/** Types that several components share. */
module Common {

  datatype Option<+T> = None | Some(value: T)

  datatype Result<+T, +E> = Ok(value: T) | Err(error: E)

  /** An unsigned 32-bit integer; additions of such numbers are taken modulo `WRAP`. */
  type uint32 = x: int | 0 <= x < WRAP

  const WRAP := 0x1_0000_0000

  /** Reducing before an addition does not change the reduced sum. */
  lemma AddWrapped(a: nat, b: nat)
    ensures (a + b) % WRAP == (a % WRAP + b) % WRAP
  {
  }
}
