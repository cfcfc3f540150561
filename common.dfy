/** Small shared vocabulary: an optional value (a C pointer that may be NULL),
    the byte type of buffers, and powers of two. */
module Common {

  /** A possibly-absent value; `None` plays the part of a NULL pointer. */
  datatype Option<T> = None | Some(value: T)

  /** An unsigned 8-bit byte, as stored in `char` buffers. */
  newtype byte = b: int | 0 <= b < 256

  /** `2^n`, the value of `1 << n`. */
  function Pow2(n: nat): (r: nat)
    ensures r >= 1
  {
    if n == 0 then 1 else 2 * Pow2(n - 1)
  }

  lemma {:induction false} Pow2Add(m: nat, n: nat)
    ensures Pow2(m + n) == Pow2(m) * Pow2(n)
  {
    if m > 0 {
      Pow2Add(m - 1, n);
    }
  }
}
