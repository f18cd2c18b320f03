/** Octets as they appear in a Python `bytes` object. */
module Bytes {
  /** One element of a `bytes` value; XOR on it is the bit-vector `^`. */
  type byte = bv8

  /** An int in 0..255 survives the trip to a byte and back. */
  lemma ByteOfInt(k: int)
    requires 0 <= k < 256
    ensures (k as byte) as int == k
  {
  }
}

/** The outcome of an operation that Python ends by raising an exception. */
module Results {
  datatype Result<+T, +E> = Ok(value: T) | Err(error: E)

  datatype Outcome<+E> = Pass | Fail(error: E)
}
