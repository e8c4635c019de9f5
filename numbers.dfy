/** Byte values and the one multiplication fact the grid arithmetic needs. */
module Numbers {

  /** One byte: a canvas channel value, or one byte of UTF-8. */
  type Byte = b: int | 0 <= b < 256

  /** Multiplying by the same factor keeps the order. */
  lemma MulLeq(a: nat, b: nat, c: nat)
    requires a <= b
    ensures a * c <= b * c
  {
  }
}
