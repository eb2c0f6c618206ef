/** Unsigned 32-bit words, and values that may be absent. */
module Words {

  const TWO32: int := 0x1_0000_0000

  datatype Option<T> = None | Some(value: T)

  type U32 = x: int | 0 <= x < TWO32
}
