/**
 Bytes and 64-bit words as integers, and optional values.
 */
module Words {
  const WORD_LIMIT: nat := 0x1_0000_0000_0000_0000

  type U64 = n: nat | n < WORD_LIMIT

  type Byte = b: int | 0 <= b < 256

  datatype Option<+T> = None | Some(value: T)

  // A word as a signed number.
  function Int64(w: U64): int {
    if w < 0x8000_0000_0000_0000 then w else w - WORD_LIMIT
  }
}
