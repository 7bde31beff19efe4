// C types that several components share.
module CTypes {
  // A pointer that may be null.
  datatype Option<T> = None | Some(value: T)

  // An unsigned char that is shifted and masked.
  type Byte = bv8

  // A character of a C string, as the number of its unsigned char.
  type CharCode = c: nat | c < 256

  // The terminator of a C string.
  const NUL: char := 0 as char

  // The unsigned int has 32 bits.
  const UINT_RANGE: nat := 0x1_0000_0000
}
