/** Byte strings and the small result types shared by every pass. */
module Bytes {

  /** One byte of a test case; Python's `bytes` is a sequence of these. */
  newtype byte = b: int | 0 <= b < 256

  /** The result of a search that may find nothing. */
  datatype Option<T> = None | Some(value: T)

  /** The result of `Format.parse`: a value, or the `ParseError` it raises. */
  datatype Parsed<T> = Ok(value: T) | ParseError

  /** ASCII `0`-`9`. */
  predicate IsDigit(b: byte) { 48 <= b <= 57 }

  /** ASCII `a`-`z`. */
  predicate IsLower(b: byte) { 97 <= b <= 122 }

  /** ASCII `A`-`Z`. */
  predicate IsUpper(b: byte) { 65 <= b <= 90 }

  /** A byte matched by `\w` in a bytes pattern: `[A-Za-z0-9_]`. */
  predicate IsWordByte(b: byte) { IsDigit(b) || IsLower(b) || IsUpper(b) || b == 95 }
}
