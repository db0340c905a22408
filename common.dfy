/** Shared vocabulary of the bucket-on-SQL storage layer: bytes, errors and
    the result wrappers every component returns. */
module Common {

  newtype byte = x: int | 0 <= x < 256

  type Bytes = seq<byte>

  /** 2^64: CompactSize can carry any length below it. */
  const TwoTo64: nat := 0x1_0000_0000_0000_0000

  /** A byte string whose length a CompactSize prefix can express (every Go
      slice qualifies, since a slice length is a signed 64-bit int). */
  type Segment = s: Bytes | |s| < TwoTo64

  /** The error kinds the layer reports. The first three are the wire
      decoder's (end of input, non-canonical varint, element over the
      allowed size); the rest are the storage layer's own. */
  datatype Error =
    | Truncated
    | NonCanonical
    | TooLong
    | NotFound
    | AlreadyExists
    | StorageError
    | AlreadyEnded
    // the error a caller's `fn` returns to stop a `ForEach` scan
    | Callback(code: nat)

  datatype Option<+T> = None | Some(value: T)

  datatype Result<+T> = Ok(value: T) | Err(error: Error)

  /** A Go `er.R` return: nil (`Pass`) or an error. */
  datatype Outcome = Pass | Fail(error: Error)

  predicate IsDigit(c: byte) { '0' as byte <= c <= '9' as byte }

  /** ASCII digits and letters, the bytes both table-name escapes keep. */
  predicate IsAlnum(c: byte)
  {
    IsDigit(c) || 'A' as byte <= c <= 'Z' as byte || 'a' as byte <= c <= 'z' as byte
  }

  predicate IsAlnumChar(ch: char)
  {
    '0' <= ch <= '9' || 'A' <= ch <= 'Z' || 'a' <= ch <= 'z'
  }

  /** The character of an ASCII byte. */
  function ToChar(c: byte): (ch: char)
    ensures ch as int == c as int
  {
    (c as int) as char
  }

  /** Lower-case hexadecimal digit, as Go's `%x` and `hex.EncodeToString` print. */
  function HexDigit(d: nat): (ch: char)
    requires d < 16
    ensures ('0' <= ch <= '9') || ('a' <= ch <= 'f')
    ensures HexValue(ch) == d
  {
    if d < 10 then ('0' as int + d) as char else ('a' as int + d - 10) as char
  }

  /** The two lower-case hexadecimal digits of a byte, as `hex.EncodeToString` prints it. */
  function HexByte(c: byte): (r: string)
    ensures |r| == 2 && IsHexDigit(r[0]) && IsHexDigit(r[1])
    ensures 16 * HexValue(r[0]) + HexValue(r[1]) == c as int
  {
    [HexDigit(c as int / 16), HexDigit(c as int % 16)]
  }

  predicate IsHexDigit(ch: char) { '0' <= ch <= '9' || 'a' <= ch <= 'f' }

  /** The value of a lower-case hexadecimal digit. */
  function HexValue(ch: char): nat
  {
    if '0' <= ch <= '9' then ch as int - '0' as int
    else if 'a' <= ch <= 'f' then ch as int - 'a' as int + 10
    else 0
  }
}
