/** Shared vocabulary: bytes as they arrive from the serial channel, an
    optional value for the library calls that may fail or find nothing, and
    the conversion between a byte vector and the text of a line. */
module Base {

  /** One `uchar` of the receive buffer. */
  newtype byte = b: int | 0 <= b < 256

  datatype Option<+T> = None | Some(value: T)

  /** The text of a line: building a `std::string` from a range of `uchar`
      keeps every byte, one character per byte. */
  function Text(bytes: seq<byte>): (s: string)
    ensures |s| == |bytes|
    ensures forall i :: 0 <= i < |bytes| ==> s[i] as int == bytes[i] as int
  {
    seq(|bytes|, i requires 0 <= i < |bytes| => bytes[i] as char)
  }

  /** A character that fits in one byte. */
  predicate IsByteChar(c: char) {
    c as int < 256
  }

  /** The bytes that carry a text made of one-byte characters: the inverse
      of `Text`. */
  function Latin1(s: string): (bytes: seq<byte>)
    requires forall i :: 0 <= i < |s| ==> IsByteChar(s[i])
    ensures |bytes| == |s|
    ensures Text(bytes) == s
  {
    seq(|s|, i requires 0 <= i < |s| && IsByteChar(s[i]) => s[i] as int as byte)
  }
}
