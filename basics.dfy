/** Byte strings and the small helpers every other module shares.

    Go strings are immutable byte sequences, and everything this service
    signs, compares or checks is such a string, so text is modelled as a
    sequence of bytes throughout. String literals of the source are written
    `Ascii("...")`. */
module Basics {

  datatype Option<+T> = None | Some(value: T)

  type Byte = b: int | 0 <= b < 256

  type Bytes = seq<Byte>

  const NewLine: Byte := 10
  const CarriageReturn: Byte := 13

  predicate IsAscii(s: string) {
    forall i :: 0 <= i < |s| ==> s[i] as int < 128
  }

  /** The bytes of an ASCII string literal. */
  function Ascii(s: string): Bytes
    requires IsAscii(s)
  {
    seq(|s|, i requires 0 <= i < |s| => s[i] as int)
  }

  predicate IsUpper(b: Byte) {
    65 <= b <= 90
  }

  /** ASCII case folding of one byte: 'A'..'Z' become 'a'..'z', every other byte is kept. */
  function LowerByte(b: Byte): Byte {
    if IsUpper(b) then b + 32 else b
  }

  /** ASCII lower-casing of a whole string, byte by byte. */
  function Lower(s: Bytes): (r: Bytes)
    ensures |r| == |s|
    ensures forall i :: 0 <= i < |s| ==> !IsUpper(r[i])
  {
    seq(|s|, i requires 0 <= i < |s| => LowerByte(s[i]))
  }

  /** Two strings that differ only in the case of ASCII letters. */
  predicate EqualIgnoringCase(a: Bytes, b: Bytes) {
    |a| == |b| && forall i :: 0 <= i < |a| ==> LowerByte(a[i]) == LowerByte(b[i])
  }
}
