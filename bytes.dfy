/** Raw bytes as the handler sees them (Rust `u8`), and ASCII literals as bytes. */
module Bytes {

  /** Rust's `u8`: also the width of the relay's `leading_zeros` counter. */
  newtype u8 = x: int | 0 <= x < 0x100

  /** Rust's `u32`. */
  newtype u32 = x: int | 0 <= x < 0x1_0000_0000

  const SPACE: u8 := 0x20    // b' '
  const NEWLINE: u8 := 0x0A  // b'\n'
  const ZERO: u8 := 0x30     // b'0'

  predicate IsAscii(s: string) {
    forall i :: 0 <= i < |s| ==> s[i] as int < 0x80
  }

  /** The bytes of an ASCII string literal (its UTF-8 encoding). */
  function Ascii(s: string): (r: seq<u8>)
    requires IsAscii(s)
    ensures |r| == |s|
    ensures forall i :: 0 <= i < |s| ==> r[i] as int == s[i] as int
  {
    seq(|s|, i requires 0 <= i < |s| => s[i] as int as u8)
  }
}
