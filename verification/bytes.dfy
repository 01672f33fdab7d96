/** Bytes, ASCII literals, C strings and 32-bit tick arithmetic shared by every
    serial example. */
module Bytes {

  /** One octet on the wire (`uint8_t` in the firmware). */
  type byte = bv8

  const NUL: byte := 0
  const LF: byte := 10
  const CR: byte := 13
  /** The line ending every print and transmit in the examples appends. */
  const CRLF: seq<byte> := [CR, LF]

  /** The bytes of an ASCII string literal. */
  function Ascii(s: string): (r: seq<byte>)
    ensures |r| == |s|
  {
    seq(|s|, i requires 0 <= i < |s| => (s[i] as int % 256) as byte)
  }

  /** Every character is printable ASCII (space to tilde). */
  predicate Printable(s: string)
    decreases |s|
  {
    |s| == 0 || (32 <= s[0] as int < 127 && Printable(s[1..]))
  }

  /** A printable literal encodes to bytes that are neither NUL, CR nor LF. */
  lemma {:induction false} PrintableHasNoControl(s: string)
    requires Printable(s)
    ensures forall i :: 0 <= i < |s| ==> Ascii(s)[i] != NUL && Ascii(s)[i] != CR && Ascii(s)[i] != LF
    decreases |s|
  {
    if |s| > 0 {
      PrintableHasNoControl(s[1..]);
      forall i | 1 <= i < |s|
        ensures Ascii(s)[i] == Ascii(s[1..])[i - 1]
      {
      }
    }
  }

  /** The C string a null-terminated buffer denotes: the bytes before the
      first NUL (all of them when there is none). This is what `strcmp`,
      `strlen` and `println` see of a line buffer. */
  function CString(s: seq<byte>): (r: seq<byte>)
    ensures |r| <= |s| && r == s[..|r|]
    ensures NUL !in r
    ensures |r| < |s| ==> s[|r|] == NUL
  {
    if |s| == 0 || s[0] == NUL then [] else [s[0]] + CString(s[1..])
  }

  /** A line that holds no NUL is its own C string. */
  lemma {:induction false} CStringOfNulFree(s: seq<byte>)
    requires NUL !in s
    ensures CString(s) == s
  {
    if |s| > 0 {
      assert NUL !in s[1..];
      CStringOfNulFree(s[1..]);
    }
  }

  /** 2^32: the period of `uint32_t` and of the 32-bit `unsigned long`. */
  const U32: int := 0x1_0000_0000

  type u32 = x: int | 0 <= x < U32

  /** `a - b` on unsigned 32-bit operands, wrapping modulo 2^32 as C does. */
  function Sub32(a: u32, b: u32): (d: u32)
    ensures a >= b ==> d == a - b
    ensures a < b ==> d == a - b + U32
  {
    (a - b) % U32
  }

  /** The wrapping subtraction measures the true elapsed time across a
      counter overflow, as long as less than one full period has passed. */
  lemma ElapsedAcrossWrap(last: u32, elapsed: nat)
    requires elapsed < U32
    ensures Sub32(((last + elapsed) % U32) as u32, last) == elapsed
  {
  }
}
