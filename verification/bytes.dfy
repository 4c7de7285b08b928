/** Bytes as they travel over the serial link, and the ASCII text carried in them. */
module Bytes {

  /** An 8-bit value: a UART character, a pixel, a frame field. */
  type byte = bv8

  predicate IsAscii(s: string) {
    forall i :: 0 <= i < |s| ==> s[i] as int < 128
  }

  /**
    The bytes a string is sent as: each character's code, which for the
    ASCII text used here is what C's `char` and Python's `str.encode()` give.
  */
  function TextBytes(s: string): (r: seq<byte>)
    ensures |r| == |s|
  {
    seq(|s|, i requires 0 <= i < |s| => CharByte(s[i]))
  }

  /** The low eight bits of a character's code. */
  function CharByte(c: char): (b: byte)
    ensures b as int == c as int % 256
  {
    ToByte(c as int % 256)
  }

  /** A number 0 to 255 as a byte. */
  function ToByte(n: int): (b: byte)
    requires 0 <= n < 256
    ensures b as int == n
  {
    n as byte
  }

  /** The character `bytes.decode("ascii", errors="replace")` puts in place of a byte of 128 or more. */
  const REPLACEMENT: char := '\U{FFFD}'

  /**
    `bytes.decode("ascii", errors="replace")`: one character per byte, the
    byte's own code below 128 and U+FFFD for every other byte.
  */
  function AsciiDecode(b: seq<byte>): (s: string)
    ensures |s| == |b|
    ensures forall i :: 0 <= i < |b| && b[i] < 128 ==> s[i] as int == b[i] as int
    ensures forall i :: 0 <= i < |b| && b[i] >= 128 ==> s[i] == REPLACEMENT
  {
    seq(|b|, i requires 0 <= i < |b| => if b[i] < 128 then (b[i] as int) as char else REPLACEMENT)
  }

  /** Decoding undoes encoding on ASCII text. */
  lemma DecodeEncode(s: string)
    requires IsAscii(s)
    ensures AsciiDecode(TextBytes(s)) == s
  {
    var t := AsciiDecode(TextBytes(s));
    forall i | 0 <= i < |s|
      ensures t[i] == s[i]
    {
      assert TextBytes(s)[i] == CharByte(s[i]);
    }
  }

  /** Decoding works byte by byte, so it commutes with taking a prefix. */
  lemma DecodePrefix(b: seq<byte>, n: nat)
    requires n <= |b|
    ensures AsciiDecode(b)[..n] == AsciiDecode(b[..n])
  {
  }
}
