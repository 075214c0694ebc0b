/** Bytes as numbers, and hexadecimal digits: shared by the text parsers. */
module Bytes {

  type Byte = x: int | 0 <= x < 256
  type Text = seq<Byte>

  /** The value of a hexadecimal digit, or -1. */
  function HexOf(c: Byte): int {
    if 0x30 <= c <= 0x39 then c - 0x30
    else if 0x41 <= c <= 0x46 then 10 + (c - 0x41)
    else if 0x61 <= c <= 0x66 then 10 + (c - 0x61)
    else -1
  }

  /** The bytes of a text of ASCII characters. */
  function Ascii(s: string): (t: Text)
    requires forall i :: 0 <= i < |s| ==> s[i] < 128 as char
    ensures |t| == |s| && forall i :: 0 <= i < |s| ==> t[i] == s[i] as int
  {
    seq(|s|, i requires 0 <= i < |s| => s[i] as int)
  }

  /** The hexadecimal digits, in either case. */
  lemma HexOfIs(n: nat)
    requires n < 16
    ensures HexOf("0123456789abcdef"[n] as int) == n && HexOf("0123456789ABCDEF"[n] as int) == n
  {}

  lemma HexOfOnly(c: Byte)
    ensures HexOf(c) < 16
    ensures HexOf(c) >= 0 ==>
        c == "0123456789abcdef"[HexOf(c)] as int || c == "0123456789ABCDEF"[HexOf(c)] as int
  {}

  function Repeat(c: Byte, n: nat): (s: Text)
    ensures |s| == n && forall i :: 0 <= i < n ==> s[i] == c
  {
    if n == 0 then [] else [c] + Repeat(c, n - 1)
  }
}
