// Byte strings.
module Bytes {
  type Byte = b: int | 0 <= b < 256 witness 0
  type bytes = seq<Byte>

  // The bytes of an ASCII text.
  function Ascii(s: string): (b: bytes)
    ensures |b| == |s|
    ensures forall i :: 0 <= i < |s| ==> b[i] == s[i] as int % 256
  {
    seq(|s|, i requires 0 <= i < |s| => s[i] as int % 256)
  }

  function AsText(b: bytes): (s: string)
    ensures |s| == |b|
    ensures forall i :: 0 <= i < |s| ==> s[i] == b[i] as char
  {
    seq(|b|, i requires 0 <= i < |b| => b[i] as char)
  }

  lemma AsciiIsAsText(s: string)
    requires forall i :: 0 <= i < |s| ==> s[i] < 128 as char
    ensures AsText(Ascii(s)) == s
  {
  }
}
