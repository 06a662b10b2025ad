/** `bytes.decode('utf-8', errors='ignore')`, which turns a decoded message
    body into text. At each position a well-formed UTF-8 sequence (Table 3-7 of
    the Unicode Standard) becomes its character; any other byte is dropped and
    decoding resumes at the next byte. CPython drops the whole maximal ill-formed
    subpart at once, but that subpart is a lead byte followed only by
    continuation bytes, and continuation bytes never start a well-formed
    sequence, so dropping them one at a time gives the same text. */
module Utf8 {
  import opened Text

  predicate InRange(b: Byte, lo: int, hi: int) {
    lo <= b <= hi
  }

  /** The length of the well-formed sequence at the start of `b`, or 0 when
      none starts there. */
  function SequenceLength(b: seq<Byte>): (n: nat)
    requires |b| > 0
    ensures n <= 4 && n <= |b|
  {
    var b0 := b[0];
    if b0 < 0x80 then 1
    else if 0xC2 <= b0 <= 0xDF then
      if |b| >= 2 && InRange(b[1], 0x80, 0xBF) then 2 else 0
    else if 0xE0 <= b0 <= 0xEF then
      var lo := if b0 == 0xE0 then 0xA0 else 0x80;
      var hi := if b0 == 0xED then 0x9F else 0xBF;
      if |b| >= 3 && InRange(b[1], lo, hi) && InRange(b[2], 0x80, 0xBF) then 3 else 0
    else if 0xF0 <= b0 <= 0xF4 then
      var lo := if b0 == 0xF0 then 0x90 else 0x80;
      var hi := if b0 == 0xF4 then 0x8F else 0xBF;
      if |b| >= 4 && InRange(b[1], lo, hi) && InRange(b[2], 0x80, 0xBF) && InRange(b[3], 0x80, 0xBF) then 4
      else 0
    else 0
  }

  /** The code point a well-formed sequence of length `n` encodes; it is a
      Unicode scalar value, so it is a character. */
  function CodePoint(b: seq<Byte>, n: nat): (cp: int)
    requires |b| > 0 && n == SequenceLength(b) && n > 0
    ensures 0 <= cp < 0xD800 || 0xE000 <= cp < 0x11_0000
    ensures n == 1 <==> cp < 0x80
  {
    var b0: int := b[0];
    if n == 1 then b0
    else
      var b1: int := b[1];
      if n == 2 then (b0 - 0xC0) * 64 + (b1 - 0x80)
      else
        var b2: int := b[2];
        if n == 3 then (b0 - 0xE0) * 4096 + (b1 - 0x80) * 64 + (b2 - 0x80)
        else
          var b3: int := b[3];
          (b0 - 0xF0) * 262144 + (b1 - 0x80) * 4096 + (b2 - 0x80) * 64 + (b3 - 0x80)
  }

  /** `bytes(b).decode('utf-8', errors='ignore')`. */
  function DecodeIgnore(b: seq<Byte>): string
    decreases |b|
  {
    if b == [] then ""
    else
      var n := SequenceLength(b);
      if n == 0 then DecodeIgnore(b[1..])
      else [CodePoint(b, n) as char] + DecodeIgnore(b[n..])
  }

  /** ASCII text survives encoding and decoding unchanged. */
  lemma {:induction false} DecodeAscii(s: string)
    requires IsAscii(s)
    ensures DecodeIgnore(AsciiBytes(s)) == s
  {
    if s != [] {
      var b := AsciiBytes(s);
      assert b[1..] == AsciiBytes(s[1..]);
      DecodeAscii(s[1..]);
      assert s == [s[0]] + s[1..];
    }
  }
}
