/** `base64.urlsafe_b64decode`, which decodes message bodies, and the encoder
    that produced them: the URL- and filename-safe alphabet of section 5 of
    RFC 4648. The decoder first requires the text to be ASCII, then maps '-' to
    '+' and '_' to '/', and then runs CPython's `binascii.a2b_base64` in its
    default, non-strict, mode: characters outside the alphabet are skipped,
    an '=' ends the data once it completes a quantum, every data character
    forgets the '=' counted before it, and a quantum left incomplete at the
    end of the input is an error. */
module Base64Url {
  import opened Wrappers
  import opened Text

  /** The 6-bit value of a character after the translation; `None` for a
      character the decoder skips. */
  function Sextet(c: char): (r: Option<int>)
    ensures r.Some? ==> 0 <= r.value < 64
  {
    if 'A' <= c <= 'Z' then Some(c as int - 'A' as int)
    else if 'a' <= c <= 'z' then Some(c as int - 'a' as int + 26)
    else if '0' <= c <= '9' then Some(c as int - '0' as int + 52)
    else if c == '+' || c == '-' then Some(62)
    else if c == '/' || c == '_' then Some(63)
    else None
  }

  /** The decoder's state between characters: how many characters of the
      current 4-character quantum have been read, the bits of the last one
      not yet written out, and how many '=' have been counted since the last
      data character. */
  datatype Quantum = Quantum(pos: int, left: int, pads: nat) {
    predicate Valid() {
      && 0 <= pos < 4
      && (pos == 0 ==> left == 0)
      && (pos == 1 ==> 0 <= left < 64)
      && (pos == 2 ==> 0 <= left < 16)
      && (pos == 3 ==> 0 <= left < 4)
    }
  }

  const START := Quantum(0, 0, 0)

  /** `binascii.a2b_base64(s, strict_mode=False)` continued from state `q`
      with `out` already written; `None` when it raises `binascii.Error`. */
  function A2b(s: string, q: Quantum, out: seq<Byte>): Option<seq<Byte>>
    requires q.Valid()
    decreases |s|
  {
    if s == [] then
      if q.pos == 0 then Some(out) else None
    else if s[0] == '=' then
      if q.pos >= 2 && q.pos + q.pads + 1 >= 4 then Some(out)
      else A2b(s[1..], if q.pos >= 2 then q.(pads := q.pads + 1) else q, out)
    else
      match Sextet(s[0])
      case None => A2b(s[1..], q, out)
      case Some(v) =>
        if q.pos == 0 then A2b(s[1..], Quantum(1, v, 0), out)
        else if q.pos == 1 then A2b(s[1..], Quantum(2, v % 16, 0), out + [q.left * 4 + v / 16])
        else if q.pos == 2 then A2b(s[1..], Quantum(3, v % 4, 0), out + [q.left * 16 + v / 4])
        else A2b(s[1..], Quantum(0, 0, 0), out + [q.left * 64 + v])
  }

  /** `base64.urlsafe_b64decode(s)`; `None` when it raises. */
  function Decode(s: string): Option<seq<Byte>> {
    if IsAscii(s) then A2b(s, START, []) else None
  }

  /** The character of the URL-safe alphabet for a 6-bit value. */
  function SextetChar(v: int): (c: char)
    requires 0 <= v < 64
    ensures Sextet(c) == Some(v) && c != '='
  {
    if v < 26 then ('A' as int + v) as char
    else if v < 52 then ('a' as int + v - 26) as char
    else if v < 62 then ('0' as int + v - 52) as char
    else if v == 62 then '-'
    else '_'
  }

  /** The four characters of a complete 3-byte group. */
  function Group(x: Byte, y: Byte, z: Byte): string {
    [SextetChar(x / 4), SextetChar(x % 4 * 16 + y / 16), SextetChar(y % 16 * 4 + z / 64), SextetChar(z % 64)]
  }

  /** `base64.urlsafe_b64encode(b).decode()`, with '=' padding. */
  function Encode(b: seq<Byte>): (s: string)
    ensures |s| % 4 == 0
    decreases |b|
  {
    if |b| >= 3 then Group(b[0], b[1], b[2]) + Encode(b[3..])
    else if |b| == 2 then Pair(b[0], b[1])
    else if |b| == 1 then Single(b[0])
    else []
  }

  /** The last group of an input whose length leaves two bytes over. */
  function Pair(x: Byte, y: Byte): string {
    [SextetChar(x / 4), SextetChar(x % 4 * 16 + y / 16), SextetChar(y % 16 * 4), '=']
  }

  /** The last group of an input whose length leaves one byte over. */
  function Single(x: Byte): string {
    [SextetChar(x / 4), SextetChar(x % 4 * 16), '=', '=']
  }

  lemma {:induction false} EncodeIsAscii(b: seq<Byte>)
    ensures IsAscii(Encode(b))
    decreases |b|
  {
    if |b| >= 3 {
      EncodeIsAscii(b[3..]);
      var g, rest := Group(b[0], b[1], b[2]), Encode(b[3..]);
      assert forall i :: 0 <= i < |g + rest| ==> (g + rest)[i] == if i < 4 then g[i] else rest[i - 4];
    }
  }

  /** Decoding one complete group writes its three bytes and returns to the
      start of a quantum. */
  lemma DecodeGroup(x: Byte, y: Byte, z: Byte, rest: string, out: seq<Byte>)
    ensures A2b(Group(x, y, z) + rest, START, out) == A2b(rest, START, out + [x, y, z])
  {
    var g := Group(x, y, z);
    var s := g + rest;
    var v1, v2 := x % 4 * 16 + y / 16, y % 16 * 4 + z / 64;
    assert s[0] == g[0] && s[1..] == g[1..] + rest;
    assert (g[1..] + rest)[0] == g[1] && (g[1..] + rest)[1..] == g[2..] + rest;
    assert (g[2..] + rest)[0] == g[2] && (g[2..] + rest)[1..] == g[3..] + rest;
    assert (g[3..] + rest)[0] == g[3] && (g[3..] + rest)[1..] == rest;
    assert x / 4 * 4 + v1 / 16 == x && v1 % 16 == y / 16;
    assert y / 16 * 16 + v2 / 4 == y && v2 % 4 == z / 64;
    assert z / 64 * 64 + z % 64 == z;
    assert out + [x] + [y] == out + [x, y] && out + [x, y] + [z] == out + [x, y, z];
    assert A2b(s, START, out) == A2b(g[1..] + rest, Quantum(1, x / 4, 0), out);
    assert A2b(g[1..] + rest, Quantum(1, x / 4, 0), out) == A2b(g[2..] + rest, Quantum(2, y / 16, 0), out + [x]);
    assert A2b(g[2..] + rest, Quantum(2, y / 16, 0), out + [x]) == A2b(g[3..] + rest, Quantum(3, z / 64, 0), out + [x, y]);
  }

  /** A final group of two bytes: three characters and one '='. */
  lemma DecodeTwoByteTail(x: Byte, y: Byte, out: seq<Byte>)
    ensures A2b(Encode([x, y]), START, out) == Some(out + [x, y])
  {
    var s := Encode([x, y]);
    var v1, v2 := x % 4 * 16 + y / 16, y % 16 * 4;
    assert x / 4 * 4 + v1 / 16 == x && v1 % 16 == y / 16;
    assert y / 16 * 16 + v2 / 4 == y && v2 % 4 == 0;
    assert s[1..][1..][1..] == ['='];
    assert A2b(s, START, out) == A2b(s[1..], Quantum(1, x / 4, 0), out);
    assert A2b(s[1..], Quantum(1, x / 4, 0), out) == A2b(s[1..][1..], Quantum(2, y / 16, 0), out + [x]);
    assert A2b(s[1..][1..], Quantum(2, y / 16, 0), out + [x]) == A2b(['='], Quantum(3, 0, 0), out + [x] + [y]);
    assert out + [x] + [y] == out + [x, y];
  }

  /** A final group of one byte: two characters and two '='. */
  lemma DecodeOneByteTail(x: Byte, out: seq<Byte>)
    ensures A2b(Encode([x]), START, out) == Some(out + [x])
  {
    var s := Encode([x]);
    var v1 := x % 4 * 16;
    assert x / 4 * 4 + v1 / 16 == x && v1 % 16 == 0;
    assert s[1..][1..] == ['=', '='] && ['=', '='][1..] == ['='];
    assert A2b(s, START, out) == A2b(s[1..], Quantum(1, x / 4, 0), out);
    assert A2b(s[1..], Quantum(1, x / 4, 0), out) == A2b(['=', '='], Quantum(2, 0, 0), out + [x]);
    assert A2b(['=', '='], Quantum(2, 0, 0), out + [x]) == A2b(['='], Quantum(2, 0, 1), out + [x]);
  }

  /** Decoding the encoding of `b` after `out` writes exactly `b`. */
  lemma {:induction false} DecodeEncoded(b: seq<Byte>, out: seq<Byte>)
    ensures A2b(Encode(b), START, out) == Some(out + b)
    decreases |b|
  {
    if |b| >= 3 {
      DecodeGroup(b[0], b[1], b[2], Encode(b[3..]), out);
      DecodeEncoded(b[3..], out + [b[0], b[1], b[2]]);
      assert out + [b[0], b[1], b[2]] + b[3..] == out + b;
    } else if |b| == 2 {
      assert b == [b[0], b[1]];
      DecodeTwoByteTail(b[0], b[1], out);
    } else if |b| == 1 {
      assert b == [b[0]];
      DecodeOneByteTail(b[0], out);
    } else {
      assert out + b == out;
    }
  }

  /** Round trip: `urlsafe_b64decode(urlsafe_b64encode(b)) == b`. */
  lemma DecodeEncode(b: seq<Byte>)
    ensures Decode(Encode(b)) == Some(b)
  {
    EncodeIsAscii(b);
    DecodeEncoded(b, []);
    assert [] + b == b;
  }

  /** An '=' that does not complete a quantum is forgotten by the data
      character after it: decoding goes on as if the '=' were absent, so that
      'ab=cdef=gh' decodes as 'abcdefgh' does. */
  lemma PadBeforeDataForgotten(q: Quantum, c: char, rest: string, out: seq<Byte>)
    requires q.Valid() && Sextet(c).Some?
    requires q.pos < 2 || q.pos + q.pads + 1 < 4
    ensures A2b(['=', c] + rest, q, out) == A2b([c] + rest, q, out)
  {
    var s := ['=', c] + rest;
    assert s[0] == '=' && s[1..] == [c] + rest;
    var q' := if q.pos >= 2 then q.(pads := q.pads + 1) else q;
    assert A2b(s, q, out) == A2b([c] + rest, q', out);
    assert ([c] + rest)[0] == c && ([c] + rest)[1..] == rest;
  }

  /** Text outside ASCII is refused before any decoding. */
  lemma NonAsciiRefused(s: string, i: nat)
    requires i < |s| && s[i] as int >= 128
    ensures Decode(s).None?
  {
  }
}
