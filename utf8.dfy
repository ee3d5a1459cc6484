/** UTF-8 encoding of strings (`str.encode()`), with a decoder proving it injective. */
module Utf8 {
  import opened Wrappers
  import opened Bytes

  /** The UTF-8 bytes of one Unicode scalar value. */
  function EncodeChar(c: char): (r: seq<byte>)
    ensures 1 <= |r| <= 4
  {
    var n := c as int;
    if n < 0x80 then [n as byte]
    else if n < 0x800 then [(0xC0 + n / 64) as byte, (0x80 + n % 64) as byte]
    else if n < 0x1_0000 then
      [(0xE0 + n / 64 / 64) as byte, (0x80 + n / 64 % 64) as byte, (0x80 + n % 64) as byte]
    else
      [(0xF0 + n / 64 / 64 / 64) as byte, (0x80 + n / 64 / 64 % 64) as byte,
       (0x80 + n / 64 % 64) as byte, (0x80 + n % 64) as byte]
  }

  /** `s.encode()`: the concatenated encodings of its characters. */
  function Encode(s: string): seq<byte>
  {
    if |s| == 0 then [] else EncodeChar(s[0]) + Encode(s[1..])
  }

  /** The number of bytes a sequence starting with lead byte `b` spends on its first character. */
  function SequenceLength(b: byte): nat
  {
    if b < 0x80 then 1 else if b < 0xE0 then 2 else if b < 0xF0 then 3 else 4
  }

  function Continuation(b: byte): int
  {
    b as int - 0x80
  }

  function ToChar(n: int): Option<char>
  {
    if 0 <= n < 0xD800 || 0xE000 <= n < 0x11_0000 then Some(n as char) else None
  }

  /** The first character of `b` and the number of bytes it occupied. */
  function DecodeChar(b: seq<byte>): (r: Option<(char, nat)>)
    requires |b| > 0
    ensures r.Some? ==> 1 <= r.value.1 <= |b|
  {
    var len := SequenceLength(b[0]);
    if |b| < len then None
    else
      var n :=
        if len == 1 then b[0] as int
        else if len == 2 then (b[0] as int - 0xC0) * 64 + Continuation(b[1])
        else if len == 3 then (b[0] as int - 0xE0) * 4096 + Continuation(b[1]) * 64 + Continuation(b[2])
        else (b[0] as int - 0xF0) * 262144 + Continuation(b[1]) * 4096
             + Continuation(b[2]) * 64 + Continuation(b[3]);
      match ToChar(n)
      case None => None
      case Some(c) => Some((c, len))
  }

  function Decode(b: seq<byte>): Option<string>
    decreases |b|
  {
    if |b| == 0 then Some("")
    else match DecodeChar(b)
      case None => None
      case Some((c, len)) =>
        match Decode(b[len..])
        case None => None
        case Some(s) => Some([c] + s)
  }

  lemma EncodeCharRoundTrip(c: char, rest: seq<byte>)
    ensures DecodeChar(EncodeChar(c) + rest) == Some((c, |EncodeChar(c)|))
  {
    var n := c as int;
    if n < 0x80 {
    } else if n < 0x800 {
      TwoBytes(c, rest);
    } else if n < 0x1_0000 {
      ThreeBytes(c, rest);
    } else {
      FourBytes(c, rest);
    }
  }

  lemma TwoBytes(c: char, rest: seq<byte>)
    requires 0x80 <= c as int < 0x800
    ensures DecodeChar(EncodeChar(c) + rest) == Some((c, 2))
  {
    var n := c as int;
    var b := EncodeChar(c) + rest;
    assert b[0] as int == 0xC0 + n / 64 && b[1] as int == 0x80 + n % 64;
    assert SequenceLength(b[0]) == 2;
    assert (b[0] as int - 0xC0) * 64 + Continuation(b[1]) == n;
  }

  lemma ThreeBytes(c: char, rest: seq<byte>)
    requires 0x800 <= c as int < 0x1_0000
    ensures DecodeChar(EncodeChar(c) + rest) == Some((c, 3))
  {
    var n := c as int;
    var b := EncodeChar(c) + rest;
    var q := n / 64;
    var hi, mid, lo := q / 64, q % 64, n % 64;
    assert n == q * 64 + lo && q == hi * 64 + mid;
    assert b[0] as int == 0xE0 + hi && b[1] as int == 0x80 + mid && b[2] as int == 0x80 + lo;
    assert SequenceLength(b[0]) == 3;
    assert (b[0] as int - 0xE0) * 4096 + Continuation(b[1]) * 64 + Continuation(b[2]) == n;
  }

  lemma FourBytes(c: char, rest: seq<byte>)
    requires 0x1_0000 <= c as int
    ensures DecodeChar(EncodeChar(c) + rest) == Some((c, 4))
  {
    var n := c as int;
    var b := EncodeChar(c) + rest;
    var q := n / 64;
    var q2 := q / 64;
    var top, hi, mid, lo := q2 / 64, q2 % 64, q % 64, n % 64;
    assert n == q * 64 + lo && q == q2 * 64 + mid && q2 == top * 64 + hi;
    assert b[0] as int == 0xF0 + top && b[1] as int == 0x80 + hi;
    assert b[2] as int == 0x80 + mid && b[3] as int == 0x80 + lo;
    assert SequenceLength(b[0]) == 4;
    assert (b[0] as int - 0xF0) * 262144 + Continuation(b[1]) * 4096
           + Continuation(b[2]) * 64 + Continuation(b[3]) == n;
  }

  /** Decoding an encoding yields the string back. */
  lemma {:induction false} RoundTrip(s: string)
    ensures Decode(Encode(s)) == Some(s)
  {
    if |s| > 0 {
      var e := EncodeChar(s[0]);
      EncodeCharRoundTrip(s[0], Encode(s[1..]));
      assert (e + Encode(s[1..]))[|e|..] == Encode(s[1..]);
      RoundTrip(s[1..]);
      assert s == [s[0]] + s[1..];
    }
  }
}
