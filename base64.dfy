/** Base64 with the standard alphabet and `=` padding (section 4 of RFC 4648),
    as `base64.b64encode` produces it, and a strict decoder for it. */
module Base64 {
  import opened Wrappers
  import opened Bytes

  /** The character of a 6-bit value: A-Z, a-z, 0-9, '+', '/'. */
  function Char64(i: int): (c: char)
    requires 0 <= i < 64
    ensures c != '=' && c != ':'
  {
    if i < 26 then ('A' as int + i) as char
    else if i < 52 then ('a' as int + i - 26) as char
    else if i < 62 then ('0' as int + i - 52) as char
    else if i == 62 then '+'
    else '/'
  }

  /** The 6-bit value of an alphabet character; `None` for any other character. */
  function Index64(c: char): (r: Option<int>)
    ensures r.Some? ==> 0 <= r.value < 64
  {
    if 'A' <= c <= 'Z' then Some(c as int - 'A' as int)
    else if 'a' <= c <= 'z' then Some(c as int - 'a' as int + 26)
    else if '0' <= c <= '9' then Some(c as int - '0' as int + 52)
    else if c == '+' then Some(62)
    else if c == '/' then Some(63)
    else None
  }

  lemma IndexOfChar(i: int)
    requires 0 <= i < 64
    ensures Index64(Char64(i)) == Some(i)
  {
  }

  predicate InAlphabet(c: char)
  {
    Index64(c).Some? || c == '='
  }

  /** The four characters of a full group of three bytes. */
  function EncodeGroup(b0: byte, b1: byte, b2: byte): string
  {
    var x, y, z := b0 as int, b1 as int, b2 as int;
    [Char64(x / 4), Char64((x % 4) * 16 + y / 16), Char64((y % 16) * 4 + z / 64), Char64(z % 64)]
  }

  /** The four characters of a final group of one byte (`xy==`) or two bytes (`xyz=`). */
  function EncodePadded(b: seq<byte>): string
    requires 1 <= |b| <= 2
  {
    var x := b[0] as int;
    if |b| == 1 then [Char64(x / 4), Char64((x % 4) * 16), '=', '=']
    else
      var y := b[1] as int;
      [Char64(x / 4), Char64((x % 4) * 16 + y / 16), Char64((y % 16) * 4), '=']
  }

  /** `base64.b64encode(b)`: each group of three bytes becomes four characters;
      a final group of one or two bytes is padded with `==` or `=`. */
  function Encode(b: seq<byte>): string
  {
    if |b| == 0 then ""
    else if |b| < 3 then EncodePadded(b)
    else EncodeGroup(b[0], b[1], b[2]) + Encode(b[3..])
  }

  /** The three bytes of a full group of four alphabet characters. */
  function DecodeGroup(c0: char, c1: char, c2: char, c3: char): Option<seq<byte>>
  {
    var i0, i1, i2, i3 := Index64(c0), Index64(c1), Index64(c2), Index64(c3);
    if i0.None? || i1.None? || i2.None? || i3.None? then None
    else
      var v0, v1, v2, v3 := i0.value, i1.value, i2.value, i3.value;
      Some([(v0 * 4 + v1 / 16) as byte, ((v1 % 16) * 16 + v2 / 4) as byte,
            ((v2 % 4) * 64 + v3) as byte])
  }

  /** The bytes of a final group that ends in padding: `xy==` holds one byte, `xyz=` two. */
  function DecodePadded(c0: char, c1: char, c2: char): Option<seq<byte>>
  {
    var i0, i1, i2 := Index64(c0), Index64(c1), Index64(c2);
    if i0.None? || i1.None? then None
    else
      var v0, v1 := i0.value, i1.value;
      if c2 == '=' then Some([(v0 * 4 + v1 / 16) as byte])
      else if i2.None? then None
      else Some([(v0 * 4 + v1 / 16) as byte, ((v1 % 16) * 16 + i2.value / 4) as byte])
  }

  /** The inverse of `Encode`: `None` for a string that is not a padded encoding. */
  function Decode(s: string): Option<seq<byte>>
  {
    if |s| == 0 then Some([])
    else if |s| < 4 then None
    else if |s| == 4 && s[3] == '=' then DecodePadded(s[0], s[1], s[2])
    else
      var head := DecodeGroup(s[0], s[1], s[2], s[3]);
      var tail := Decode(s[4..]);
      if head.None? || tail.None? then None else Some(head.value + tail.value)
  }

  lemma GroupRoundTrip(b0: byte, b1: byte, b2: byte)
    ensures var g := EncodeGroup(b0, b1, b2);
      g[3] != '=' && DecodeGroup(g[0], g[1], g[2], g[3]) == Some([b0, b1, b2])
  {
    var x, y, z := b0 as int, b1 as int, b2 as int;
    var v0, v1, v2, v3 := x / 4, (x % 4) * 16 + y / 16, (y % 16) * 4 + z / 64, z % 64;
    IndexOfChar(v0);
    IndexOfChar(v1);
    IndexOfChar(v2);
    IndexOfChar(v3);
    assert v1 / 16 == x % 4 && v1 % 16 == y / 16;
    assert v2 / 4 == y % 16 && v2 % 4 == z / 64;
  }

  lemma PaddedRoundTrip(b: seq<byte>)
    requires 1 <= |b| <= 2
    ensures var g := EncodePadded(b);
      g[3] == '=' && DecodePadded(g[0], g[1], g[2]) == Some(b)
  {
    var x := b[0] as int;
    IndexOfChar(x / 4);
    if |b| == 1 {
      IndexOfChar((x % 4) * 16);
      assert ((x % 4) * 16) / 16 == x % 4;
      assert b == [x as byte];
    } else {
      var y := b[1] as int;
      var v1, v2 := (x % 4) * 16 + y / 16, (y % 16) * 4;
      IndexOfChar(v1);
      IndexOfChar(v2);
      assert v1 / 16 == x % 4 && v1 % 16 == y / 16 && v2 / 4 == y % 16;
      assert b == [b[0], b[1]];
    }
  }

  /** Decoding an encoding yields the bytes back. */
  lemma {:induction false} RoundTrip(b: seq<byte>)
    ensures Decode(Encode(b)) == Some(b)
  {
    if 1 <= |b| < 3 {
      PaddedRoundTrip(b);
    } else if |b| >= 3 {
      RoundTrip(b[3..]);
      var head := EncodeGroup(b[0], b[1], b[2]);
      GroupLength(b[0], b[1], b[2]);
      GroupRoundTrip(b[0], b[1], b[2]);
      EncodeCons(b);
      DecodeCons(head, Encode(b[3..]));
      SplitThree(b);
    }
  }

  lemma EncodeCons(b: seq<byte>)
    requires |b| >= 3
    ensures Encode(b) == EncodeGroup(b[0], b[1], b[2]) + Encode(b[3..])
  {
  }

  lemma SplitThree<T>(b: seq<T>)
    requires |b| >= 3
    ensures b == [b[0], b[1], b[2]] + b[3..]
  {
  }

  /** A full group followed by a decodable rest decodes group by group. */
  lemma DecodeCons(head: string, rest: string)
    requires |head| == 4 && head[3] != '='
    requires DecodeGroup(head[0], head[1], head[2], head[3]).Some? && Decode(rest).Some?
    ensures Decode(head + rest)
            == Some(DecodeGroup(head[0], head[1], head[2], head[3]).value + Decode(rest).value)
  {
    var s := head + rest;
    assert s[..4] == head && s[4..] == rest;
    assert s[0] == head[0] && s[1] == head[1] && s[2] == head[2] && s[3] == head[3];
  }

  /** The encoding is 4*ceil(n/3) characters long. */
  lemma {:induction false} EncodeLength(b: seq<byte>)
    ensures |Encode(b)| == 4 * ((|b| + 2) / 3)
  {
    if |b| >= 3 {
      EncodeLength(b[3..]);
      GroupLength(b[0], b[1], b[2]);
      EncodeCons(b);
      assert (|b| + 2) / 3 == (|b[3..]| + 2) / 3 + 1;
    } else if |b| > 0 {
      PaddedLength(b);
    }
  }

  lemma GroupLength(b0: byte, b1: byte, b2: byte)
    ensures |EncodeGroup(b0, b1, b2)| == 4
  {
  }

  lemma PaddedLength(b: seq<byte>)
    requires 1 <= |b| <= 2
    ensures |EncodePadded(b)| == 4
  {
  }

  /** Every character of an encoding is in the alphabet or is the padding `=`;
      in particular none is `:`. */
  lemma {:induction false} EncodeAlphabet(b: seq<byte>)
    ensures forall i :: 0 <= i < |Encode(b)| ==> InAlphabet(Encode(b)[i])
    ensures ':' !in Encode(b)
  {
    if |b| >= 3 {
      EncodeAlphabet(b[3..]);
      EncodeCons(b);
    }
  }
}
