/**
 * Base64 as section 4 of RFC 4648 defines it (the standard alphabet, with '='
 * padding and no line breaks), which is what `java.util.Base64.getEncoder()`
 * produces. The decoder is the partner that shows the encoding loses nothing.
 */
module Base64 {
  import opened Results
  import opened Bytes

  /** The character for a 6-bit value: A-Z, a-z, 0-9, '+', '/'. */
  function Char64(i: nat): (c: char)
    requires i < 64
  {
    if i < 26 then (65 + i) as char
    else if i < 52 then (97 + i - 26) as char
    else if i < 62 then (48 + i - 52) as char
    else if i == 62 then '+'
    else '/'
  }

  predicate IsChar64(c: char)
  {
    'A' <= c <= 'Z' || 'a' <= c <= 'z' || '0' <= c <= '9' || c == '+' || c == '/'
  }

  /** The 6-bit value of an alphabet character. */
  function Index64(c: char): (i: nat)
    requires IsChar64(c)
    ensures i < 64 && Char64(i) == c
  {
    if 'A' <= c <= 'Z' then c as int - 65
    else if 'a' <= c <= 'z' then c as int - 97 + 26
    else if '0' <= c <= '9' then c as int - 48 + 52
    else if c == '+' then 62
    else 63
  }

  lemma Index64OfChar64(i: nat)
    requires i < 64
    ensures IsChar64(Char64(i)) && Index64(Char64(i)) == i
  {
  }

  /** Three bytes as four characters of six bits each. */
  function EncodeThree(b0: Byte, b1: Byte, b2: Byte): (e: string)
    ensures |e| == 4
  {
    var i1 := b0 % 4 * 16 + b1 / 16;
    var i2 := b1 % 16 * 4 + b2 / 64;
    [Char64(b0 / 4), Char64(i1), Char64(i2), Char64(b2 % 64)]
  }

  /** A final two bytes: three characters and one '='. */
  function EncodeTwo(b0: Byte, b1: Byte): (e: string)
    ensures |e| == 4
  {
    var i1 := b0 % 4 * 16 + b1 / 16;
    [Char64(b0 / 4), Char64(i1), Char64(b1 % 16 * 4), '=']
  }

  /** A final byte: two characters and two '='. */
  function EncodeOne(b0: Byte): (e: string)
    ensures |e| == 4
  {
    [Char64(b0 / 4), Char64(b0 % 4 * 16), '=', '=']
  }

  /**
   * The encoding of `s`: every three bytes become four alphabet characters; a
   * final one or two bytes become two or three characters padded with '='.
   */
  function Encode(s: seq<Byte>): (e: string)
    ensures |e| == (|s| + 2) / 3 * 4
    decreases |s|
  {
    if |s| == 0 then []
    else if |s| == 1 then EncodeOne(s[0])
    else if |s| == 2 then EncodeTwo(s[0], s[1])
    else EncodeThree(s[0], s[1], s[2]) + Encode(s[3..])
  }

  /** Decodes a padded encoding; `None` when the text is not one. */
  function Decode(e: string): Option<seq<Byte>>
    decreases |e|
  {
    if e == [] then Some([])
    else if |e| < 4 || !IsChar64(e[0]) || !IsChar64(e[1]) then None
    else
      var i0, i1 := Index64(e[0]), Index64(e[1]);
      if |e| == 4 && e[2] == '=' && e[3] == '=' then Some([i0 * 4 + i1 / 16])
      else if !IsChar64(e[2]) then None
      else
        var i2 := Index64(e[2]);
        if |e| == 4 && e[3] == '=' then Some([i0 * 4 + i1 / 16, i1 % 16 * 16 + i2 / 4])
        else if !IsChar64(e[3]) then None
        else
          var i3 := Index64(e[3]);
          match Decode(e[4..])
          case None => None
          case Some(rest) => Some([i0 * 4 + i1 / 16, i1 % 16 * 16 + i2 / 4, i2 % 4 * 64 + i3] + rest)
  }

  /** The bit regrouping of three bytes into four 6-bit values, undone. */
  lemma GroupRoundTrip(b0: Byte, b1: Byte, b2: Byte, i0: int, i1: int, i2: int, i3: int)
    requires i0 == b0 / 4 && i1 == b0 % 4 * 16 + b1 / 16
    requires i2 == b1 % 16 * 4 + b2 / 64 && i3 == b2 % 64
    ensures [i0 * 4 + i1 / 16, i1 % 16 * 16 + i2 / 4, i2 % 4 * 64 + i3] == [b0, b1, b2]
  {
    assert i1 / 16 == b0 % 4 && i1 % 16 == b1 / 16;
    assert i2 / 4 == b1 % 16 && i2 % 4 == b2 / 64;
  }

  /** Decoding an encoding gives back the bytes. */
  lemma {:induction false} DecodeEncode(s: seq<Byte>)
    ensures Decode(Encode(s)) == Some(s)
    decreases |s|
  {
    if |s| == 1 {
      DecodeEncodeOne(s);
    } else if |s| == 2 {
      DecodeEncodeTwo(s);
    } else if |s| >= 3 {
      DecodeEncode(s[3..]);
      DecodeEncodeFirstGroup(s);
    }
  }

  lemma DecodeEncodeFirstGroup(s: seq<Byte>)
    requires |s| >= 3 && Decode(Encode(s[3..])) == Some(s[3..])
    ensures Decode(Encode(s)) == Some(s)
  {
    DecodeEncodeGroup(s[0], s[1], s[2], s[3..]);
    SplitThree(s);
  }

  lemma SplitThree(s: seq<Byte>)
    requires |s| >= 3
    ensures s == [s[0], s[1], s[2]] + s[3..]
  {
  }

  lemma DecodeEncodeOne(s: seq<Byte>)
    requires |s| == 1
    ensures Decode(Encode(s)) == Some(s)
  {
    var b := s[0];
    var i0, i1 := b / 4, b % 4 * 16;
    calc {
      Decode(Encode(s));
      Decode([Char64(i0), Char64(i1), '=', '=']);
      { DecodeOne(i0, i1); }
      Some([i0 * 4 + i1 / 16]);
      Some([b]);
    }
    assert s == [b];
  }

  /** Decoding two characters and two '='. */
  lemma DecodeOne(i0: nat, i1: nat)
    requires i0 < 64 && i1 < 64
    ensures Decode([Char64(i0), Char64(i1), '=', '=']) == Some([i0 * 4 + i1 / 16])
  {
    Index64OfChar64(i0);
    Index64OfChar64(i1);
  }

  lemma DecodeEncodeTwo(s: seq<Byte>)
    requires |s| == 2
    ensures Decode(Encode(s)) == Some(s)
  {
    var b0, b1 := s[0], s[1];
    assert s == [b0, b1];
    assert Encode(s) == EncodeTwo(b0, b1);
    DecodeEncodeTwoBytes(b0, b1);
  }

  /** The last two bytes, encoded and decoded. */
  lemma DecodeEncodeTwoBytes(b0: Byte, b1: Byte)
    ensures Decode(EncodeTwo(b0, b1)) == Some([b0, b1])
  {
    var i0, i1, i2 := b0 / 4, b0 % 4 * 16 + b1 / 16, b1 % 16 * 4;
    assert EncodeTwo(b0, b1) == [Char64(i0), Char64(i1), Char64(i2), '='];
    DecodeTwo(i0, i1, i2);
    PairRoundTrip(b0, b1);
  }

  /** The bit regrouping of a final two bytes into three 6-bit values, undone. */
  lemma PairRoundTrip(b0: Byte, b1: Byte)
    ensures b0 / 4 * 4 + (b0 % 4 * 16 + b1 / 16) / 16 == b0
    ensures (b0 % 4 * 16 + b1 / 16) % 16 * 16 + b1 % 16 * 4 / 4 == b1
  {
  }

  /** Decoding three characters and one '='. */
  lemma DecodeTwo(i0: nat, i1: nat, i2: nat)
    requires i0 < 64 && i1 < 64 && i2 < 64
    ensures Decode([Char64(i0), Char64(i1), Char64(i2), '=']) == Some([i0 * 4 + i1 / 16, i1 % 16 * 16 + i2 / 4])
  {
    Index64OfChar64(i0);
    Index64OfChar64(i1);
    Index64OfChar64(i2);
  }

  lemma DecodeEncodeGroup(b0: Byte, b1: Byte, b2: Byte, rest: seq<Byte>)
    requires Decode(Encode(rest)) == Some(rest)
    ensures Decode(Encode([b0, b1, b2] + rest)) == Some([b0, b1, b2] + rest)
  {
    var i0, i1, i2, i3 := b0 / 4, b0 % 4 * 16 + b1 / 16, b1 % 16 * 4 + b2 / 64, b2 % 64;
    EncodeGroupThen(b0, b1, b2, rest);
    assert EncodeThree(b0, b1, b2) == [Char64(i0), Char64(i1), Char64(i2), Char64(i3)];
    DecodeGroupThen(i0, i1, i2, i3, Encode(rest), rest);
    GroupRoundTrip(b0, b1, b2, i0, i1, i2, i3);
  }

  /** Encoding three bytes followed by more. */
  lemma EncodeGroupThen(b0: Byte, b1: Byte, b2: Byte, rest: seq<Byte>)
    ensures Encode([b0, b1, b2] + rest) == EncodeThree(b0, b1, b2) + Encode(rest)
  {
    var s := [b0, b1, b2] + rest;
    assert s[0] == b0 && s[1] == b1 && s[2] == b2 && s[3..] == rest;
  }

  /** Decoding a full group of four characters followed by more text. */
  lemma DecodeGroupThen(i0: nat, i1: nat, i2: nat, i3: nat, tail: string, rest: seq<Byte>)
    requires i0 < 64 && i1 < 64 && i2 < 64 && i3 < 64
    requires Decode(tail) == Some(rest)
    ensures Decode([Char64(i0), Char64(i1), Char64(i2), Char64(i3)] + tail)
         == Some([i0 * 4 + i1 / 16, i1 % 16 * 16 + i2 / 4, i2 % 4 * 64 + i3] + rest)
  {
    Index64OfChar64(i0);
    Index64OfChar64(i1);
    Index64OfChar64(i2);
    Index64OfChar64(i3);
    var e := [Char64(i0), Char64(i1), Char64(i2), Char64(i3)] + tail;
    assert e[0] == Char64(i0) && e[1] == Char64(i1) && e[2] == Char64(i2) && e[3] == Char64(i3);
    assert e[4..] == tail;
  }

  /** Different byte strings never share an encoding. */
  lemma EncodeInjective(s: seq<Byte>, t: seq<Byte>)
    requires Encode(s) == Encode(t)
    ensures s == t
  {
    DecodeEncode(s);
    DecodeEncode(t);
  }
}
