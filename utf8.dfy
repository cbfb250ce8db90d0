/**
  UTF-8 as defined in section 4 of RFC 3629 ("Syntax of UTF-8 Byte Sequences").

  `WellFormed` is the grammar of that section written as a predicate; `Decode`
  is the check a `String` is built with (it yields the code points, or `None`
  for an ill-formed sequence), and `Encode` is the inverse direction, which
  is what the bytes of a `String` are.
*/
module Utf8 {
  import opened Wrappers
  import opened Bytes

  /** UTF8-tail = %x80-BF */
  predicate IsTail(b: byte) {
    0x80 <= b <= 0xBF
  }

  /** UTF8-char = UTF8-1 / UTF8-2 / UTF8-3 / UTF8-4 */
  predicate IsChar(s: seq<byte>) {
    || (|s| == 1 && s[0] <= 0x7F)
    || (|s| == 2 && 0xC2 <= s[0] <= 0xDF && IsTail(s[1]))
    || (|s| == 3 && IsTail(s[2]) &&
        (|| (s[0] == 0xE0 && 0xA0 <= s[1] <= 0xBF)
         || (0xE1 <= s[0] <= 0xEC && IsTail(s[1]))
         || (s[0] == 0xED && 0x80 <= s[1] <= 0x9F)
         || (0xEE <= s[0] <= 0xEF && IsTail(s[1]))))
    || (|s| == 4 && IsTail(s[2]) && IsTail(s[3]) &&
        (|| (s[0] == 0xF0 && 0x90 <= s[1] <= 0xBF)
         || (0xF1 <= s[0] <= 0xF3 && IsTail(s[1]))
         || (s[0] == 0xF4 && 0x80 <= s[1] <= 0x8F)))
  }

  /**
    How long a UTF8-char starting with `lead` is, read off its lead byte
    (the table in section 3 of RFC 3629); 0 for a byte no character starts with.
  */
  function CharLength(lead: byte): (k: nat)
    ensures k <= 4
  {
    if lead <= 0x7F then 1
    else if 0xC2 <= lead <= 0xDF then 2
    else if 0xE0 <= lead <= 0xEF then 3
    else if 0xF0 <= lead <= 0xF4 then 4
    else 0
  }

  /**
    UTF8-octets = *( UTF8-char ): `b` splits into UTF8-chars. Only a split
    after the length its lead byte announces can succeed.
  */
  predicate WellFormed(b: seq<byte>)
    decreases |b|
  {
    || b == []
    || (var k := CharLength(b[0]); 1 <= k <= |b| && IsChar(b[..k]) && WellFormed(b[k..]))
  }

  /** Every UTF8-char has the length its lead byte announces. */
  lemma CharHasItsLength(s: seq<byte>)
    requires IsChar(s)
    ensures CharLength(s[0]) == |s|
  {
  }

  /** The value of a continuation byte's six payload bits. */
  function Payload(b: byte): (v: int)
    requires IsTail(b)
    ensures 0 <= v < 64
  {
    b as int - 0x80
  }

  /**
    Decodes the first character of `b`: the character and how many bytes it
    took, or `None` when `b` does not start with a UTF8-char.
  */
  function DecodeFirst(b: seq<byte>): (r: Option<(char, nat)>)
    requires |b| > 0
    ensures r.Some? ==> 1 <= r.value.1 <= 4 && r.value.1 <= |b| && IsChar(b[..r.value.1])
  {
    var b0 := b[0];
    if b0 <= 0x7F then
      Some((b0 as int as char, 1))
    else if 0xC2 <= b0 <= 0xDF then
      if |b| >= 2 && IsTail(b[1]) then
        Some((((b0 as int - 0xC0) * 64 + Payload(b[1])) as char, 2))
      else None
    else if 0xE0 <= b0 <= 0xEF then
      if |b| >= 3 && IsTail(b[1]) && IsTail(b[2])
         && (b0 == 0xE0 ==> 0xA0 <= b[1]) && (b0 == 0xED ==> b[1] <= 0x9F)
      then
        Some((((b0 as int - 0xE0) * 4096 + Payload(b[1]) * 64 + Payload(b[2])) as char, 3))
      else None
    else if 0xF0 <= b0 <= 0xF4 then
      if |b| >= 4 && IsTail(b[1]) && IsTail(b[2]) && IsTail(b[3])
         && (b0 == 0xF0 ==> 0x90 <= b[1]) && (b0 == 0xF4 ==> b[1] <= 0x8F)
      then
        Some((((b0 as int - 0xF0) * 262144 + Payload(b[1]) * 4096 + Payload(b[2]) * 64 + Payload(b[3])) as char, 4))
      else None
    else None
  }

  /** `String::from_utf8`: the code points of `b`, or `None` if `b` is ill-formed. */
  function Decode(b: seq<byte>): (r: Option<string>)
    ensures r.Some? ==> |r.value| <= |b|
    decreases |b|
  {
    if b == [] then Some([])
    else match DecodeFirst(b)
      case None => None
      case Some((c, k)) =>
        match Decode(b[k..])
        case None => None
        case Some(rest) => Some([c] + rest)
  }

  /** The UTF-8 bytes of one character (the table in section 3 of RFC 3629). */
  function EncodeChar(c: char): (e: seq<byte>)
    ensures 1 <= |e| <= 4
  {
    var v := c as int;
    if v < 0x80 then
      [v as byte]
    else if v < 0x800 then
      [(0xC0 + v / 64) as byte, (0x80 + v % 64) as byte]
    else if v < 0x10000 then
      [(0xE0 + v / 64 / 64) as byte, (0x80 + v / 64 % 64) as byte, (0x80 + v % 64) as byte]
    else
      [(0xF0 + v / 64 / 64 / 64) as byte, (0x80 + v / 64 / 64 % 64) as byte,
       (0x80 + v / 64 % 64) as byte, (0x80 + v % 64) as byte]
  }

  /** The bytes of a `String` holding `s`. */
  function Encode(s: string): seq<byte>
  {
    if s == [] then [] else EncodeChar(s[0]) + Encode(s[1..])
  }

  lemma Split64(v: int)
    requires v >= 0
    ensures v == v / 64 * 64 + v % 64 && 0 <= v % 64 < 64 && v / 64 >= 0
  {
  }

  /** The first character of an encoding decodes back to itself, whatever follows. */
  lemma DecodeFirstEncodeChar(c: char, rest: seq<byte>)
    ensures DecodeFirst(EncodeChar(c) + rest) == Some((c, |EncodeChar(c)|))
  {
    var e := EncodeChar(c);
    var b := e + rest;
    var v := c as int;
    var w := v / 64;
    var x := w / 64;
    Split64(v);
    Split64(w);
    Split64(x);
    assert b[..|e|] == e;
    if v < 0x80 {
    } else if v < 0x800 {
      DecodeTwo(c, b);
    } else if v < 0x10000 {
      DecodeThree(c, b);
    } else {
      DecodeFour(c, b);
    }
  }

  lemma DecodeTwo(c: char, b: seq<byte>)
    requires 0x80 <= c as int < 0x800 && |b| >= 2
    requires b[0] as int == 0xC0 + c as int / 64 && b[1] as int == 0x80 + c as int % 64
    ensures DecodeFirst(b) == Some((c, 2))
  {
    var v := c as int;
    Split64(v);
    assert (b[0] as int - 0xC0) * 64 + Payload(b[1]) == v;
  }

  lemma DecodeThree(c: char, b: seq<byte>)
    requires 0x800 <= c as int < 0x10000 && |b| >= 3
    requires b[0] as int == 0xE0 + c as int / 64 / 64
    requires b[1] as int == 0x80 + c as int / 64 % 64 && b[2] as int == 0x80 + c as int % 64
    ensures DecodeFirst(b) == Some((c, 3))
  {
    var v := c as int;
    var w := v / 64;
    Split64(v);
    Split64(w);
    assert (b[0] as int - 0xE0) * 4096 + Payload(b[1]) * 64 + Payload(b[2]) == v;
  }

  lemma DecodeFour(c: char, b: seq<byte>)
    requires 0x10000 <= c as int && |b| >= 4
    requires b[0] as int == 0xF0 + c as int / 64 / 64 / 64
    requires b[1] as int == 0x80 + c as int / 64 / 64 % 64
    requires b[2] as int == 0x80 + c as int / 64 % 64 && b[3] as int == 0x80 + c as int % 64
    ensures DecodeFirst(b) == Some((c, 4))
  {
    var v := c as int;
    var w := v / 64;
    var x := w / 64;
    Split64(v);
    Split64(w);
    Split64(x);
    assert (b[0] as int - 0xF0) * 262144 + Payload(b[1]) * 4096 + Payload(b[2]) * 64 + Payload(b[3]) == v;
  }

  /** Decoding the encoding of any text gives that text back. */
  lemma {:induction false} DecodeEncode(s: string)
    ensures Decode(Encode(s)) == Some(s)
  {
    if s != [] {
      var e := EncodeChar(s[0]);
      var rest := Encode(s[1..]);
      assert Encode(s) == e + rest;
      DecodeFirstEncodeChar(s[0], rest);
      assert (e + rest)[|e|..] == rest;
      DecodeEncode(s[1..]);
      assert [s[0]] + s[1..] == s;
    }
  }

  /** A UTF8-char at the front of `b` is exactly what `DecodeFirst` recognises. */
  lemma DecodeFirstOfChar(b: seq<byte>, k: nat)
    requires 1 <= k <= 4 && k <= |b| && IsChar(b[..k])
    ensures DecodeFirst(b).Some? && DecodeFirst(b).value.1 == k
  {
    assert b[..k][0] == b[0];
  }

  /** `v` split as `q` sixty-fours and a remainder `r` below 64. */
  lemma DivMod64(v: int, q: int, r: int)
    requires v == q * 64 + r && 0 <= r < 64
    ensures v / 64 == q && v % 64 == r
  {
  }

  lemma EncodeTwo(b: seq<byte>, c: char)
    requires |b| >= 2 && 0xC2 <= b[0] <= 0xDF && IsTail(b[1])
    requires c as int == (b[0] as int - 0xC0) * 64 + Payload(b[1])
    ensures EncodeChar(c) == b[..2]
  {
    DivMod64(c as int, b[0] as int - 0xC0, Payload(b[1]));
  }

  lemma EncodeThree(b: seq<byte>, c: char)
    requires |b| >= 3 && 0xE0 <= b[0] <= 0xEF && IsTail(b[1]) && IsTail(b[2])
    requires b[0] == 0xE0 ==> 0xA0 <= b[1]
    requires c as int == (b[0] as int - 0xE0) * 4096 + Payload(b[1]) * 64 + Payload(b[2])
    ensures EncodeChar(c) == b[..3]
  {
    var w := (b[0] as int - 0xE0) * 64 + Payload(b[1]);
    DivMod64(c as int, w, Payload(b[2]));
    DivMod64(w, b[0] as int - 0xE0, Payload(b[1]));
  }

  lemma EncodeFour(b: seq<byte>, c: char)
    requires |b| >= 4 && 0xF0 <= b[0] <= 0xF4 && IsTail(b[1]) && IsTail(b[2]) && IsTail(b[3])
    requires b[0] == 0xF0 ==> 0x90 <= b[1]
    requires c as int == (b[0] as int - 0xF0) * 262144 + Payload(b[1]) * 4096 + Payload(b[2]) * 64 + Payload(b[3])
    ensures EncodeChar(c) == b[..4]
  {
    var x := (b[0] as int - 0xF0) * 64 + Payload(b[1]);
    var w := x * 64 + Payload(b[2]);
    DivMod64(c as int, w, Payload(b[3]));
    DivMod64(w, x, Payload(b[2]));
    DivMod64(x, b[0] as int - 0xF0, Payload(b[1]));
  }

  /** Re-encoding a decoded character gives back the bytes it was decoded from. */
  lemma EncodeDecodeFirst(b: seq<byte>)
    requires |b| > 0 && DecodeFirst(b).Some?
    ensures EncodeChar(DecodeFirst(b).value.0) == b[..DecodeFirst(b).value.1]
  {
    var (c, k) := DecodeFirst(b).value;
    if k == 2 {
      EncodeTwo(b, c);
    } else if k == 3 {
      EncodeThree(b, c);
    } else if k == 4 {
      EncodeFour(b, c);
    }
  }

  /** `Decode` accepts exactly the sequences the grammar of RFC 3629 derives. */
  lemma {:induction false} DecodeIffWellFormed(b: seq<byte>)
    ensures Decode(b).Some? <==> WellFormed(b)
    decreases |b|
  {
    if b != [] {
      var k := CharLength(b[0]);
      match DecodeFirst(b)
      case None =>
        if 1 <= k <= |b| && IsChar(b[..k]) { DecodeFirstOfChar(b, k); }
      case Some((c, j)) =>
        DecodeIffWellFormed(b[j..]);
        assert b[..j][0] == b[0];
        CharHasItsLength(b[..j]);
    }
  }

  /** A successful decode of a non-empty sequence is its first character followed by the decode of the rest. */
  lemma DecodeCons(b: seq<byte>)
    requires b != [] && Decode(b).Some?
    ensures DecodeFirst(b).Some? && Decode(b[DecodeFirst(b).value.1..]).Some?
    ensures Decode(b).value == [DecodeFirst(b).value.0] + Decode(b[DecodeFirst(b).value.1..]).value
  {
  }

  lemma EncodeCons(c: char, t: string)
    ensures Encode([c] + t) == EncodeChar(c) + Encode(t)
  {
    assert ([c] + t)[0] == c && ([c] + t)[1..] == t;
  }

  /** A successful decode is the text whose encoding is exactly `b`. */
  lemma {:induction false} EncodeDecode(b: seq<byte>)
    requires Decode(b).Some?
    ensures Encode(Decode(b).value) == b
    decreases |b|
  {
    if b != [] {
      DecodeCons(b);
      var (c, k) := DecodeFirst(b).value;
      EncodeDecodeFirst(b);
      EncodeDecode(b[k..]);
      EncodeCons(c, Decode(b[k..]).value);
      assert b == b[..k] + b[k..];
    }
  }

  /** The encoding of any text is well-formed UTF-8. */
  lemma EncodeWellFormed(s: string)
    ensures WellFormed(Encode(s))
  {
    DecodeEncode(s);
    DecodeIffWellFormed(Encode(s));
  }
}
