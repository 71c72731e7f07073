/**
 * UTF-8 as defined by RFC 3629, section 3: the byte form of one Unicode
 * scalar value, and the decoder that reads it back (rejecting overlong
 * forms, surrogates and code points above U+10FFFF).
 */
module Utf8 {
  import opened Wrappers

  type Byte = b: int | 0 <= b < 0x100

  predicate IsContinuation(b: Byte) {
    0x80 <= b < 0xC0
  }

  /** The one- to four-byte encoding of a scalar value (RFC 3629, section 3 table). */
  function EncodeChar(c: char): (bs: seq<Byte>)
    ensures (|bs| == 1) == (c as int < 0x80)
    ensures (|bs| == 2) == (0x80 <= c as int < 0x800)
    ensures (|bs| == 3) == (0x800 <= c as int < 0x1_0000)
    ensures (|bs| == 4) == (0x1_0000 <= c as int)
    ensures |bs| == 1 ==> bs[0] == c as int
    ensures forall i :: 1 <= i < |bs| ==> IsContinuation(bs[i])
  {
    var cp := c as int;
    if cp < 0x80 then
      [cp]
    else if cp < 0x800 then
      [0xC0 + cp / 0x40, 0x80 + cp % 0x40]
    else if cp < 0x1_0000 then
      [0xE0 + cp / 0x1000, 0x80 + cp / 0x40 % 0x40, 0x80 + cp % 0x40]
    else
      [0xF0 + cp / 0x4_0000, 0x80 + cp / 0x1000 % 0x40, 0x80 + cp / 0x40 % 0x40, 0x80 + cp % 0x40]
  }

  /** The UTF-8 form of a whole string: the encodings of its characters, in order. */
  function Encode(s: string): (bs: seq<Byte>)
    ensures |s| <= |bs| <= 4 * |s|
    decreases |s|
  {
    if s == [] then [] else EncodeChar(s[0]) + Encode(s[1..])
  }

  /** Reads the first character of `bs`, with the number of bytes it used;
      `None` when `bs` does not start with a well-formed UTF-8 sequence. */
  function DecodeFirst(bs: seq<Byte>): (r: Option<(char, nat)>)
    ensures r.Some? ==> 1 <= r.value.1 <= |bs|
  {
    if |bs| == 0 then None
    else
      var b0: int := bs[0];
      if b0 < 0x80 then
        Some((b0 as char, 1))
      else if 0xC2 <= b0 < 0xE0 then
        if |bs| < 2 || !IsContinuation(bs[1]) then None
        else Some((((b0 - 0xC0) * 0x40 + (bs[1] as int - 0x80)) as char, 2))
      else if 0xE0 <= b0 < 0xF0 then
        if |bs| < 3 || !IsContinuation(bs[1]) || !IsContinuation(bs[2]) then None
        else
          var cp := (b0 - 0xE0) * 0x1000 + (bs[1] as int - 0x80) * 0x40 + (bs[2] as int - 0x80);
          if cp < 0x800 || 0xD800 <= cp < 0xE000 then None else Some((cp as char, 3))
      else if 0xF0 <= b0 < 0xF5 then
        if |bs| < 4 || !IsContinuation(bs[1]) || !IsContinuation(bs[2]) || !IsContinuation(bs[3]) then None
        else
          var cp := (b0 - 0xF0) * 0x4_0000 + (bs[1] as int - 0x80) * 0x1000 + (bs[2] as int - 0x80) * 0x40 + (bs[3] as int - 0x80);
          if cp < 0x1_0000 || 0x11_0000 <= cp then None else Some((cp as char, 4))
      else
        None
  }

  /** Decodes a whole byte sequence; `None` if any part of it is malformed. */
  function Decode(bs: seq<Byte>): Option<string>
    decreases |bs|
  {
    if bs == [] then Some([])
    else match DecodeFirst(bs)
      case None => None
      case Some((c, n)) =>
        match Decode(bs[n..])
        case None => None
        case Some(rest) => Some([c] + rest)
  }

  lemma Split6(n: int)
    requires 0 <= n
    ensures n == n / 0x40 * 0x40 + n % 0x40 && 0 <= n % 0x40 < 0x40
  {
  }

  lemma Split12(n: int)
    requires 0 <= n
    ensures n / 0x40 == n / 0x1000 * 0x40 + n / 0x40 % 0x40
  {
    Split6(n / 0x40);
    assert n / 0x40 / 0x40 == n / 0x1000;
  }

  lemma Split18(n: int)
    requires 0 <= n
    ensures n / 0x1000 == n / 0x4_0000 * 0x40 + n / 0x1000 % 0x40
  {
    Split6(n / 0x1000);
    assert n / 0x1000 / 0x40 == n / 0x4_0000;
  }

  /** The decoder reads back exactly the character the encoder wrote, whatever follows it. */
  lemma DecodeFirstEncodeChar(c: char, rest: seq<Byte>)
    ensures DecodeFirst(EncodeChar(c) + rest) == Some((c, |EncodeChar(c)|))
  {
    var cp := c as int;
    var bs := EncodeChar(c) + rest;
    Split6(cp);
    if cp < 0x80 {
    } else if cp < 0x800 {
      assert bs[0] == 0xC0 + cp / 0x40 && bs[1] == 0x80 + cp % 0x40;
    } else if cp < 0x1_0000 {
      Split6(cp / 0x40);
      Split12(cp);
      assert bs[0] == 0xE0 + cp / 0x1000 && bs[1] == 0x80 + cp / 0x40 % 0x40 && bs[2] == 0x80 + cp % 0x40;
    } else {
      Split6(cp / 0x40);
      Split6(cp / 0x1000);
      Split12(cp);
      Split18(cp);
      assert bs[0] == 0xF0 + cp / 0x4_0000 && bs[1] == 0x80 + cp / 0x1000 % 0x40
        && bs[2] == 0x80 + cp / 0x40 % 0x40 && bs[3] == 0x80 + cp % 0x40;
    }
  }

  /** Round trip: decoding the UTF-8 form of a string gives the string back. */
  lemma {:induction false} DecodeEncode(s: string)
    ensures Decode(Encode(s)) == Some(s)
    decreases |s|
  {
    if s != [] {
      var e := EncodeChar(s[0]);
      var bs := Encode(s);
      assert bs == e + Encode(s[1..]);
      DecodeFirstEncodeChar(s[0], Encode(s[1..]));
      assert bs[|e|..] == Encode(s[1..]);
      DecodeEncode(s[1..]);
      assert [s[0]] + s[1..] == s;
    }
  }
}
