/**
 * `encodeURIComponent` from the URI Handling Functions of ECMA-262
 * (section 19.2.6): every character outside the unreserved set is written as
 * the `%HH` triplets (RFC 3986, section 2.1, upper-case hex digits) of its
 * UTF-8 bytes. The partner is a percent-decoder followed by UTF-8 decoding.
 */
module UriEncoding {
  import opened Wrappers
  import Utf8

  /** The characters `encodeURIComponent` leaves as they are: ASCII letters,
      decimal digits and the marks `-_.!~*'()`. */
  predicate IsUnreserved(c: char) {
    ('A' <= c <= 'Z') || ('a' <= c <= 'z') || ('0' <= c <= '9')
    || c == '-' || c == '_' || c == '.' || c == '!' || c == '~'
    || c == '*' || c == '\'' || c == '(' || c == ')'
  }

  predicate IsUpperHexDigit(c: char) {
    ('0' <= c <= '9') || ('A' <= c <= 'F')
  }

  /** The upper-case hexadecimal digit for 0..15. */
  function HexDigit(n: int): (c: char)
    requires 0 <= n < 16
    ensures IsUpperHexDigit(c)
  {
    if n < 10 then ('0' as int + n) as char else ('A' as int + n - 10) as char
  }

  /** The value of a hexadecimal digit of either case. */
  function HexValue(c: char): (r: Option<int>)
    ensures r.Some? ==> 0 <= r.value < 16
  {
    if '0' <= c <= '9' then Some(c as int - '0' as int)
    else if 'A' <= c <= 'F' then Some(c as int - 'A' as int + 10)
    else if 'a' <= c <= 'f' then Some(c as int - 'a' as int + 10)
    else None
  }

  /** The shape of `encodeURIComponent`'s output: unreserved characters and
      `%HH` triplets with upper-case digits, nothing else. */
  predicate IsEncodedComponent(s: string)
    decreases |s|
  {
    s == []
    || (IsUnreserved(s[0]) && IsEncodedComponent(s[1..]))
    || (|s| >= 3 && s[0] == '%' && IsUpperHexDigit(s[1]) && IsUpperHexDigit(s[2])
        && IsEncodedComponent(s[3..]))
  }

  /** Each byte as `%` followed by two upper-case hex digits. */
  function PercentEncode(bs: seq<Utf8.Byte>): (r: string)
    ensures |r| == 3 * |bs|
    decreases |bs|
  {
    if bs == [] then []
    else ['%', HexDigit(bs[0] / 16), HexDigit(bs[0] % 16)] + PercentEncode(bs[1..])
  }

  /** One character: kept if unreserved, otherwise its UTF-8 bytes percent-encoded.
      It becomes one to twelve characters, and stays itself exactly when it is
      unreserved. */
  function EncodeChar(c: char): (r: string)
    ensures 1 <= |r| <= 12
    ensures r == [c] <==> IsUnreserved(c)
  {
    if IsUnreserved(c) then [c] else PercentEncode(Utf8.EncodeChar(c))
  }

  lemma {:induction false} PercentEncodeShape(bs: seq<Utf8.Byte>, t: string)
    requires IsEncodedComponent(t)
    ensures IsEncodedComponent(PercentEncode(bs) + t)
    decreases |bs|
  {
    if bs != [] {
      var s := PercentEncode(bs) + t;
      PercentEncodeShape(bs[1..], t);
      assert s == ['%', HexDigit(bs[0] / 16), HexDigit(bs[0] % 16)] + (PercentEncode(bs[1..]) + t);
      assert s[3..] == PercentEncode(bs[1..]) + t;
      assert s[0] == '%' && IsUpperHexDigit(s[1]) && IsUpperHexDigit(s[2]);
    } else {
      assert PercentEncode(bs) + t == t;
    }
  }

  lemma EncodeCharShape(c: char, t: string)
    requires IsEncodedComponent(t)
    ensures IsEncodedComponent(EncodeChar(c) + t)
  {
    if IsUnreserved(c) {
      assert ([c] + t)[1..] == t;
    } else {
      PercentEncodeShape(Utf8.EncodeChar(c), t);
    }
  }

  /** `encodeURIComponent(s)`. No string is rejected: a `char` is a Unicode
      scalar value, so the lone surrogates that make the standard operation
      throw `URIError` cannot occur. Each character becomes between one and
      twelve characters (four UTF-8 bytes of three characters each). */
  function Encode(s: string): (r: string)
    ensures |s| <= |r| <= 12 * |s|
    decreases |s|
  {
    if s == [] then [] else EncodeChar(s[0]) + Encode(s[1..])
  }

  /** Everything `Encode` produces has the shape of an encoded component. */
  lemma {:induction false} EncodeShape(s: string)
    ensures IsEncodedComponent(Encode(s))
    decreases |s|
  {
    if s != [] {
      EncodeShape(s[1..]);
      EncodeCharShape(s[0], Encode(s[1..]));
    }
  }

  /** Percent-decoding of a query component made of unreserved characters and
      `%HH` triplets (hex digits of either case); `None` for any other character
      or a truncated triplet. */
  function PercentDecode(s: string): (r: Option<seq<Utf8.Byte>>)
    decreases |s|
  {
    if s == [] then Some([])
    else if s[0] == '%' then
      if |s| < 3 then None
      else match (HexValue(s[1]), HexValue(s[2]), PercentDecode(s[3..]))
        case (Some(hi), Some(lo), Some(rest)) => Some([hi * 16 + lo] + rest)
        case _ => None
    else if IsUnreserved(s[0]) then
      match PercentDecode(s[1..])
      case Some(rest) => Some([s[0] as int] + rest)
      case None => None
    else None
  }

  /** The inverse of `Encode`: percent-decode, then read the bytes as UTF-8. */
  function DecodeComponent(s: string): Option<string> {
    match PercentDecode(s)
    case None => None
    case Some(bs) => Utf8.Decode(bs)
  }

  lemma HexRoundTrip(b: Utf8.Byte)
    ensures HexValue(HexDigit(b / 16)) == Some(b / 16)
    ensures HexValue(HexDigit(b % 16)) == Some(b % 16)
    ensures b / 16 * 16 + b % 16 == b
  {
  }

  lemma {:induction false} PercentDecodeEncode(bs: seq<Utf8.Byte>, t: string, u: seq<Utf8.Byte>)
    requires PercentDecode(t) == Some(u)
    ensures PercentDecode(PercentEncode(bs) + t) == Some(bs + u)
    decreases |bs|
  {
    if bs != [] {
      var s := PercentEncode(bs) + t;
      assert s == ['%', HexDigit(bs[0] / 16), HexDigit(bs[0] % 16)] + (PercentEncode(bs[1..]) + t);
      assert s[3..] == PercentEncode(bs[1..]) + t;
      PercentDecodeEncode(bs[1..], t, u);
      HexRoundTrip(bs[0]);
      assert s[0] == '%' && s[1] == HexDigit(bs[0] / 16) && s[2] == HexDigit(bs[0] % 16);
      assert [bs[0]] + (bs[1..] + u) == bs + u;
    } else {
      assert PercentEncode(bs) + t == t && bs + u == u;
    }
  }

  /** Percent-decoding the output of `Encode` gives the UTF-8 bytes of its input. */
  lemma {:induction false} PercentDecodeOfEncode(s: string)
    ensures PercentDecode(Encode(s)) == Some(Utf8.Encode(s))
    decreases |s|
  {
    if s != [] {
      var rest := Encode(s[1..]);
      PercentDecodeOfEncode(s[1..]);
      assert Utf8.Encode(s) == Utf8.EncodeChar(s[0]) + Utf8.Encode(s[1..]);
      if IsUnreserved(s[0]) {
        assert ([s[0]] + rest)[1..] == rest;
      } else {
        PercentDecodeEncode(Utf8.EncodeChar(s[0]), rest, Utf8.Encode(s[1..]));
      }
    }
  }

  /** Round trip: the encoded form decodes to the original string. */
  lemma DecodeEncode(s: string)
    ensures DecodeComponent(Encode(s)) == Some(s)
  {
    PercentDecodeOfEncode(s);
    Utf8.DecodeEncode(s);
  }

  /** Distinct strings have distinct encodings. */
  lemma EncodeInjective(a: string, b: string)
    requires Encode(a) == Encode(b)
    ensures a == b
  {
    DecodeEncode(a);
    DecodeEncode(b);
  }

  /** Every character of an encoded component is unreserved or the `%` of a
      triplet, so no URI delimiter such as `&`, `=`, `#`, `?`, `+`, `/` or a space
      appears in it. */
  lemma {:induction false} EncodedCharacters(s: string)
    requires IsEncodedComponent(s)
    ensures forall c :: c in s ==> IsUnreserved(c) || c == '%'
    decreases |s|
  {
    if s != [] {
      if IsUnreserved(s[0]) && IsEncodedComponent(s[1..]) {
        EncodedCharacters(s[1..]);
        assert forall i :: 1 <= i < |s| ==> s[i] == s[1..][i - 1];
      } else {
        EncodedCharacters(s[3..]);
        assert forall i :: 3 <= i < |s| ==> s[i] == s[3..][i - 3];
      }
    }
  }

  /** No URI delimiter appears in an encoded component: neither `&`, `=`,
      `#`, `?`, `+` nor a space. */
  lemma NoDelimiters(s: string)
    requires IsEncodedComponent(s)
    ensures '&' !in s && '=' !in s && '#' !in s && '?' !in s && '+' !in s && ' ' !in s
  {
    EncodedCharacters(s);
  }

  /** A space is written `%20`, not `+`. */
  lemma SpaceIsPercent20()
    ensures Encode(" ") == "%20"
  {
    assert Utf8.EncodeChar(' ') == [0x20];
    assert PercentEncode([0x20]) == ['%', '2', '0'] + PercentEncode([]);
  }

  /** A space between unreserved words is written `%20`, not `+`. */
  lemma SpaceBetweenWords(a: string, b: string)
    requires forall i :: 0 <= i < |a| ==> IsUnreserved(a[i])
    requires forall i :: 0 <= i < |b| ==> IsUnreserved(b[i])
    ensures Encode(a + " " + b) == a + "%20" + b
  {
    EncodeUnreservedWord(a);
    EncodeUnreservedWord(b);
    SpaceIsPercent20();
    EncodeAppend(a, " ");
    EncodeAppend(a + " ", b);
  }

  /** `Encode` works character by character, so it distributes over concatenation. */
  lemma {:induction false} EncodeAppend(a: string, b: string)
    ensures Encode(a + b) == Encode(a) + Encode(b)
    decreases |a|
  {
    if a == [] {
      assert a + b == b;
    } else {
      assert (a + b)[0] == a[0] && (a + b)[1..] == a[1..] + b;
      EncodeAppend(a[1..], b);
    }
  }

  /** A string of unreserved characters is its own encoding. */
  lemma {:induction false} EncodeUnreservedWord(w: string)
    requires forall i :: 0 <= i < |w| ==> IsUnreserved(w[i])
    ensures Encode(w) == w
    decreases |w|
  {
    if w != [] {
      EncodeUnreservedWord(w[1..]);
      assert [w[0]] + w[1..] == w;
    }
  }
}
