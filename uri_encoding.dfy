/**
 * `encodeURIComponent` (ECMA-262, section 19.2.6.4 "encodeURIComponent",
 * with the Encode operation of section 19.2.6.5): every character outside
 * the unreserved set becomes the percent-escapes (section 2.1 of RFC 3986)
 * of its UTF-8 bytes (RFC 3629), written with upper-case hexadecimal digits.
 * Strings here are sequences of Unicode scalar values.
 *
 * `DecodeURIComponent` is the inverse it is proved against: every encoded
 * string decodes back to the string it came from.
 */
module UriEncoding {
  import opened Wrappers

  /**
   * The characters `encodeURIComponent` leaves as they are: ECMA-262's
   * uriUnreserved, that is letters, digits and `- _ . ! ~ * ' ( )`.
   */
  predicate Unreserved(c: char)
  {
    || 'a' <= c <= 'z'
    || 'A' <= c <= 'Z'
    || '0' <= c <= '9'
    || c == '-' || c == '_' || c == '.' || c == '!' || c == '~' || c == '*' || c == '\'' || c == '(' || c == ')'
  }

  /** A Unicode scalar value: a code point that is not a surrogate. */
  predicate IsScalar(cp: int)
  {
    0 <= cp < 0xD800 || 0xE000 <= cp < 0x11_0000
  }

  /** The upper-case hexadecimal digit for `d`. */
  function HexDigit(d: int): (c: char)
    requires 0 <= d < 16
    ensures Unreserved(c)
    ensures '0' <= c <= '9' || 'A' <= c <= 'F'
    ensures d < 10 <==> '0' <= c <= '9'
  {
    if d < 10 then ('0' as int + d) as char else ('A' as int + d - 10) as char
  }

  /** The value of a hexadecimal digit of either case. */
  function HexValue(c: char): (d: Option<int>)
    ensures d.Some? ==> 0 <= d.value < 16
  {
    if '0' <= c <= '9' then Some(c as int - '0' as int)
    else if 'A' <= c <= 'F' then Some(c as int - 'A' as int + 10)
    else if 'a' <= c <= 'f' then Some(c as int - 'a' as int + 10)
    else None
  }

  lemma HexValueOfDigit(d: int)
    requires 0 <= d < 16
    ensures HexValue(HexDigit(d)) == Some(d)
  {
  }

  /** The bytes of the UTF-8 encoding of the scalar value `cp`. */
  function Utf8(cp: int): (bytes: seq<int>)
    requires IsScalar(cp)
    ensures 1 <= |bytes| <= 4
    ensures forall i :: 0 <= i < |bytes| ==> 0 <= bytes[i] < 256
  {
    if cp < 0x80 then [cp]
    else if cp < 0x800 then [0xC0 + cp / 64, 0x80 + cp % 64]
    else if cp < 0x1_0000 then [0xE0 + cp / 64 / 64, 0x80 + cp / 64 % 64, 0x80 + cp % 64]
    else [0xF0 + cp / 64 / 64 / 64, 0x80 + cp / 64 / 64 % 64, 0x80 + cp / 64 % 64, 0x80 + cp % 64]
  }

  /** The number of bytes of a UTF-8 sequence with leading byte `b`; 0 when `b` cannot lead one. */
  function SequenceLength(b: int): nat
  {
    if 0 <= b < 0x80 then 1
    else if 0xC0 <= b < 0xE0 then 2
    else if 0xE0 <= b < 0xF0 then 3
    else if 0xF0 <= b < 0xF8 then 4
    else 0
  }

  predicate IsContinuation(b: int)
  {
    0x80 <= b < 0xC0
  }

  /** `cp` if it is a scalar value that needs no fewer bytes than its encoding used. */
  function Shortest(cp: int, least: int): (r: Option<int>)
    ensures r.Some? ==> IsScalar(r.value)
  {
    if least <= cp && IsScalar(cp) then Some(cp) else None
  }

  /**
   * The scalar value a UTF-8 byte sequence encodes; `None` for a malformed,
   * overlong or surrogate sequence (decodeURIComponent's URIError).
   */
  function Utf8Decode(bytes: seq<int>): (r: Option<int>)
    ensures r.Some? ==> IsScalar(r.value)
  {
    if |bytes| == 1 && 0 <= bytes[0] < 0x80 then Some(bytes[0])
    else if |bytes| == 2 && SequenceLength(bytes[0]) == 2 && IsContinuation(bytes[1]) then
      Shortest((bytes[0] - 0xC0) * 64 + (bytes[1] - 0x80), 0x80)
    else if |bytes| == 3 && SequenceLength(bytes[0]) == 3 && IsContinuation(bytes[1]) && IsContinuation(bytes[2]) then
      Shortest(((bytes[0] - 0xE0) * 64 + (bytes[1] - 0x80)) * 64 + (bytes[2] - 0x80), 0x800)
    else if |bytes| == 4 && SequenceLength(bytes[0]) == 4 && IsContinuation(bytes[1]) && IsContinuation(bytes[2])
            && IsContinuation(bytes[3]) then
      Shortest((((bytes[0] - 0xF0) * 64 + (bytes[1] - 0x80)) * 64 + (bytes[2] - 0x80)) * 64 + (bytes[3] - 0x80), 0x1_0000)
    else None
  }

  /** The UTF-8 encoding is one sequence whose leading byte announces its length, and it decodes back. */
  lemma Utf8RoundTrip(cp: int)
    requires IsScalar(cp)
    ensures SequenceLength(Utf8(cp)[0]) == |Utf8(cp)|
    ensures Utf8Decode(Utf8(cp)) == Some(cp)
  {
    var a := cp / 64;
    var b := a / 64;
    var c := b / 64;
    assert cp == a * 64 + cp % 64;
    assert a == b * 64 + a % 64;
    assert b == c * 64 + b % 64;
  }

  /** `%XY` for each byte, with upper-case digits. */
  function PercentBytes(bytes: seq<int>): (r: string)
    requires forall i :: 0 <= i < |bytes| ==> 0 <= bytes[i] < 256
    ensures |r| == 3 * |bytes|
    ensures forall i :: 0 <= i < |r| ==> Unreserved(r[i]) || r[i] == '%'
  {
    if bytes == [] then []
    else ['%', HexDigit(bytes[0] / 16), HexDigit(bytes[0] % 16)] + PercentBytes(bytes[1..])
  }

  /** Byte `i` is written at positions `3i` to `3i + 2` as `%`, its high and its low hex digit. */
  lemma {:induction false} PercentBytesSpec(bytes: seq<int>)
    requires forall i :: 0 <= i < |bytes| ==> 0 <= bytes[i] < 256
    ensures forall i :: 0 <= i < |bytes| ==>
              PercentBytes(bytes)[3 * i] == '%' &&
              PercentBytes(bytes)[3 * i + 1] == HexDigit(bytes[i] / 16) &&
              PercentBytes(bytes)[3 * i + 2] == HexDigit(bytes[i] % 16)
  {
    if bytes != [] {
      PercentBytesSpec(bytes[1..]);
      var r, rest := PercentBytes(bytes), PercentBytes(bytes[1..]);
      assert r == ['%', HexDigit(bytes[0] / 16), HexDigit(bytes[0] % 16)] + rest;
      forall i | 1 <= i < |bytes|
        ensures r[3 * i] == '%' && r[3 * i + 1] == HexDigit(bytes[i] / 16) && r[3 * i + 2] == HexDigit(bytes[i] % 16)
      {
        assert bytes[1..][i - 1] == bytes[i];
        assert r[3 * i] == rest[3 * (i - 1)];
        assert r[3 * i + 1] == rest[3 * (i - 1) + 1];
        assert r[3 * i + 2] == rest[3 * (i - 1) + 2];
      }
    }
  }

  /** The encoding of one character. */
  function EncodeChar(c: char): (r: string)
    ensures 1 <= |r|
    ensures forall i :: 0 <= i < |r| ==> Unreserved(r[i]) || r[i] == '%'
    ensures Unreserved(c) <==> r == [c]
  {
    if Unreserved(c) then [c] else PercentBytes(Utf8(c as int))
  }

  /**
   * `encodeURIComponent(s)`. Its output holds only unreserved characters and
   * `%`; in particular never `:`, `/` or `$`, so it can neither be taken for
   * a URL marker or path separator nor be read as a replacement pattern.
   */
  function EncodeURIComponent(s: string): (r: string)
    ensures |r| >= |s|
    ensures forall i :: 0 <= i < |r| ==> Unreserved(r[i]) || r[i] == '%'
    ensures ':' !in r && '/' !in r && '$' !in r
  {
    if s == [] then [] else EncodeChar(s[0]) + EncodeURIComponent(s[1..])
  }

  /** Encoding leaves a string unchanged exactly when all its characters are unreserved. */
  lemma {:induction false} EncodeIdentity(s: string)
    ensures EncodeURIComponent(s) == s <==> forall i :: 0 <= i < |s| ==> Unreserved(s[i])
  {
    if s != [] {
      EncodeIdentity(s[1..]);
      var r := EncodeURIComponent(s);
      if Unreserved(s[0]) {
        assert r == [s[0]] + EncodeURIComponent(s[1..]);
        if forall i :: 0 <= i < |s| ==> Unreserved(s[i]) {
          assert forall i :: 0 <= i < |s[1..]| ==> Unreserved(s[1..][i]);
          assert s == [s[0]] + s[1..];
        } else {
          var i :| 0 <= i < |s| && !Unreserved(s[i]);
          assert !Unreserved(s[1..][i - 1]);
          assert r[1..] == EncodeURIComponent(s[1..]);
        }
      } else {
        assert |EncodeChar(s[0])| == 3 * |Utf8(s[0] as int)| >= 3;
        assert |r| > |s|;
      }
    }
  }

  /** The byte written as `%XY` at the start of `s`. */
  function ReadByte(s: string): (b: Option<int>)
    ensures b.Some? ==> |s| >= 3 && 0 <= b.value < 256
  {
    if |s| < 3 || s[0] != '%' then None
    else match (HexValue(s[1]), HexValue(s[2]))
      case (Some(hi), Some(lo)) => Some(hi * 16 + lo)
      case _ => None
  }

  /** The `n` bytes written as `%XY` escapes at the start of `s`. */
  function ReadBytes(s: string, n: nat): (r: Option<seq<int>>)
    ensures r.Some? ==> |r.value| == n && |s| >= 3 * n
  {
    if n == 0 then Some([])
    else match ReadByte(s)
      case None => None
      case Some(b) =>
        match ReadBytes(s[3..], n - 1)
        case None => None
        case Some(rest) => Some([b] + rest)
  }

  /**
   * `decodeURIComponent(s)`: every escape sequence of a UTF-8 encoded
   * character is replaced by that character; `None` where a `%` does not
   * start a well-formed one (the URIError).
   */
  function DecodeURIComponent(s: string): (r: Option<string>)
    decreases |s|
  {
    if s == [] then Some([])
    else if s[0] != '%' then
      match DecodeURIComponent(s[1..])
      case None => None
      case Some(t) => Some([s[0]] + t)
    else
      match ReadByte(s)
      case None => None
      case Some(lead) =>
        var n := SequenceLength(lead);
        if n == 0 then None
        else
          match ReadBytes(s, n)
          case None => None
          case Some(bytes) =>
            match Utf8Decode(bytes)
            case None => None
            case Some(cp) =>
              match DecodeURIComponent(s[3 * n..])
              case None => None
              case Some(t) => Some([cp as char] + t)
  }

  lemma ReadByteOfEscape(b: int, t: string)
    requires 0 <= b < 256
    ensures ReadByte(['%', HexDigit(b / 16), HexDigit(b % 16)] + t) == Some(b)
  {
    HexValueOfDigit(b / 16);
    HexValueOfDigit(b % 16);
  }

  lemma {:induction false} ReadBytesOfEscapes(bytes: seq<int>, t: string)
    requires forall i :: 0 <= i < |bytes| ==> 0 <= bytes[i] < 256
    ensures ReadBytes(PercentBytes(bytes) + t, |bytes|) == Some(bytes)
  {
    if bytes != [] {
      var s := PercentBytes(bytes) + t;
      var head := ['%', HexDigit(bytes[0] / 16), HexDigit(bytes[0] % 16)];
      assert s == head + (PercentBytes(bytes[1..]) + t);
      ReadByteOfEscape(bytes[0], PercentBytes(bytes[1..]) + t);
      assert s[3..] == PercentBytes(bytes[1..]) + t;
      ReadBytesOfEscapes(bytes[1..], t);
      assert [bytes[0]] + bytes[1..] == bytes;
    }
  }

  /** Decoding the encoding of one character, followed by anything, gives that character first. */
  lemma DecodeEncodedChar(c: char, t: string)
    ensures DecodeURIComponent(EncodeChar(c) + t) ==
              match DecodeURIComponent(t) case None => None case Some(u) => Some([c] + u)
  {
    var s := EncodeChar(c) + t;
    if Unreserved(c) {
      assert s[0] == c && s[1..] == t;
    } else {
      DecodeEscapedChar(c, t);
    }
  }

  lemma DecodeEscapedChar(c: char, t: string)
    requires !Unreserved(c)
    ensures DecodeURIComponent(EncodeChar(c) + t) ==
              match DecodeURIComponent(t) case None => None case Some(u) => Some([c] + u)
  {
    var s := EncodeChar(c) + t;
    var bytes := Utf8(c as int);
    assert EncodeChar(c) == PercentBytes(bytes);
    Utf8RoundTrip(c as int);
    ReadByteOfEscape(bytes[0], PercentBytes(bytes[1..]) + t);
    assert s == ['%', HexDigit(bytes[0] / 16), HexDigit(bytes[0] % 16)] + (PercentBytes(bytes[1..]) + t);
    assert s[0] == '%' && ReadByte(s) == Some(bytes[0]);
    var n := SequenceLength(bytes[0]);
    assert n == |bytes| > 0;
    ReadBytesOfEscapes(bytes, t);
    assert ReadBytes(s, n) == Some(bytes);
    assert Utf8Decode(bytes) == Some(c as int);
    assert s[3 * n..] == t;
  }

  /** Decoding inverts encoding: `decodeURIComponent(encodeURIComponent(s)) == s`. */
  lemma {:induction false} DecodeEncode(s: string)
    ensures DecodeURIComponent(EncodeURIComponent(s)) == Some(s)
  {
    if s != [] {
      DecodeEncode(s[1..]);
      DecodeEncodedChar(s[0], EncodeURIComponent(s[1..]));
      assert [s[0]] + s[1..] == s;
    }
  }

  /** Encoding is one-to-one: distinct values give distinct URL text. */
  lemma EncodeInjective(s: string, t: string)
    requires EncodeURIComponent(s) == EncodeURIComponent(t)
    ensures s == t
  {
    DecodeEncode(s);
    DecodeEncode(t);
  }
}
