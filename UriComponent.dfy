/**
 * ECMA-262 encodeURIComponent over Unicode scalar values: every character
 * outside the unreserved set A-Z a-z 0-9 - _ . ! ~ * ' ( ) is written as the
 * UTF-8 bytes of its code point, each as %XX with upper-case hex digits
 * (percent-encoding, section 2.1 of RFC 3986).
 */
module UriComponent {
  import opened JsText

  type Byte = b: int | 0 <= b < 256

  /** The characters encodeURIComponent leaves as they are. */
  predicate Unreserved(c: char)
  {
    ('A' <= c <= 'Z') || ('a' <= c <= 'z') || ('0' <= c <= '9')
    || c == '-' || c == '_' || c == '.' || c == '!' || c == '~'
    || c == '*' || c == '\'' || c == '(' || c == ')'
  }

  /** The characters section 3.2.1 of RFC 3986 admits in a userinfo besides
      percent-encoded octets: unreserved, sub-delims and ':'. */
  predicate UserInfoChar(c: char)
  {
    ('A' <= c <= 'Z') || ('a' <= c <= 'z') || ('0' <= c <= '9')
    || c in "-._~" || c in "!$&'()*+,;=" || c == ':'
  }

  /** The UTF-8 encoding of one code point. */
  function Utf8(c: char): (r: seq<Byte>)
    ensures 1 <= |r| <= 4
    ensures (c as int) < 0x80 <==> |r| == 1
    ensures (c as int) < 0x80 ==> r == [c as int]
  {
    var cp := c as int;
    if cp < 0x80 then [cp]
    else if cp < 0x800 then [0xC0 + cp / 0x40, 0x80 + cp % 0x40]
    else if cp < 0x1_0000 then [0xE0 + cp / 0x1000, 0x80 + (cp / 0x40) % 0x40, 0x80 + cp % 0x40]
    else [0xF0 + cp / 0x4_0000, 0x80 + (cp / 0x1000) % 0x40, 0x80 + (cp / 0x40) % 0x40, 0x80 + cp % 0x40]
  }

  /** The code point a well-formed UTF-8 sequence of one to four bytes
      stands for: the payload bits of the lead byte, then six bits from each
      continuation byte. */
  function Utf8Value(bs: seq<Byte>): int
    requires 1 <= |bs| <= 4
  {
    var more := bs[1..];
    var b: int := bs[0];
    var lead := if |bs| == 1 then b else if |bs| == 2 then b - 0xC0
                else if |bs| == 3 then b - 0xE0 else b - 0xF0;
    Continue(lead, more)
  }

  function Continue(acc: int, more: seq<Byte>): int
    decreases |more|
  {
    if more == [] then acc else Continue(acc * 0x40 + (more[0] as int - 0x80), more[1..])
  }

  /** The lead byte announces the length, the other bytes are continuation
      bytes 10xxxxxx, and the bytes decode back to the code point. */
  lemma Utf8WellFormed(c: char)
    ensures var r := Utf8(c);
      && (|r| == 1 <==> r[0] < 0x80)
      && (|r| == 2 <==> 0xC0 <= r[0] < 0xE0)
      && (|r| == 3 <==> 0xE0 <= r[0] < 0xF0)
      && (|r| == 4 <==> 0xF0 <= r[0] < 0xF8)
      && (forall i | 1 <= i < |r| :: 0x80 <= r[i] < 0xC0)
      && Utf8Value(r) == c as int
  {
    var cp := c as int;
    var r := Utf8(c);
    if |r| == 2 {
      assert Continue(cp / 0x40, r[1..]) == Continue((cp / 0x40) * 0x40 + cp % 0x40, []);
    } else if |r| == 3 {
      assert r[1..][1..] == [r[2]];
      assert (cp / 0x1000) * 0x40 + (cp / 0x40) % 0x40 == cp / 0x40;
      assert Continue(cp / 0x1000, r[1..]) == Continue(cp / 0x40, [r[2]]);
      assert Continue(cp / 0x40, [r[2]]) == Continue((cp / 0x40) * 0x40 + cp % 0x40, []);
    } else if |r| == 4 {
      assert r[1..][1..] == [r[2], r[3]];
      assert [r[2], r[3]][1..] == [r[3]];
      assert (cp / 0x4_0000) * 0x40 + (cp / 0x1000) % 0x40 == cp / 0x1000;
      assert (cp / 0x1000) * 0x40 + (cp / 0x40) % 0x40 == cp / 0x40;
      assert Continue(cp / 0x4_0000, r[1..]) == Continue(cp / 0x1000, [r[2], r[3]]);
      assert Continue(cp / 0x1000, [r[2], r[3]]) == Continue(cp / 0x40, [r[3]]);
      assert Continue(cp / 0x40, [r[3]]) == Continue((cp / 0x40) * 0x40 + cp % 0x40, []);
    }
  }

  /** The UTF-8 encoding of a string. */
  function Utf8Of(s: string): seq<Byte>
  {
    if s == [] then [] else Utf8(s[0]) + Utf8Of(s[1..])
  }

  function HexDigit(n: int): (c: char)
    requires 0 <= n < 16
    ensures ('0' <= c <= '9') || ('A' <= c <= 'F')
  {
    if n < 10 then ('0' as int + n) as char else ('A' as int + n - 10) as char
  }

  predicate IsHexDigit(c: char)
  {
    ('0' <= c <= '9') || ('A' <= c <= 'F') || ('a' <= c <= 'f')
  }

  function HexValue(c: char): (n: int)
    requires IsHexDigit(c)
    ensures 0 <= n < 16
  {
    if '0' <= c <= '9' then c as int - '0' as int
    else if 'A' <= c <= 'F' then c as int - 'A' as int + 10
    else c as int - 'a' as int + 10
  }

  lemma HexRoundTrip(n: int)
    requires 0 <= n < 16
    ensures IsHexDigit(HexDigit(n)) && HexValue(HexDigit(n)) == n
  {
  }

  /** %XX for every byte. */
  function PercentBytes(bs: seq<Byte>): (r: string)
    ensures |r| == 3 * |bs|
    ensures forall i | 0 <= i < |r| :: r[i] == '%' || ('0' <= r[i] <= '9') || ('A' <= r[i] <= 'F')
  {
    if bs == [] then []
    else ['%', HexDigit(bs[0] / 16), HexDigit(bs[0] % 16)] + PercentBytes(bs[1..])
  }

  function EncodeChar(c: char): string
  {
    if Unreserved(c) then [c] else PercentBytes(Utf8(c))
  }

  /** encodeURIComponent: what comes out is unreserved characters and '%'
      only, and a string of unreserved characters comes out unchanged. */
  function Encode(s: string): (r: string)
    ensures forall i | 0 <= i < |r| :: Unreserved(r[i]) || r[i] == '%'
    ensures (forall i | 0 <= i < |s| :: Unreserved(s[i])) ==> r == s
  {
    if s == [] then []
    else EncodeChar(s[0]) + Encode(s[1..])
  }

  /** Nothing encodeURIComponent writes is a URI delimiter that could end a
      userinfo part early, and all of it may stand in a userinfo. */
  lemma EncodedHasNoDelimiter(s: string)
    ensures ':' !in Encode(s) && '@' !in Encode(s) && '/' !in Encode(s)
    ensures forall i | 0 <= i < |Encode(s)| :: UserInfoChar(Encode(s)[i]) || Encode(s)[i] == '%'
  {
  }

  /** Percent-decoding to octets: unreserved characters stand for their ASCII
      code, %XX for the octet XX; anything else is malformed. */
  function DecodeToBytes(e: string): Option<seq<Byte>>
  {
    if e == [] then Some([])
    else if e[0] == '%' then
      if |e| >= 3 && IsHexDigit(e[1]) && IsHexDigit(e[2]) then
        match DecodeToBytes(e[3..])
        case None => None
        case Some(rest) => Some([HexValue(e[1]) * 16 + HexValue(e[2])] + rest)
      else None
    else if Unreserved(e[0]) then
      match DecodeToBytes(e[1..])
      case None => None
      case Some(rest) => Some([e[0] as int] + rest)
    else None
  }

  /** One %XX triple in front of a decodable text decodes to its byte. */
  lemma DecodeOneByte(b: Byte, tail: string, rest: seq<Byte>)
    requires DecodeToBytes(tail) == Some(rest)
    ensures DecodeToBytes(['%', HexDigit(b / 16), HexDigit(b % 16)] + tail) == Some([b] + rest)
  {
    HexRoundTrip(b / 16);
    HexRoundTrip(b % 16);
    var e := ['%', HexDigit(b / 16), HexDigit(b % 16)] + tail;
    assert e[3..] == tail;
  }

  /** The first byte's triple, then the rest. */
  lemma PercentCons(bs: seq<Byte>, tail: string)
    requires bs != []
    ensures PercentBytes(bs) + tail
            == ['%', HexDigit(bs[0] / 16), HexDigit(bs[0] % 16)] + (PercentBytes(bs[1..]) + tail)
  {
  }

  lemma BytesCons(bs: seq<Byte>, rest: seq<Byte>)
    requires bs != []
    ensures bs + rest == [bs[0]] + (bs[1..] + rest)
  {
    assert bs == [bs[0]] + bs[1..];
    AppendAssociates([bs[0]], bs[1..], rest);
  }

  lemma {:induction false} DecodePercentBytes(bs: seq<Byte>, tail: string, rest: seq<Byte>)
    requires DecodeToBytes(tail) == Some(rest)
    ensures DecodeToBytes(PercentBytes(bs) + tail) == Some(bs + rest)
  {
    if bs != [] {
      DecodePercentBytes(bs[1..], tail, rest);
      DecodeOneByte(bs[0], PercentBytes(bs[1..]) + tail, bs[1..] + rest);
      PercentCons(bs, tail);
      BytesCons(bs, rest);
    } else {
      assert PercentBytes(bs) + tail == tail;
      assert bs + rest == rest;
    }
  }

  /** Percent-decoding the encoding gives the UTF-8 bytes of the original
      text: the encoding loses nothing. */
  lemma {:induction false} DecodeEncode(s: string)
    ensures DecodeToBytes(Encode(s)) == Some(Utf8Of(s))
  {
    if s != [] {
      DecodeEncode(s[1..]);
      var c := s[0];
      if Unreserved(c) {
        var e := Encode(s);
        assert e == [c] + Encode(s[1..]);
        assert e[1..] == Encode(s[1..]);
      } else {
        DecodePercentBytes(Utf8(c), Encode(s[1..]), Utf8Of(s[1..]));
      }
    }
  }
}
