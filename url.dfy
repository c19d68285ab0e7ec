/** The parts of Go's `net/url` the core uses: `url.Values` and `url.PathEscape`. */
module Url {

  /** `url.Values`: each key maps to the list of its values. */
  type Values = map<string, seq<string>>

  /** `Values.Set`: the key's values become exactly `[value]`. */
  function Set(v: Values, key: string, value: string): Values {
    v[key := [value]]
  }

  /** `Values.Add`: `value` is appended to the key's values. */
  function Add(v: Values, key: string, value: string): Values {
    v[key := (if key in v then v[key] else []) + [value]]
  }

  type byte = b: int | 0 <= b < 256

  /** The UTF-8 encoding of one code point. */
  function Utf8(c: char): (bs: seq<byte>)
    ensures 1 <= |bs| <= 4
    ensures c as int < 0x80 <==> |bs| == 1
    ensures |bs| == 1 ==> bs[0] == c as int
  {
    var cp := c as int;
    if cp < 0x80 then [cp]
    else if cp < 0x800 then [0xC0 + cp / 64, 0x80 + cp % 64]
    else if cp < 0x1_0000 then [0xE0 + cp / 4096, 0x80 + (cp / 64) % 64, 0x80 + cp % 64]
    else [0xF0 + (cp / 262144) % 8, 0x80 + (cp / 4096) % 64, 0x80 + (cp / 64) % 64, 0x80 + cp % 64]
  }

  /** The UTF-8 encoding of a string. */
  function Utf8String(s: string): seq<byte> {
    if |s| == 0 then [] else Utf8(s[0]) + Utf8String(s[1..])
  }

  predicate IsAlphaNum(b: byte) {
    'a' as int <= b <= 'z' as int || 'A' as int <= b <= 'Z' as int || '0' as int <= b <= '9' as int
  }

  /** Unreserved characters of section 2.3 of RFC 3986. */
  predicate IsUnreserved(b: byte) {
    IsAlphaNum(b) || b == '-' as int || b == '_' as int || b == '.' as int || b == '~' as int
  }

  /** Go's `shouldEscape(b, encodePathSegment)`: everything but the unreserved
      characters and the reserved ones a path segment may hold ($ & + : = @). */
  predicate ShouldEscape(b: byte) {
    !IsUnreserved(b)
    && b != '$' as int && b != '&' as int && b != '+' as int
    && b != ':' as int && b != '=' as int && b != '@' as int
  }

  /** An upper-case hexadecimal digit, as `url.PathEscape` writes them. */
  function HexDigit(d: int): (c: char)
    requires 0 <= d < 16
    ensures HexValue(c) == d
  {
    if d < 10 then ('0' as int + d) as char else ('A' as int + d - 10) as char
  }

  function EscapeBytes(bs: seq<byte>): string {
    if |bs| == 0 then ""
    else
      (if ShouldEscape(bs[0]) then ['%', HexDigit(bs[0] / 16), HexDigit(bs[0] % 16)]
       else [bs[0] as char])
      + EscapeBytes(bs[1..])
  }

  /** `url.PathEscape`: each byte of the UTF-8 encoding that may not appear in a
      path segment becomes `%XY`. The result never holds '/', '?' or '#', so it
      stays one path segment. */
  function PathEscape(s: string): (r: string)
    ensures forall i :: 0 <= i < |r| ==> r[i] != '/' && r[i] != '?' && r[i] != '#'
  {
    EscapeBytesSegment(Utf8String(s));
    EscapeBytes(Utf8String(s))
  }

  lemma {:induction false} EscapeBytesSegment(bs: seq<byte>)
    ensures forall i :: 0 <= i < |EscapeBytes(bs)| ==>
              EscapeBytes(bs)[i] != '/' && EscapeBytes(bs)[i] != '?' && EscapeBytes(bs)[i] != '#'
  {
    if |bs| > 0 {
      EscapeBytesSegment(bs[1..]);
    }
  }

  function HexValue(c: char): int {
    if '0' <= c <= '9' then c as int - '0' as int
    else if 'A' <= c <= 'F' then c as int - 'A' as int + 10
    else if 'a' <= c <= 'f' then c as int - 'a' as int + 10
    else 0
  }

  /** Percent-decoding (`url.PathUnescape` on well-formed input), yielding bytes. */
  function Unescape(t: string): seq<int> {
    if |t| == 0 then []
    else if t[0] == '%' && |t| >= 3 then [HexValue(t[1]) * 16 + HexValue(t[2])] + Unescape(t[3..])
    else [t[0] as int] + Unescape(t[1..])
  }

  lemma {:induction false} UnescapeEscapeBytes(bs: seq<byte>)
    ensures Unescape(EscapeBytes(bs)) == bs
  {
    if |bs| > 0 {
      var b := bs[0];
      var head := if ShouldEscape(b) then ['%', HexDigit(b / 16), HexDigit(b % 16)] else [b as char];
      var rest := EscapeBytes(bs[1..]);
      var t := EscapeBytes(bs);
      assert t == head + rest;
      UnescapeEscapeBytes(bs[1..]);
      if ShouldEscape(b) {
        assert t[0] == '%' && t[1] == HexDigit(b / 16) && t[2] == HexDigit(b % 16);
        assert t[3..] == rest;
        assert Unescape(t) == [b] + Unescape(rest);
      } else {
        assert t[0] == b as char && t[0] != '%';
        assert t[1..] == rest;
        assert Unescape(t) == [b] + Unescape(rest);
      }
      assert bs == [b] + bs[1..];
    }
  }

  /** Escaping a path segment and unescaping it gives back the UTF-8 bytes of the original. */
  lemma PathEscapeRoundTrip(s: string)
    ensures Unescape(PathEscape(s)) == Utf8String(s)
  {
    UnescapeEscapeBytes(Utf8String(s));
  }

  /** A string of unreserved ASCII characters is left as it is. */
  lemma {:induction false} PathEscapeUnreserved(s: string)
    requires forall i :: 0 <= i < |s| ==> s[i] as int < 0x80 && IsUnreserved(s[i] as int)
    ensures PathEscape(s) == s
  {
    if |s| > 0 {
      PathEscapeUnreserved(s[1..]);
      assert Utf8String(s) == [s[0] as int] + Utf8String(s[1..]);
      assert PathEscape(s) == [s[0]] + PathEscape(s[1..]);
      assert s == [s[0]] + s[1..];
    }
  }
}
