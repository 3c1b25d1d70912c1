/**
 * Percent-encoding as `urllib.parse` performs it (RFC 3986 section 2.1):
 * `quote(bytes, safe)` on the way out (listing links, the `filename*`
 * parameter) and `unquote(str, 'utf-8', 'replace')` on the way in
 * (request paths).
 */
module Percent {
  import opened Common
  import Utf8

  const Pct: byte := 0x25

  /** `urllib.parse._ALWAYS_SAFE`: ALPHA, DIGIT and `_ . - ~`. */
  predicate IsAlwaysSafe(b: byte) {
    || 0x41 <= b <= 0x5A   // A-Z
    || 0x61 <= b <= 0x7A   // a-z
    || 0x30 <= b <= 0x39   // 0-9
    || b == 0x5F || b == 0x2E || b == 0x2D || b == 0x7E   // _ . - ~
  }

  /** The bytes `quote` leaves alone: the always-safe set, plus `/` when it is in `safe`. */
  predicate Kept(b: byte, keepSlash: bool) {
    IsAlwaysSafe(b) || (keepSlash && b == 0x2F)
  }

  /** A hexadecimal digit in either case, as `unquote_to_bytes` accepts it. */
  predicate IsHexDigit(b: byte) {
    (0x30 <= b <= 0x39) || (0x41 <= b <= 0x46) || (0x61 <= b <= 0x66)
  }

  function HexValue(b: byte): (v: nat)
    requires IsHexDigit(b)
    ensures v < 16
  {
    if b <= 0x39 then b - 0x30 else if b <= 0x46 then b - 0x41 + 10 else b - 0x61 + 10
  }

  /** The upper-case hexadecimal digit `quote` writes for `v`. */
  function UpperHex(v: nat): (c: char)
    requires v < 16
    ensures IsAsciiChar(c) && IsHexDigit(c as int) && HexValue(c as int) == v
  {
    if v < 10 then (0x30 + v) as char else (0x41 + v - 10) as char
  }

  function QuoteByte(b: byte, keepSlash: bool): (r: string)
  {
    if Kept(b, keepSlash) then [b as char] else ['%', UpperHex(b / 16), UpperHex(b % 16)]
  }

  /**
   * `quote(bs, safe)` with `safe` either `'/'` (the default, `keepSlash`)
   * or `''`.  Every output character is ASCII: a kept byte, a `%`, or an
   * upper-case hexadecimal digit.
   */
  function Quote(bs: seq<byte>, keepSlash: bool): (r: string)
    ensures forall i :: 0 <= i < |r| ==>
      (IsAsciiChar(r[i]) && (Kept(r[i] as int, keepSlash) || r[i] == '%' || IsHexDigit(r[i] as int)))
  {
    if bs == [] then [] else QuoteByte(bs[0], keepSlash) + Quote(bs[1..], keepSlash)
  }

  /**
   * `unquote_to_bytes`: each `%` followed by two hexadecimal digits becomes
   * the byte they spell; every other byte, a lone `%` included, is kept.
   */
  function UnquoteBytes(bs: seq<byte>): (r: seq<byte>)
    ensures |r| <= |bs|
  {
    if bs == [] then []
    else if bs[0] == Pct && |bs| >= 3 && IsHexDigit(bs[1]) && IsHexDigit(bs[2]) then
      [16 * HexValue(bs[1]) + HexValue(bs[2])] + UnquoteBytes(bs[3..])
    else [bs[0]] + UnquoteBytes(bs[1..])
  }

  /** Length of the longest all-ASCII prefix of `s`. */
  function AsciiRun(s: string): (k: nat)
    ensures k <= |s|
    ensures forall i :: 0 <= i < k ==> IsAsciiChar(s[i])
    ensures k < |s| ==> !IsAsciiChar(s[k])
  {
    if s == [] || !IsAsciiChar(s[0]) then 0 else 1 + AsciiRun(s[1..])
  }

  /**
   * `unquote(s, encoding='utf-8', errors='replace')`: every maximal run of
   * ASCII characters is percent-decoded to bytes and those bytes decoded as
   * UTF-8 with replacement; non-ASCII characters are kept as they are.
   */
  function Unquote(s: string): string
  {
    if s == [] then []
    else if !IsAsciiChar(s[0]) then [s[0]] + Unquote(s[1..])
    else
      var k := AsciiRun(s);
      Utf8.Decode(UnquoteBytes(AsciiBytes(s[..k]))) + Unquote(s[k..])
  }

  lemma QuoteAppend(a: seq<byte>, b: seq<byte>, keepSlash: bool)
    ensures Quote(a + b, keepSlash) == Quote(a, keepSlash) + Quote(b, keepSlash)
  {
    if a != [] {
      assert (a + b)[0] == a[0] && (a + b)[1..] == a[1..] + b;
      QuoteAppend(a[1..], b, keepSlash);
      calc {
        Quote(a + b, keepSlash);
        QuoteByte(a[0], keepSlash) + Quote(a[1..] + b, keepSlash);
        QuoteByte(a[0], keepSlash) + (Quote(a[1..], keepSlash) + Quote(b, keepSlash));
      }
    } else {
      assert a + b == b;
    }
  }

  lemma AsciiBytesAppend(a: string, b: string)
    requires forall i :: 0 <= i < |a| ==> IsAsciiChar(a[i])
    requires forall i :: 0 <= i < |b| ==> IsAsciiChar(b[i])
    ensures AsciiBytes(a + b) == AsciiBytes(a) + AsciiBytes(b)
  {
  }

  /** Decoding the encoding of one byte followed by anything yields that byte first. */
  lemma UnquoteBytesQuoteByte(b: byte, keepSlash: bool, rest: seq<byte>)
    ensures var q := QuoteByte(b, keepSlash);
      UnquoteBytes(AsciiBytes(q) + rest) == [b] + UnquoteBytes(rest)
  {
    var q := QuoteByte(b, keepSlash);
    var e := AsciiBytes(q) + rest;
    if Kept(b, keepSlash) {
      assert e[0] == b && e[0] != Pct;
      assert e[1..] == rest;
    } else {
      var h, l := UpperHex(b / 16), UpperHex(b % 16);
      assert e[0] == Pct && e[1] == h as int && e[2] == l as int;
      assert e[3..] == rest;
    }
  }

  /** Percent-decoding undoes percent-encoding, byte for byte. */
  lemma {:induction false} UnquoteBytesQuote(bs: seq<byte>, keepSlash: bool)
    ensures UnquoteBytes(AsciiBytes(Quote(bs, keepSlash))) == bs
  {
    if bs != [] {
      var q0 := QuoteByte(bs[0], keepSlash);
      var rest := Quote(bs[1..], keepSlash);
      AsciiBytesAppend(q0, rest);
      UnquoteBytesQuoteByte(bs[0], keepSlash, AsciiBytes(rest));
      UnquoteBytesQuote(bs[1..], keepSlash);
    }
  }

  lemma UnquoteAllAscii(s: string)
    requires forall i :: 0 <= i < |s| ==> IsAsciiChar(s[i])
    ensures Unquote(s) == Utf8.Decode(UnquoteBytes(AsciiBytes(s)))
  {
    if s != [] {
      assert AsciiRun(s) == |s|;
      assert s[..|s|] == s && s[|s|..] == [];
    }
  }

  /**
   * A string sent out as a percent-encoded UTF-8 link comes back unchanged
   * through `unquote`: the listing's links decode to the names they were
   * built from.
   */
  lemma UnquoteQuote(s: string, keepSlash: bool)
    ensures Unquote(Quote(Utf8.Encode(s), keepSlash)) == s
  {
    var q := Quote(Utf8.Encode(s), keepSlash);
    UnquoteAllAscii(q);
    UnquoteBytesQuote(Utf8.Encode(s), keepSlash);
    Utf8.DecodeEncode(s);
  }

  /** An escaped dot, `%2e` or `%2E`, percent-decodes to the byte of `.`. */
  lemma UnquoteBytesEscapedDot(x: byte, rest: seq<byte>)
    requires x == 0x45 || x == 0x65
    ensures UnquoteBytes([Pct, 0x32, x] + rest) == [0x2E] + UnquoteBytes(rest)
  {
    assert ([Pct, 0x32, x] + rest)[3..] == rest;
  }

  lemma UnquoteBytesPlain(b: byte, rest: seq<byte>)
    requires b != Pct
    ensures UnquoteBytes([b] + rest) == [b] + UnquoteBytes(rest)
  {
    assert ([b] + rest)[1..] == rest;
  }

  /** `%2e` (in either case) decodes to a dot, so the parent-directory check sees `..` in `/%2e%2e/`. */
  lemma UnquoteEncodedDots(s: string)
    requires |s| == 8 && s[0] == '/' && s[1] == '%' && s[2] == '2' && s[4] == '%' && s[5] == '2' && s[7] == '/'
    requires (s[3] == 'e' || s[3] == 'E') && (s[6] == 'e' || s[6] == 'E')
    ensures Unquote(s) == "/../"
  {
    assert forall i :: 0 <= i < |s| ==> IsAsciiChar(s[i]);
    var dots: seq<byte> := [0x2F, 0x2E, 0x2E, 0x2F];
    UnquoteBytesEncodedDots(AsciiBytes(s));
    Utf8.DecodeAscii(dots);
    UnquoteAsciiVia(s, dots, "/../");
  }

  lemma UnquoteBytesEncodedDots(bs: seq<byte>)
    requires |bs| == 8 && bs[0] == 0x2F && bs[1] == Pct && bs[2] == 0x32 && bs[4] == Pct && bs[5] == 0x32 && bs[7] == 0x2F
    requires (bs[3] == 0x45 || bs[3] == 0x65) && (bs[6] == 0x45 || bs[6] == 0x65)
    ensures UnquoteBytes(bs) == [0x2F, 0x2E, 0x2E, 0x2F]
  {
    var tail: seq<byte> := [0x2F];
    var second := [Pct, 0x32, bs[6]] + tail;
    var first := [Pct, 0x32, bs[3]] + second;
    assert bs == [0x2F] + first;
    UnquoteBytesPlain(0x2F, []);
    UnquoteBytesEscapedDot(bs[6], tail);
    UnquoteBytesEscapedDot(bs[3], second);
    UnquoteBytesPlain(0x2F, first);
  }

  /** An all-ASCII string decodes through its bytes. */
  lemma UnquoteAsciiVia(s: string, bs: seq<byte>, text: string)
    requires forall i :: 0 <= i < |s| ==> IsAsciiChar(s[i])
    requires UnquoteBytes(AsciiBytes(s)) == bs && Utf8.Decode(bs) == text
    ensures Unquote(s) == text
  {
    UnquoteAllAscii(s);
  }

  /**
   * The `value-chars` production of RFC 8187 section 3.2.1: a sequence of
   * `attr-char`s and `%` HEXDIG HEXDIG triples.
   */
  predicate IsAttrChar(c: char) {
    || ('A' <= c <= 'Z') || ('a' <= c <= 'z') || ('0' <= c <= '9')
    || c in "!#$&+-.^_`|~"
  }

  predicate ValueChars(s: string)
    decreases |s|
  {
    s == [] ||
    (if s[0] == '%' then
       |s| >= 3 && IsAsciiChar(s[1]) && IsHexDigit(s[1] as int)
       && IsAsciiChar(s[2]) && IsHexDigit(s[2] as int) && ValueChars(s[3..])
     else IsAttrChar(s[0]) && ValueChars(s[1..]))
  }

  /** With an empty `safe`, `quote` produces a valid RFC 8187 extended value. */
  lemma {:induction false} QuoteIsValueChars(bs: seq<byte>)
    ensures ValueChars(Quote(bs, false))
  {
    if bs != [] {
      var q0 := QuoteByte(bs[0], false);
      var rest := Quote(bs[1..], false);
      QuoteIsValueChars(bs[1..]);
      var q := q0 + rest;
      if Kept(bs[0], false) {
        assert q[1..] == rest;
      } else {
        assert q[3..] == rest;
      }
    }
  }
}
