/**
 * The `Content-Disposition` header of a download: the sanitised file name,
 * the two-part header built from it, and the `except` fallback taken when
 * `send_header` cannot write that header as Latin-1.
 */
module Attachment {
  import opened Common
  import Utf8
  import Percent

  predicate IsAsciiAlnum(c: char) {
    ('A' <= c <= 'Z') || ('a' <= c <= 'z') || ('0' <= c <= '9')
  }

  /** Python's `\w` on a `str` pattern: `_` or a character `str.isalnum` accepts. */
  predicate IsWordChar(c: char, unicodeAlnum: char -> bool) {
    IsAsciiAlnum(c) || c == '_' || (!IsAsciiChar(c) && unicodeAlnum(c))
  }

  /** The class `[\w\-_.()一-鿿]` the download name is restricted to. */
  predicate IsFilenameChar(c: char, unicodeAlnum: char -> bool) {
    || IsWordChar(c, unicodeAlnum)
    || c == '-' || c == '_' || c == '.' || c == '(' || c == ')'
    || ('一' <= c <= '鿿')
  }

  /** `re.sub(r'[^\w\-_.()一-鿿]', '_', filename)` */
  function SafeFilename(name: string, unicodeAlnum: char -> bool): (r: string)
    ensures |r| == |name|
    ensures forall i :: 0 <= i < |r| ==> IsFilenameChar(r[i], unicodeAlnum)
  {
    if name == [] then []
    else
      [if IsFilenameChar(name[0], unicodeAlnum) then name[0] else '_']
      + SafeFilename(name[1..], unicodeAlnum)
  }

  /**
   * The sanitised name keeps every allowed character where it was and puts
   * `_` in place of each other one; in particular it holds no quote, line
   * break, `;`, `\` or `/` that could break the header; and sanitising twice
   * is sanitising once.
   */
  lemma {:induction false} SafeFilenameSpec(name: string, unicodeAlnum: char -> bool)
    ensures var r := SafeFilename(name, unicodeAlnum);
      && (forall i :: 0 <= i < |name| ==>
            r[i] == (if IsFilenameChar(name[i], unicodeAlnum) then name[i] else '_'))
      && (forall i :: 0 <= i < |r| ==> r[i] !in "\"\r\n;\\/")
      && SafeFilename(r, unicodeAlnum) == r
  {
    if name != [] {
      SafeFilenameSpec(name[1..], unicodeAlnum);
      var r := SafeFilename(name, unicodeAlnum);
      var t := SafeFilename(name[1..], unicodeAlnum);
      assert r[1..] == t;
      forall i | 0 <= i < |name| ensures
        r[i] == (if IsFilenameChar(name[i], unicodeAlnum) then name[i] else '_')
      {
        if i > 0 { assert r[i] == t[i - 1] && name[i] == name[1..][i - 1]; }
      }
      forall i | 0 <= i < |r| ensures r[i] !in "\"\r\n;\\/" {
        assert IsFilenameChar(r[i], unicodeAlnum);
      }
    }
  }

  const DispositionPrefix: string := "attachment; filename=\""
  const ExtendedPrefix: string := "\"; filename*=UTF-8''"
  const ClosingQuote: string := "\""

  /**
   * `attachment; filename="<safe>"; filename*=UTF-8''<quoted>`: the plain
   * name for older clients and the RFC 8187 extended value, percent-encoded
   * UTF-8 with nothing left unescaped but the `attr-char`s, for newer ones
   * (section 4.3 of RFC 6266).
   */
  function ContentDisposition(safe: string): string {
    DispositionPrefix + safe + ExtendedPrefix + Percent.Quote(Utf8.Encode(safe), false)
  }

  /**
   * The header splits back into its two parts: the quoted name is the
   * sanitised name, and the extended value is a valid `value-chars` string
   * that percent-decodes to that same name.
   */
  lemma ContentDispositionParts(safe: string)
    ensures var h := ContentDisposition(safe);
      var pre := DispositionPrefix;
      var ext := h[|pre| + |safe| + |ExtendedPrefix|..];
      && StartsWith(h, pre)
      && h[|pre|..|pre| + |safe|] == safe
      && h[|pre| + |safe|..|pre| + |safe| + |ExtendedPrefix|] == ExtendedPrefix
      && Percent.ValueChars(ext)
      && Percent.Unquote(ext) == safe
  {
    var q := Percent.Quote(Utf8.Encode(safe), false);
    ConcatParts(DispositionPrefix, safe, ExtendedPrefix, q);
    Percent.QuoteIsValueChars(Utf8.Encode(safe));
    Percent.UnquoteQuote(safe, false);
  }

  lemma ConcatParts(a: string, b: string, c: string, d: string)
    ensures var h := a + b + c + d;
      && h[..|a|] == a
      && h[|a|..|a| + |b|] == b
      && h[|a| + |b|..|a| + |b| + |c|] == c
      && h[|a| + |b| + |c|..] == d
  {
  }

  // ---------------------------------------------------------------------
  // What `send_header` can write
  // ---------------------------------------------------------------------

  /**
   * A header value `send_header` can write: it encodes each header line
   * as Latin-1 and raises for any character beyond U+00FF.
   */
  predicate IsLatin1(s: string) {
    forall i :: 0 <= i < |s| ==> s[i] as int < 0x100
  }

  predicate IsAscii(s: string) {
    forall i :: 0 <= i < |s| ==> IsAsciiChar(s[i])
  }

  lemma Latin1Concat(a: string, b: string)
    ensures IsLatin1(a + b) <==> IsLatin1(a) && IsLatin1(b)
  {
    if IsLatin1(a + b) {
      assert forall i :: 0 <= i < |a| ==> a[i] == (a + b)[i];
      assert forall i :: 0 <= i < |b| ==> b[i] == (a + b)[|a| + i];
    }
  }

  lemma FixedPartsAscii()
    ensures IsAscii(DispositionPrefix) && IsAscii(ExtendedPrefix) && IsAscii(ClosingQuote)
  {
  }

  /** The percent-encoded extended value is ASCII whatever the name. */
  lemma QuotedIsAscii(safe: string)
    ensures IsAscii(Percent.Quote(Utf8.Encode(safe), false))
  {
  }

  /** The two-part header is writable exactly when the sanitised name is. */
  lemma ContentDispositionLatin1(safe: string)
    ensures IsLatin1(ContentDisposition(safe)) <==> IsLatin1(safe)
  {
    FixedPartsAscii();
    QuotedIsAscii(safe);
    Latin1Concat(DispositionPrefix, safe);
    Latin1Concat(DispositionPrefix + safe, ExtendedPrefix);
    Latin1Concat(DispositionPrefix + safe + ExtendedPrefix, Percent.Quote(Utf8.Encode(safe), false));
  }

  // ---------------------------------------------------------------------
  // The `except` fallback
  // ---------------------------------------------------------------------

  /** `s.encode('ascii', 'ignore').decode('ascii')`: the ASCII characters of `s`, in order. */
  function AsciiPart(s: string): (r: string)
    ensures |r| <= |s|
    ensures IsAscii(r)
  {
    if s == [] then []
    else (if IsAsciiChar(s[0]) then [s[0]] else []) + AsciiPart(s[1..])
  }

  /** Dropping the non-ASCII characters works piece by piece. */
  lemma {:induction false} AsciiPartAppend(a: string, b: string)
    ensures AsciiPart(a + b) == AsciiPart(a) + AsciiPart(b)
  {
    if a != [] {
      AsciiPartAppend(a[1..], b);
      var head := if IsAsciiChar(a[0]) then [a[0]] else [];
      assert (a + b)[0] == a[0] && (a + b)[1..] == a[1..] + b;
      assert AsciiPart(a + b) == head + AsciiPart(a[1..] + b);
      assert AsciiPart(a) == head + AsciiPart(a[1..]);
    } else {
      assert a + b == b;
    }
  }

  /** A string is left unchanged exactly when it is all ASCII. */
  lemma {:induction false} AsciiPartKeeps(a: string)
    ensures AsciiPart(a) == a <==> IsAscii(a)
  {
    if a != [] {
      AsciiPartKeeps(a[1..]);
      if IsAsciiChar(a[0]) {
        assert IsAscii(a) <==> IsAscii(a[1..]) by {
          if IsAscii(a[1..]) {
            forall i | 0 <= i < |a| ensures IsAsciiChar(a[i]) {
              if i > 0 { assert a[i] == a[1..][i - 1]; }
            }
          }
        }
      } else {
        assert |AsciiPart(a)| <= |a[1..]| < |a|;
      }
    }
  }

  /** One non-ASCII character after an ASCII stretch disappears. */
  lemma AsciiPartDrop(a: string, c: char, b: string)
    requires IsAscii(a) && !IsAsciiChar(c)
    ensures AsciiPart(a + ([c] + b)) == a + AsciiPart(b)
  {
    AsciiPartAppend(a, [c] + b);
    AsciiPartKeeps(a);
    AsciiPartSkip(c, b);
  }

  lemma AsciiPartSkip(c: char, b: string)
    requires !IsAsciiChar(c)
    ensures AsciiPart([c] + b) == AsciiPart(b)
  {
    assert ([c] + b)[0] == c && ([c] + b)[1..] == b;
  }

  /**
   * The `except` branch: `attachment; filename="<ascii>"`, with `<ascii>`
   * the ASCII characters of the unsanitised name and no extended value.
   */
  function FallbackDisposition(name: string): string {
    DispositionPrefix + AsciiPart(name) + ClosingQuote
  }

  /**
   * The `Content-Disposition` value `send_file` sends for a download of
   * `name`: the two-part header when `send_header` can write it, the
   * `except` branch otherwise.
   */
  function Disposition(name: string, unicodeAlnum: char -> bool): (d: string)
    ensures IsLatin1(d)
  {
    var h := ContentDisposition(SafeFilename(name, unicodeAlnum));
    if IsLatin1(h) then h else FallbackLatin1(name); FallbackDisposition(name)
  }

  lemma FallbackLatin1(name: string)
    ensures IsLatin1(FallbackDisposition(name))
  {
    FixedPartsAscii();
    Latin1Concat(DispositionPrefix, AsciiPart(name));
    Latin1Concat(DispositionPrefix + AsciiPart(name), ClosingQuote);
  }

  /**
   * The header sent is always writable.  It is the two-part header exactly
   * when the sanitised name is Latin-1; otherwise it is the fallback, whose
   * name is the unsanitised name's ASCII characters.
   */
  lemma DispositionSpec(name: string, unicodeAlnum: char -> bool)
    ensures var safe := SafeFilename(name, unicodeAlnum);
      var d := Disposition(name, unicodeAlnum);
      && IsLatin1(d)
      && (IsLatin1(safe) ==> d == ContentDisposition(safe))
      && (!IsLatin1(safe) ==> d == FallbackDisposition(name))
  {
    ContentDispositionLatin1(SafeFilename(name, unicodeAlnum));
  }

  /**
   * A name with a CJK character, which the sanitiser keeps, cannot be
   * written as Latin-1; the fallback then drops every non-ASCII character,
   * so `报告.bin` is offered as `.bin`.
   */
  lemma CjkNameLost(unicodeAlnum: char -> bool)
    ensures Disposition("报告.bin", unicodeAlnum) == DispositionPrefix + ".bin" + ClosingQuote
  {
    CjkKeptBySanitiser("报告.bin", unicodeAlnum);
    FallbackTaken("报告.bin", unicodeAlnum);
    CjkAsciiPart();
  }

  /**
   * The fallback name is not sanitised: a quote and a `;` of the name end
   * up inside the quoted `filename` parameter.
   */
  lemma FallbackKeepsQuote(unicodeAlnum: char -> bool)
    ensures Disposition("a\"b;报.bin", unicodeAlnum) == DispositionPrefix + "a\"b;.bin" + ClosingQuote
  {
    CjkKeptBySanitiser("a\"b;报.bin", unicodeAlnum);
    FallbackTaken("a\"b;报.bin", unicodeAlnum);
    QuoteAsciiPart();
  }

  /**
   * Nor is it checked for line breaks: a CR LF in the name reaches the
   * header line unchanged, so `报\r\nX: y.bin` ends the header early and
   * starts a header `X` of its own.
   */
  lemma FallbackKeepsLineBreak(unicodeAlnum: char -> bool)
    ensures var d := Disposition("报\r\nX: y.bin", unicodeAlnum);
      && d == DispositionPrefix + "\r\nX: y.bin" + ClosingQuote
      && d[|DispositionPrefix|] == '\r' && d[|DispositionPrefix| + 1] == '\n'
  {
    CjkKeptBySanitiser("报\r\nX: y.bin", unicodeAlnum);
    FallbackTaken("报\r\nX: y.bin", unicodeAlnum);
    LineBreakAsciiPart();
  }

  /** The character at index 0 or 4 of the name is CJK, and the sanitiser keeps it. */
  lemma CjkKeptBySanitiser(name: string, unicodeAlnum: char -> bool)
    requires name == "报告.bin" || name == "a\"b;报.bin" || name == "报\r\nX: y.bin"
    ensures !IsLatin1(SafeFilename(name, unicodeAlnum))
  {
    var safe := SafeFilename(name, unicodeAlnum);
    SafeFilenameSpec(name, unicodeAlnum);
    var i := if name == "a\"b;报.bin" then 4 else 0;
    assert IsFilenameChar(name[i], unicodeAlnum);
    assert safe[i] as int >= 0x100;
  }

  lemma FallbackTaken(name: string, unicodeAlnum: char -> bool)
    requires !IsLatin1(SafeFilename(name, unicodeAlnum))
    ensures Disposition(name, unicodeAlnum) == FallbackDisposition(name)
  {
    ContentDispositionLatin1(SafeFilename(name, unicodeAlnum));
  }

  lemma CjkAsciiPart()
    ensures AsciiPart("报告.bin") == ".bin"
  {
    assert "报告.bin" == [] + (['报'] + ([] + (['告'] + ".bin")));
    AsciiPartDrop([], '报', [] + (['告'] + ".bin"));
    AsciiPartDrop([], '告', ".bin");
    AsciiPartKeeps(".bin");
  }

  lemma QuoteAsciiPart()
    ensures AsciiPart("a\"b;报.bin") == "a\"b;.bin"
  {
    var a, b := "a\"b;", ".bin";
    assert "a\"b;报.bin" == a + (['报'] + b);
    assert IsAscii(a);
    AsciiPartDrop(a, '报', b);
    AsciiPartKeeps(b);
    assert a + b == "a\"b;.bin";
  }

  lemma LineBreakAsciiPart()
    ensures AsciiPart("报\r\nX: y.bin") == "\r\nX: y.bin"
  {
    var b := "\r\nX: y.bin";
    assert "报\r\nX: y.bin" == [] + (['报'] + b);
    assert IsAscii(b);
    AsciiPartDrop([], '报', b);
    AsciiPartKeeps(b);
  }

  // ---------------------------------------------------------------------
  // The header the fallback evidently intends
  // ---------------------------------------------------------------------

  /** Characters `send_header` cannot write become `_`. */
  function Latin1Fold(s: string): (r: string)
    ensures |r| == |s|
    ensures IsLatin1(r)
  {
    seq(|s|, i requires 0 <= i < |s| => if s[i] as int < 0x100 then s[i] else '_')
  }

  /**
   * A plain `filename` that `send_header` can write, and the extended
   * value that carries the whole sanitised name.
   */
  function IntendedDisposition(name: string, unicodeAlnum: char -> bool): (h: string)
    ensures IsLatin1(h)
  {
    var safe := SafeFilename(name, unicodeAlnum);
    IntendedLatin1(safe);
    DispositionPrefix + Latin1Fold(safe) + ExtendedPrefix + Percent.Quote(Utf8.Encode(safe), false)
  }

  /**
   * The intended header is always writable; its plain name holds no quote,
   * line break, `;`, `\` or `/`; its extended value percent-decodes to the
   * sanitised name whatever characters that has; and it is what is sent
   * today whenever the sanitised name is Latin-1.
   */
  lemma IntendedDispositionSpec(name: string, unicodeAlnum: char -> bool)
    ensures var safe := SafeFilename(name, unicodeAlnum);
      var h := IntendedDisposition(name, unicodeAlnum);
      var plain := Latin1Fold(safe);
      var ext := h[|DispositionPrefix| + |plain| + |ExtendedPrefix|..];
      && IsLatin1(h)
      && h[..|DispositionPrefix|] == DispositionPrefix
      && h[|DispositionPrefix|..|DispositionPrefix| + |plain|] == plain
      && (forall i :: 0 <= i < |plain| ==> plain[i] !in "\"\r\n;\\/")
      && Percent.ValueChars(ext)
      && Percent.Unquote(ext) == safe
      && (IsLatin1(safe) ==> h == Disposition(name, unicodeAlnum))
  {
    var safe := SafeFilename(name, unicodeAlnum);
    IntendedLatin1(safe);
    IntendedParts(safe);
    PlainNameSafe(name, unicodeAlnum);
    if IsLatin1(safe) {
      FoldKeepsLatin1(safe);
      ContentDispositionLatin1(safe);
    }
  }

  lemma IntendedLatin1(safe: string)
    ensures IsLatin1(DispositionPrefix + Latin1Fold(safe) + ExtendedPrefix + Percent.Quote(Utf8.Encode(safe), false))
  {
    var plain := Latin1Fold(safe);
    FixedPartsAscii();
    QuotedIsAscii(safe);
    Latin1Concat(DispositionPrefix, plain);
    Latin1Concat(DispositionPrefix + plain, ExtendedPrefix);
    Latin1Concat(DispositionPrefix + plain + ExtendedPrefix, Percent.Quote(Utf8.Encode(safe), false));
  }

  lemma IntendedParts(safe: string)
    ensures var plain := Latin1Fold(safe);
      var h := DispositionPrefix + plain + ExtendedPrefix + Percent.Quote(Utf8.Encode(safe), false);
      var ext := h[|DispositionPrefix| + |plain| + |ExtendedPrefix|..];
      && h[..|DispositionPrefix|] == DispositionPrefix
      && h[|DispositionPrefix|..|DispositionPrefix| + |plain|] == plain
      && Percent.ValueChars(ext)
      && Percent.Unquote(ext) == safe
  {
    var q := Percent.Quote(Utf8.Encode(safe), false);
    ConcatParts(DispositionPrefix, Latin1Fold(safe), ExtendedPrefix, q);
    Percent.QuoteIsValueChars(Utf8.Encode(safe));
    Percent.UnquoteQuote(safe, false);
  }

  lemma PlainNameSafe(name: string, unicodeAlnum: char -> bool)
    ensures var plain := Latin1Fold(SafeFilename(name, unicodeAlnum));
      forall i :: 0 <= i < |plain| ==> plain[i] !in "\"\r\n;\\/"
  {
    SafeFilenameSpec(name, unicodeAlnum);
  }

  lemma FoldKeepsLatin1(s: string)
    requires IsLatin1(s)
    ensures Latin1Fold(s) == s
  {
  }
}
