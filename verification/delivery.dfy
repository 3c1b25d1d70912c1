/**
 * Serving one regular file (`send_file`): the content type, whether the
 * file is shown inline or offered as a download, the response headers,
 * and the body — transcoded to UTF-8 for inline text, streamed in 8192-byte
 * chunks otherwise.
 */
module Delivery {
  import opened Common
  import Utf8
  import Percent
  import PosixPath
  import Resolver
  import Charset
  import opened Mime
  import opened Attachment

  /**
   * What the model takes from outside: the MIME defaults, Unicode's
   * `str.isalnum` for non-ASCII characters, the encoding detector and the
   * codecs.
   */
  datatype Oracles = Oracles(
    mime: MimeTable,
    unicodeAlnum: char -> bool,
    detect: Charset.Detector,
    codec: Charset.Codec)

  /**
   * `self.path.split('?')[1] if '?' in self.path else ''`: the text between
   * the first `?` and the second one (or the end).
   */
  function QueryField(raw: string): (q: string)
    ensures '?' !in q
  {
    match Resolver.FirstQuestionMark(raw)
    case None => ""
    case Some(i) => Resolver.PathPart(raw[i + 1..])
  }

  predicate DownloadRequested(raw: string) {
    Contains(QueryField(raw), "download=true")
  }

  /** A download (`Content-Disposition: attachment`) rather than an inline view. */
  predicate IsAttachment(path: string, raw: string, o: Oracles) {
    !IsText(ContentType(path, o.mime)) || DownloadRequested(raw)
  }

  // ---------------------------------------------------------------------
  // Headers
  // ---------------------------------------------------------------------

  datatype Header = Header(name: string, value: string)

  /** The value of the first header called `name`. */
  function Lookup(headers: seq<Header>, name: string): (v: Option<string>)
    ensures v.None? <==> forall i :: 0 <= i < |headers| ==> headers[i].name != name
    ensures v.Some? ==> exists i :: 0 <= i < |headers| && headers[i] == Header(name, v.value)
  {
    if headers == [] then None
    else if headers[0].name == name then Some(headers[0].value)
    else
      var v := Lookup(headers[1..], name);
      assert forall i :: 1 <= i < |headers| ==> headers[i] == headers[1..][i - 1];
      v
  }

  lemma LookupCons(h: Header, rest: seq<Header>, name: string)
    ensures Lookup([h] + rest, name) == if h.name == name then Some(h.value) else Lookup(rest, name)
  {
    assert ([h] + rest)[1..] == rest;
  }

  /** The three CORS headers a file response and the OPTIONS answer carry. */
  const CorsHeaders: seq<Header> := [
    Header("Access-Control-Allow-Origin", "*"),
    Header("Access-Control-Allow-Methods", "GET, OPTIONS"),
    Header("Access-Control-Allow-Headers", "*")]

  function DigitChar(d: nat): (c: char)
    requires d < 10
    ensures '0' <= c <= '9'
  {
    (d + 0x30) as char
  }

  /** `str(n)` for a natural number. */
  function Decimal(n: nat): (s: string)
    ensures |s| >= 1
    ensures forall i :: 0 <= i < |s| ==> '0' <= s[i] <= '9'
  {
    if n < 10 then [DigitChar(n)] else Decimal(n / 10) + [DigitChar(n % 10)]
  }

  /** `int(s)` for a string of decimal digits. */
  function ParseDecimal(s: string): nat
    requires forall i :: 0 <= i < |s| ==> '0' <= s[i] <= '9'
  {
    if s == [] then 0
    else 10 * ParseDecimal(s[..|s| - 1]) + (s[|s| - 1] as int - 0x30)
  }

  /** A client reading `Content-Length` back gets the number that was written. */
  lemma {:induction false} ParseDecimalOf(n: nat)
    ensures ParseDecimal(Decimal(n)) == n
  {
    if n >= 10 {
      var s := Decimal(n);
      assert s[..|s| - 1] == Decimal(n / 10);
      ParseDecimalOf(n / 10);
    }
  }

  /**
   * The headers `send_file` writes, in order, for content type `ct`: the
   * disposition for a download, the content type (with `; charset=utf-8`
   * for an inline view), the length, then CORS.
   */
  function HeaderList(ct: string, attachment: bool, disposition: string, length: nat): seq<Header> {
    if attachment then
      [Header("Content-Disposition", disposition),
       Header("Content-type", ct),
       Header("Content-Length", Decimal(length))] + CorsHeaders
    else
      [Header("Content-type", ct + "; charset=utf-8"),
       Header("Content-Length", Decimal(length))] + CorsHeaders
  }

  /** The headers for the file at `path`, given the Content-Length announced. */
  function FileHeaders(path: string, length: nat, raw: string, o: Oracles): seq<Header> {
    HeaderList(ContentType(path, o.mime), IsAttachment(path, raw, o),
               Disposition(PosixPath.Basename(path), o.unicodeAlnum), length)
  }

  /**
   * The body `send_file` writes: for an inline view the whole file passed
   * through `convert_to_utf8` with the detected encoding; for a download
   * the file's bytes.
   */
  function FileBody(path: string, content: seq<byte>, raw: string, o: Oracles): seq<byte> {
    if IsAttachment(path, raw, o) then content
    else Charset.ConvertToUtf8(content, Charset.DetectEncoding(content, o.detect), o.codec)
  }

  datatype FileReply = FileReply(headers: seq<Header>, body: seq<byte>)

  /** The reply as `send_file` builds it: `Content-Length` is the size on disk. */
  function PlanFileAsWritten(path: string, content: seq<byte>, raw: string, o: Oracles): (r: FileReply)
    ensures Lookup(r.headers, "Content-Length") == Some(Decimal(|content|))
  {
    FileHeadersSpec(path, |content|, raw, o);
    FileReply(FileHeaders(path, |content|, raw, o), FileBody(path, content, raw, o))
  }

  /** The reply with `Content-Length` counting the bytes actually sent. */
  function PlanFile(path: string, content: seq<byte>, raw: string, o: Oracles): (r: FileReply)
    ensures Lookup(r.headers, "Content-Length") == Some(Decimal(|r.body|))
  {
    var body := FileBody(path, content, raw, o);
    FileHeadersSpec(path, |body|, raw, o);
    FileReply(FileHeaders(path, |body|, raw, o), body)
  }

  /**
   * With `Content-Length` taken from the size on disk, a transcoded inline
   * view announces fewer bytes than it sends: a one-byte Latin-1 file
   * holding `é` is sent as the two UTF-8 bytes of `é` under
   * `Content-Length: 1`.
   */
  lemma ContentLengthMismatch()
    ensures var o := LatinOracles();
      var r := PlanFileAsWritten("/a.txt", [0xE9], "/a.txt", o);
      && r.body == [0xC3, 0xA9]
      && Lookup(r.headers, "Content-Length") == Some("1")
      && Lookup(r.headers, "Content-Length") != Some(Decimal(|r.body|))
  {
    LatinBody();
    assert Decimal(1) == "1" && Decimal(2) == "2";
  }

  /** The inline view of the one-byte Latin-1 file is the UTF-8 encoding of `é`. */
  lemma LatinBody()
    ensures FileBody("/a.txt", [0xE9], "/a.txt", LatinOracles()) == [0xC3, 0xA9]
  {
    var o := LatinOracles();
    LatinViewIsInline(o);
    LatinDetected(o.detect);
    LatinConverted(o.codec);
  }

  lemma LatinDetected(detect: Charset.Detector)
    requires detect([0xE9]) == Charset.Guess(Some("ISO-8859-1"), 0.73)
    ensures Charset.DetectEncoding([0xE9], detect) == Some("ISO-8859-1")
  {
    assert Charset.Sample([0xE9]) == [0xE9];
  }

  lemma LatinConverted(codec: Charset.Codec)
    requires codec("ISO-8859-1", [0xE9]) == Some("é")
    ensures Charset.ConvertToUtf8([0xE9], Some("ISO-8859-1"), codec) == [0xC3, 0xA9]
  {
    assert Charset.NeedsTranscode(Some("ISO-8859-1"));
    EncodeEAcute();
  }

  /** A table that types everything as plain text, a detector that reports Latin-1, a codec that reads `é`. */
  function LatinOracles(): (o: Oracles)
    ensures o.detect([0xE9]) == Charset.Guess(Some("ISO-8859-1"), 0.73)
    ensures o.codec("ISO-8859-1", [0xE9]) == Some("é")
    ensures forall ext :: o.mime(ext) == Some("text/plain")
  {
    Oracles(
      ext => Some("text/plain"),
      c => false,
      sample => Charset.Guess(Some("ISO-8859-1"), 0.73),
      (name, bs) => Some("é"))
  }

  lemma LatinViewIsInline(o: Oracles)
    requires forall ext :: o.mime(ext) == Some("text/plain")
    ensures !IsAttachment("/a.txt", "/a.txt", o)
  {
    assert '?' !in "/a.txt";
    InlineUnderPlainTable("/a.txt", o);
  }

  /** Under a table that types everything as plain text, a request for a path with no query is an inline view. */
  lemma InlineUnderPlainTable(path: string, o: Oracles)
    requires forall ext :: o.mime(ext) == Some("text/plain")
    requires '?' !in path
    ensures !IsAttachment(path, path, o)
  {
    AllPlainIsText(path, o.mime);
    DownloadFlag(path, o);
  }

  lemma EncodeEAcute()
    ensures Utf8.Encode("é") == [0xC3, 0xA9]
  {
    var cp := 'é' as int;
    assert cp == 233;
    assert cp / 64 == 3 && cp % 64 == 41;
    assert Utf8.EncodeChar('é') == [0xC0 + cp / 64, 0x80 + cp % 64];
    assert "é"[1..] == [];
  }

  /**
   * The delivery decision: a `Content-Disposition` header appears exactly
   * for downloads; it carries the sanitised base name in both forms when
   * that name is Latin-1, and the `except` fallback otherwise.  The content
   * type is the looked-up type, with the UTF-8 charset appended exactly for
   * inline views; the CORS headers are always present.
   */
  lemma FileHeadersSpec(path: string, length: nat, raw: string, o: Oracles)
    ensures var hs := FileHeaders(path, length, raw, o);
      var ct := ContentType(path, o.mime);
      var name := PosixPath.Basename(path);
      var safe := SafeFilename(name, o.unicodeAlnum);
      && (Lookup(hs, "Content-Disposition").Some? <==> IsAttachment(path, raw, o))
      && (IsAttachment(path, raw, o) ==>
            && Lookup(hs, "Content-type") == Some(ct)
            && IsLatin1(Lookup(hs, "Content-Disposition").value)
            && (IsLatin1(safe) ==> Lookup(hs, "Content-Disposition") == Some(ContentDisposition(safe)))
            && (!IsLatin1(safe) ==> Lookup(hs, "Content-Disposition") == Some(FallbackDisposition(name))))
      && (!IsAttachment(path, raw, o) ==> Lookup(hs, "Content-type") == Some(ct + "; charset=utf-8"))
      && Lookup(hs, "Content-Length") == Some(Decimal(length))
      && Lookup(hs, "Access-Control-Allow-Origin") == Some("*")
      && Lookup(hs, "Access-Control-Allow-Methods") == Some("GET, OPTIONS")
      && Lookup(hs, "Access-Control-Allow-Headers") == Some("*")
  {
    HeaderListSpec(ContentType(path, o.mime), IsAttachment(path, raw, o),
                   Disposition(PosixPath.Basename(path), o.unicodeAlnum), length);
    DispositionSpec(PosixPath.Basename(path), o.unicodeAlnum);
  }

  /** A file reply always carries `Access-Control-Allow-Origin: *`. */
  lemma FileHeadersCors(path: string, length: nat, raw: string, o: Oracles)
    ensures Lookup(FileHeaders(path, length, raw, o), "Access-Control-Allow-Origin") == Some("*")
  {
    HeaderListSpec(ContentType(path, o.mime), IsAttachment(path, raw, o),
                   Disposition(PosixPath.Basename(path), o.unicodeAlnum), length);
  }

  lemma HeaderListSpec(ct: string, attachment: bool, disposition: string, length: nat)
    ensures var hs := HeaderList(ct, attachment, disposition, length);
      && (Lookup(hs, "Content-Disposition").Some? <==> attachment)
      && (attachment ==>
            Lookup(hs, "Content-Disposition") == Some(disposition)
            && Lookup(hs, "Content-type") == Some(ct))
      && (!attachment ==> Lookup(hs, "Content-type") == Some(ct + "; charset=utf-8"))
      && Lookup(hs, "Content-Length") == Some(Decimal(length))
      && Lookup(hs, "Access-Control-Allow-Origin") == Some("*")
      && Lookup(hs, "Access-Control-Allow-Methods") == Some("GET, OPTIONS")
      && Lookup(hs, "Access-Control-Allow-Headers") == Some("*")
  {
    if attachment {
      AttachmentHeaders(ct, disposition, length);
    } else {
      InlineHeaders(ct, disposition, length);
    }
  }

  lemma AttachmentHeaders(ct: string, disposition: string, length: nat)
    ensures var hs := HeaderList(ct, true, disposition, length);
      && Lookup(hs, "Content-Disposition") == Some(disposition)
      && Lookup(hs, "Content-type") == Some(ct)
      && Lookup(hs, "Content-Length") == Some(Decimal(length))
      && Lookup(hs, "Access-Control-Allow-Origin") == Some("*")
      && Lookup(hs, "Access-Control-Allow-Methods") == Some("GET, OPTIONS")
      && Lookup(hs, "Access-Control-Allow-Headers") == Some("*")
  {
    var l := Header("Content-Length", Decimal(length));
    var tail := [l] + CorsHeaders;
    var d := Header("Content-Disposition", disposition);
    var t := Header("Content-type", ct);
    assert HeaderList(ct, true, disposition, length) == [d] + ([t] + tail);
    HeaderLookups(d, t, tail);
    CorsLookups(l);
  }

  lemma InlineHeaders(ct: string, disposition: string, length: nat)
    ensures var hs := HeaderList(ct, false, disposition, length);
      && Lookup(hs, "Content-Disposition").None?
      && Lookup(hs, "Content-type") == Some(ct + "; charset=utf-8")
      && Lookup(hs, "Content-Length") == Some(Decimal(length))
      && Lookup(hs, "Access-Control-Allow-Origin") == Some("*")
      && Lookup(hs, "Access-Control-Allow-Methods") == Some("GET, OPTIONS")
      && Lookup(hs, "Access-Control-Allow-Headers") == Some("*")
  {
    var l := Header("Content-Length", Decimal(length));
    var tail := [l] + CorsHeaders;
    var t := Header("Content-type", ct + "; charset=utf-8");
    assert HeaderList(ct, false, disposition, length) == [t] + tail;
    InlineFront(t, tail);
    CorsLookups(l);
  }

  /** Lookups past a leading content-type header. */
  lemma InlineFront(t: Header, tail: seq<Header>)
    requires t.name == "Content-type"
    ensures Lookup([t] + tail, "Content-type") == Some(t.value)
    ensures forall name :: name != t.name ==> Lookup([t] + tail, name) == Lookup(tail, name)
  {
    LookupCons(t, tail, "Content-type");
    forall name | name != t.name
      ensures Lookup([t] + tail, name) == Lookup(tail, name)
    {
      LookupCons(t, tail, name);
    }
  }

  /** Looking past the disposition and content-type headers of a download. */
  lemma HeaderLookups(d: Header, t: Header, tail: seq<Header>)
    requires d.name == "Content-Disposition" && t.name == "Content-type"
    ensures Lookup([d] + ([t] + tail), "Content-Disposition") == Some(d.value)
    ensures Lookup([d] + ([t] + tail), "Content-type") == Some(t.value)
    ensures forall name :: name != d.name && name != t.name ==>
      Lookup([d] + ([t] + tail), name) == Lookup(tail, name)
  {
    LookupCons(d, [t] + tail, "Content-Disposition");
    LookupCons(d, [t] + tail, "Content-type");
    LookupCons(t, tail, "Content-type");
    forall name | name != d.name && name != t.name
      ensures Lookup([d] + ([t] + tail), name) == Lookup(tail, name)
    {
      LookupCons(d, [t] + tail, name);
      LookupCons(t, tail, name);
    }
  }

  /** The length header followed by the CORS headers. */
  lemma CorsLookups(l: Header)
    requires l.name == "Content-Length"
    ensures var tail := [l] + CorsHeaders;
      && Lookup(tail, "Content-Disposition").None?
      && Lookup(tail, "Content-type").None?
      && Lookup(tail, "Content-Length") == Some(l.value)
      && Lookup(tail, "Access-Control-Allow-Origin") == Some("*")
      && Lookup(tail, "Access-Control-Allow-Methods") == Some("GET, OPTIONS")
      && Lookup(tail, "Access-Control-Allow-Headers") == Some("*")
  {
    var tail := [l] + CorsHeaders;
    var c0, c1, c2 := CorsHeaders[0], CorsHeaders[1], CorsHeaders[2];
    assert tail == [l] + ([c0] + ([c1] + ([c2] + [])));
    assert "Access-Control-Allow-Methods"[21] != "Access-Control-Allow-Headers"[21];
    assert Lookup([], "Content-type").None?;
  }

  /**
   * Bodies: a download carries the file's bytes exactly, whatever its type;
   * an inline view carries them unchanged when no encoding was detected or
   * it was UTF-8, and otherwise the UTF-8 re-encoding of the decoded text.
   */
  lemma FileBodySpec(path: string, content: seq<byte>, raw: string, o: Oracles)
    ensures IsAttachment(path, raw, o) ==> FileBody(path, content, raw, o) == content
    ensures var enc := Charset.DetectEncoding(content, o.detect);
      !IsAttachment(path, raw, o) && !Charset.NeedsTranscode(enc) ==>
        FileBody(path, content, raw, o) == content
    ensures var enc := Charset.DetectEncoding(content, o.detect);
      !IsAttachment(path, raw, o) && Charset.NeedsTranscode(enc) && o.codec(enc.value, content).Some? ==>
        Utf8.Valid(FileBody(path, content, raw, o))
        && Utf8.Decode(FileBody(path, content, raw, o)) == o.codec(enc.value, content).value
  {
    var enc := Charset.DetectEncoding(content, o.detect);
    Charset.ConvertUnchanged(content, enc, o.codec);
    if !IsAttachment(path, raw, o) && Charset.NeedsTranscode(enc) && o.codec(enc.value, content).Some? {
      Charset.ConvertedIsUtf8(content, enc, o.codec);
    }
  }

  // ---------------------------------------------------------------------
  // The query flag
  // ---------------------------------------------------------------------

  lemma QueryFieldOf(path: string, query: string)
    requires '?' !in path
    ensures QueryField(path) == ""
    ensures QueryField(path + "?" + query) == Resolver.PathPart(query)
  {
    var raw := path + "?" + query;
    assert raw[|path|] == '?';
    assert raw[..|path|] == path;
    assert Resolver.FirstQuestionMark(raw) == Some(|path|);
    assert raw[|path| + 1..] == query;
  }

  /** Only the text up to a second `?` is searched: `download=true` after it is not seen. */
  lemma QueryFieldStopsAtSecondMark(path: string, first: string, rest: string)
    requires '?' !in path && '?' !in first
    ensures QueryField(path + "?" + first + "?" + rest) == first
  {
    assert path + "?" + first + "?" + rest == path + "?" + (first + "?" + rest);
    QueryFieldOf(path, first + "?" + rest);
    Resolver.QueryIgnored("/", first, rest);
    var s := first + "?" + rest;
    assert s[|first|] == '?' && s[..|first|] == first;
    assert Resolver.FirstQuestionMark(s) == Some(|first|);
  }

  lemma ContainsItself(s: string)
    ensures Contains(s, s)
  {
    assert StartsWith(s[0..], s);
  }

  /**
   * `?download=true` turns the inline view of a text file into a download;
   * without a query the same file is shown inline.
   */
  lemma DownloadFlag(path: string, o: Oracles)
    requires '?' !in path
    requires IsText(ContentType(path, o.mime))
    ensures IsAttachment(path, path + "?" + "download=true", o)
    ensures !IsAttachment(path, path, o)
  {
    DownloadParam();
    DownloadQuery(path, "download=true");
  }

  lemma DownloadParam()
    ensures '?' !in "download=true"
    ensures Contains("download=true", "download=true")
  {
    ContainsItself("download=true");
  }

  /**
   * With a single `?`, a download is requested exactly when the query
   * contains `download=true`; without a query it never is.
   */
  lemma DownloadQuery(path: string, q: string)
    requires '?' !in path && '?' !in q
    ensures DownloadRequested(path + "?" + q) <==> Contains(q, "download=true")
    ensures !DownloadRequested(path)
  {
    QueryFieldOf(path, q);
    Resolver.PathPartWhole(q);
  }

  // ---------------------------------------------------------------------
  // Streaming
  // ---------------------------------------------------------------------

  const ChunkSize: nat := 8192

  /** The bytes of consecutive writes, in order. */
  function Flatten(chunks: seq<seq<byte>>): seq<byte>
  {
    if chunks == [] then [] else Flatten(chunks[..|chunks| - 1]) + chunks[|chunks| - 1]
  }

  /**
   * The `while True: chunk = f.read(8192)` loop: the writes are non-empty,
   * all but the last exactly 8192 bytes, and together they are the file.
   */
  method StreamChunks(content: seq<byte>) returns (writes: seq<seq<byte>>)
    ensures Flatten(writes) == content
    ensures forall i :: 0 <= i < |writes| ==> 0 < |writes[i]| <= ChunkSize
    ensures forall i :: 0 <= i < |writes| - 1 ==> |writes[i]| == ChunkSize
  {
    writes := [];
    var pos := 0;
    while true
      invariant 0 <= pos <= |content|
      invariant Flatten(writes) == content[..pos]
      invariant forall i :: 0 <= i < |writes| ==> 0 < |writes[i]| <= ChunkSize
      invariant forall i :: 0 <= i < |writes| - 1 ==> |writes[i]| == ChunkSize
      invariant writes != [] && |writes[|writes| - 1]| < ChunkSize ==> pos == |content|
      decreases |content| - pos
    {
      var end := if pos + ChunkSize <= |content| then pos + ChunkSize else |content|;
      var chunk := content[pos..end];
      if chunk == [] {
        break;
      }
      assert (writes + [chunk])[..|writes|] == writes;
      assert content[..end] == content[..pos] + chunk;
      writes := writes + [chunk];
      pos := end;
    }
    assert content[..pos] == content;
  }

  /**
   * `send_file` for a readable regular file: the headers, and the body as
   * the sequence of writes.  `Content-Length` is the size on disk, as
   * written; an inline view is written at once, a download
   * is streamed in chunks of at most 8192 bytes that add up to the file.
   */
  method SendFile(path: string, content: seq<byte>, raw: string, o: Oracles)
    returns (headers: seq<Header>, writes: seq<seq<byte>>)
    ensures headers == PlanFileAsWritten(path, content, raw, o).headers
    ensures Lookup(headers, "Content-Length") == Some(Decimal(|content|))
    ensures Flatten(writes) == FileBody(path, content, raw, o)
    ensures IsAttachment(path, raw, o) ==>
      Flatten(writes) == content && forall i :: 0 <= i < |writes| ==> 0 < |writes[i]| <= ChunkSize
    ensures !IsAttachment(path, raw, o) ==> |writes| == 1
  {
    var reply := PlanFileAsWritten(path, content, raw, o);
    headers := reply.headers;
    if IsAttachment(path, raw, o) {
      writes := StreamChunks(content);
    } else {
      writes := [reply.body];
      assert writes[..0] == [];
    }
  }
}
