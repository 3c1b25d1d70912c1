# A verified model of the file server's request handler

`file_server.py` is a small HTTP file server. Its request handler,
`CustomHTTPRequestHandler`, does the following:

- It maps a request target onto a path below a served root directory.
- It answers with a 403, a 404, an HTML listing of a directory, or the content of a file.
- It shows text files inline, transcoded to UTF-8. Other files, and any file requested with `download=true`, are sent as attachments. The download name is sanitised, and a fallback applies when the header cannot be written as Latin-1.
- It answers CORS preflight requests.

This project models that handler in Dafny as pure functions over strings and byte sequences. The filesystem is a map from absolute path to node, either a directory with its listed names or a regular file with its bytes. Everything the handler gets from outside is a parameter of the model:

- the charset detector;
- the codecs;
- the default MIME table;
- Unicode's `str.isalnum` for non-ASCII characters.

Modules, following the program's structure:

- `Common`: options, prefix and substring tests, ASCII lower-casing.
- `Utf8`: UTF-8 encoding, and decoding with `errors='replace'`.
- `Percent`: `urllib.parse.quote` and `unquote`.
- `PosixPath`: `os.path.join`, `normpath`, `dirname`, `basename`, `relpath`, `splitext`.
- `Resolver`: `translate_path`.
- `HtmlEscape`: `html_escape`.
- `SizeFormat`: `format_size`.
- `Charset`: `detect_file_encoding` and `convert_to_utf8`.
- `Files`: the served filesystem.
- `Mime`: the `mimetypes` registrations made at import time, `guess_type` with its abbreviation and compression-suffix maps, and the text classification.
- `Attachment`: the download's `Content-Disposition` header, including its `except` fallback.
- `Delivery`: the rest of `send_file`.
- `Listing`: `send_directory_listing`, `generate_directory_html` and `generate_parent_link`.
- `Handler`: `do_GET` and `do_OPTIONS`.

The main results are these:

- **Confinement.** Under a normalised root, every path the resolver accepts is lexically the root or a descendant of it: the path as a string, not where a symbolic link would lead. The only refusal is the `..` rule, and it fires exactly when the percent-decoded path contains `..`. So the escape test never fires.
- **Listing links.** For names that are Unicode text, every link in a listing leads back to the entry it shows: a directory, a file, or a 404 for an entry whose size was unknown. The parent link leads one level up, and stays within the root.
- **Delivery.** Headers and body follow the inline/attachment decision. The sanitised name is safe. When it is Latin-1, the two-part header carries it, and the `filename*` value decodes to it. Otherwise the fallback header carries only the ASCII characters of the unsanitised name. A download's body is the file's bytes exactly, in chunks of at most 8192 bytes.

Points where the code's behaviour is easy to misread; the model follows the code:

- CORS headers are sent with files and with the OPTIONS answer only. They are not sent with listings or error pages.
- An inline text view is guaranteed to be valid UTF-8 only when it was transcoded. With no detected encoding, or one named `utf-8`, the bytes go out as they are.
- The `..` test runs on the percent-decoded path, not on the raw one.
- "Text" means a content type that starts with one of the four prefixes, so `application/json-patch+json` counts.

## Model

| member | source | states |
|---|---|---|
| Resolver.TranslatePath | file_server.py:33-70 | A resolved path is absolute. |
| Resolver.QueryIgnored | file_server.py:36-40 | Everything from the first `?` on has no effect on resolution. |
| Resolver.RootRequest | file_server.py:48-50 | `/`, with or without a query, resolves to the root itself. |
| Resolver.TraversalIff | file_server.py:42-55 | A request is refused as traversal exactly when its percent-decoded path contains `..`, for any root. |
| Resolver.EncodedTraversalRejected | file_server.py:42-55 | `/%2e%2e/`, in either letter case, is refused as traversal, because the test runs after decoding. |
| Resolver.Containment | file_server.py:57-70 | Under a normalised absolute root, the prefix test never refuses. Every resolved path is normalised and equals or lies below the root, component-wise, as a string. A path other than `/` without `..` resolves to `normpath(join(root, path.lstrip('/')))`. |
| Resolver.ResolvedShape | file_server.py:57-70 | Any resolved path is the root's components followed by components free of `..`. |
| Resolver.ResolveLink | file_server.py:33-70 | A quoted link `/p1/.../pk` resolves to the root extended by `p1..pk`. It is refused as traversal exactly when some `pi` contains `..`. |
| Resolver.QuotedLink | file_server.py:36-46 | A link produced by `quote` has no `?` and decodes back to the quoted text. |
| Percent.UnquoteQuote | file_server.py:309 | `unquote` with UTF-8 recovers any text that `quote` encoded from its UTF-8 bytes, with or without `/` kept. |
| Percent.UnquoteEncodedDots | file_server.py:43 | `/%2e%2e/` in either case decodes to `/../`. |
| Percent.QuoteIsValueChars | file_server.py:457 | `quote(..., safe='')` yields a valid RFC 8187 `value-chars` string. |
| Utf8.DecodeEncode | file_server.py:43 | Decoding the UTF-8 encoding of any text gives the text back. |
| Utf8.EncodeIsValid | file_server.py:384 | `str.encode('utf-8')` always yields well-formed UTF-8. |
| PosixPath.NormpathUnder | file_server.py:57-63 | `normpath(join(root, tail))` for a relative tail without `..` is the root extended by the tail's non-empty, non-`.` pieces. |
| PosixPath.NormpathNormal | file_server.py:66 | `normpath` leaves a normalised absolute path unchanged, so `abspath(root)` is the root. |
| PosixPath.RelPathUnder | file_server.py:119-122 | `relpath` of a path below the root is its extra components, or `.` for the root. |
| PosixPath.DirnameAbsolute | file_server.py:397 | `dirname` of `/c1/.../cn` is `/c1/.../c(n-1)`. |
| HtmlEscape.EscapeIsCharwise | file_server.py:519-527 | The five chained `replace` calls equal the character-by-character entity escape. |
| HtmlEscape.EscapeIsSafe | file_server.py:519-527 | Escaped text contains none of `<`, `>`, `"`, `'`. |
| HtmlEscape.EscapeIdentity | file_server.py:519-527 | Text without `& < > " '` comes back unchanged, and so does empty text. |
| HtmlEscape.UnescapeEscape | file_server.py:519-527 | Unescaping the five entities recovers the input, because `&` is replaced first. |
| SizeFormat.FormatSizeBand | file_server.py:511-517 | The unit is the first `k` with size < 1024^(k+1), or `PB` past `TB`. The value is the size divided by 1024^k. |
| SizeFormat.FormatSizeExamples | file_server.py:511-517 | 0 and 1023 are in B, 1024 and 1536 are in KB, and 1048576 is 1.0 MB. |
| Charset.Sample | file_server.py:358-360 | The sample is the first min(1024, size) bytes of the file. |
| Charset.DetectEncodingSpec | file_server.py:356-376 | An empty file has no encoding. Otherwise the result is the detector's answer on the first 1024 bytes, or none below confidence 0.5. Files agreeing on those bytes are detected alike. |
| Charset.ConvertUnchanged | file_server.py:378-390 | The bytes stay as they are when no encoding or `utf-8` in any case was detected, or the codec is unknown. Any change implies a transcoding. |
| Charset.Utf8NamesNeedNothing | file_server.py:380 | Any letter case of `utf-8`, no encoding, or an empty name means no transcoding. |
| Charset.ConvertedIsUtf8 | file_server.py:378-390 | Transcoded output is valid UTF-8 and decodes to the codec's text. |
| Mime.TypeExtensionSpec | file_server.py:433 | The extension `guess_type` looks up is the path's own, unless that is an abbreviation or a compression suffix. An abbreviation such as `.tgz` gives its archive's inner extension, `.tar`. A compression suffix such as `.gz` gives the extension before it. No abbreviation is expanded twice. |
| Mime.ExpandedOnce | file_server.py:433 | Expanding an abbreviation leaves the path ending in its compression suffix, which is not an abbreviation, with the archive's inner extension before it. |
| Mime.ContentTypeByExtension | file_server.py:433-435 | Two paths with the same looked-up extension get the same content type. |
| Mime.CompressedLikeInner | file_server.py:433-435 | A file with a compression suffix gets the type of its name without that suffix: `notes.txt.gz` is typed as `notes.txt`. |
| Mime.TextGzIsText | file_server.py:433-438 | A `.txt.gz` file is `text/plain`, whatever the default table says. It is therefore classified as text and, without `download=true`, shown inline and transcoded. |
| Mime.AbbreviationLikeArchive | file_server.py:433-435 | An abbreviated archive gets the type of the archive it stands for: `a.tgz` is typed as `a.tar`. |
| Mime.ContentTypeOrigin | file_server.py:433-435 | With nothing registered or listed for the looked-up extension in either case, the type is `application/octet-stream`. Otherwise it is a type found for the extension as written or for its lower-case form. |
| Mime.RegisteredAnyCase | file_server.py:433-438 | When the looked-up extension is any letter case of a registered one, such as `.TXT`, the path gets the registered type, which is text, unless the default table lists that exact spelling. |
| Mime.LookupOrdersAgree | file_server.py:433 | Trying the exact spelling first and lower-casing first give the same type, unless the table lists an extension spelled with upper-case letters. |
| Mime.OverrideKeysLowerCase | file_server.py:18-24 | The seven registered extensions are written in lower case. |
| Mime.OverridesAreText | file_server.py:18-24 | Every type registered at import time is classified as text. |
| Delivery.QueryField | file_server.py:441 | The searched query text never contains `?`. |
| Delivery.QueryFieldOf | file_server.py:441 | Without `?` the query is empty. Otherwise it is the text after the first `?`, up to any second one. |
| Delivery.QueryFieldStopsAtSecondMark | file_server.py:441 | Text after a second `?` is not searched for `download=true`. |
| Delivery.DownloadQuery | file_server.py:441-442 | With one `?`, a download is requested exactly when the query contains `download=true`. Without a query it never is. |
| Delivery.DownloadFlag | file_server.py:438-448 | `?download=true` turns the inline view of a text file into an attachment, and without it the file is inline. |
| Attachment.SafeFilename | file_server.py:454 | The sanitised name has the input's length, and every character is in the allowed class. |
| Attachment.SafeFilenameSpec | file_server.py:454 | Allowed characters stay in place and others become `_`. No quote, CR, LF, `;`, `\` or `/` remains. Sanitising is idempotent. |
| Attachment.ContentDispositionParts | file_server.py:457-459 | The header splits back into the quoted sanitised name and an RFC 8187 extended value that percent-decodes to the same name. |
| Attachment.ContentDispositionLatin1 | file_server.py:457-459 | `send_header` can write the two-part header exactly when the sanitised name is Latin-1, because the extended value is ASCII. |
| Attachment.AsciiPartAppend | file_server.py:462 | `encode('ascii', 'ignore')` drops the non-ASCII characters piece by piece. |
| Attachment.AsciiPartKeeps | file_server.py:462 | `encode('ascii', 'ignore')` leaves a name unchanged exactly when it is all ASCII. |
| Attachment.DispositionSpec | file_server.py:450-463 | The header sent can always be written as Latin-1. It is the two-part header exactly when the sanitised name is Latin-1, and otherwise the fallback built from the unsanitised name's ASCII characters. |
| Attachment.CjkNameLost | file_server.py:450-463 | A download of `报告.bin` is offered as `attachment; filename=".bin"`. |
| Attachment.FallbackKeepsQuote | file_server.py:460-463 | A download of `a"b;报.bin` is offered as `attachment; filename="a"b;.bin"`, with the quote inside the quoted name. |
| Attachment.FallbackKeepsLineBreak | file_server.py:460-463 | A download of `报\r\nX: y.bin` is offered with the CR LF of its name inside the header value, which ends the header line early. |
| Attachment.IntendedDispositionSpec | file_server.py:450-463 | The intended header can always be written. Its plain name has no quote, line break, `;`, `\` or `/`. Its extended value decodes to the whole sanitised name. It equals the header sent whenever the sanitised name is Latin-1. |
| Delivery.ParseDecimalOf | file_server.py:470 | Reading the `str(n)` of `Content-Length` back as a number gives `n`. |
| Delivery.FileHeadersSpec | file_server.py:446-473 | `Content-Disposition` is present exactly for attachments and can always be written. It is the two-part header for a Latin-1 sanitised base name, and the fallback otherwise. The type gets `; charset=utf-8` exactly for inline views. The given length and the three CORS headers are always present. |
| Delivery.FileBodySpec | file_server.py:476-496 | An attachment's body is the file's bytes. An inline body is unchanged unless transcoded, and transcoded output is valid UTF-8 that decodes to the codec's text. |
| Delivery.PlanFileAsWritten | file_server.py:469-470 | As written, `Content-Length` is the size on disk. |
| Delivery.ContentLengthMismatch | file_server.py:470-486 | A one-byte Latin-1 file viewed inline is sent as two bytes under `Content-Length: 1`. |
| Delivery.PlanFile | file_server.py:470 | `Content-Length` is the length of the body actually sent. |
| Delivery.StreamChunks | file_server.py:487-496 | The chunks are non-empty and at most 8192 bytes. All but the last are exactly 8192, and together they are the file. |
| Delivery.SendFile | file_server.py:423-496 | The headers are those `send_file` writes, with `Content-Length` the size on disk. The writes add up to the body. A download is streamed in chunks that add up to the file, and an inline view is one write. |
| Listing.Insert | file_server.py:99 | Insertion adds the one name to the multiset of names. |
| Listing.SortSpec | file_server.py:98-99 | `files.sort()` gives code-point order and a permutation of the listed names. |
| Listing.SortExample | file_server.py:98-99 | `["b.txt", "a.txt", "Z"]` sorts to `["Z", "a.txt", "b.txt"]`. |
| Handler.BadgeMatchesBody | file_server.py:477-484 | The badge a listing shows beside a file says what its inline view does. Without a badge the file is served byte for byte. With one, the body is converted from the badge's charset, and when that charset decodes the file the body is the decoded text in UTF-8. A body that differs from the file always had a badge. A download is always the file unchanged. |
| Listing.BuildPageEntries | file_server.py:97-99 | There is one entry per listed name, in sorted order, and each is built for its own name. |
| Listing.MakeEntrySpec | file_server.py:280-314 | The shown name unescapes to the file's name. An entry is a directory exactly when the child is one. Its size is shown exactly when the child is a regular file, and `未知` exactly when the child is missing. It has a badge exactly when the child's encoding calls for transcoding. |
| Listing.RelPathOfUnder | file_server.py:118-122 | The page's relative location of a directory below the root is its extra components, or empty at the root. |
| Listing.EntryUrlUnder | file_server.py:300-307 | The entry URL, with `//` collapsed, is `/p1/.../pk/name`. |
| Listing.EntryLinkResolves | file_server.py:300-309 | An entry's link resolves to `join(dir, name)`, or is refused as traversal when the name contains `..`. Its `?download=true` variant resolves alike. |
| Listing.DownloadVariant | file_server.py:340-342 | Appending `?download=true` to a link does not change where it resolves. |
| Listing.ParentLinkUnder | file_server.py:392-414 | Below the root, the parent link is the quoted `/` or `/rel`, where `rel` is the parent's path relative to the root. |
| Listing.ParentLinkResolves | file_server.py:392-414 | The parent link is absent exactly at the root. Elsewhere it resolves to `dirname` of the directory, one level up. |
| Handler.HandleGet | file_server.py:72-92 | A GET answered with an error page answers 403 or 404. |
| Handler.HandleOptions | file_server.py:503-509 | OPTIONS answers 200 with the three CORS headers, for any target. |
| Handler.HandleGetOutcome | file_server.py:72-92 | A refused target gives 403 with the resolver's message, a missing path 404, a directory the listing of its children, and a regular file the reply `send_file` writes, with `Content-Length` the size on disk. Each holds in both directions. |
| Handler.OnlyWithinRoot | file_server.py:52-70 | Under a normalised root, 403 happens exactly for a decoded `..` and carries the traversal message. Listings and files are always lexically within the root. |
| Handler.CorsOnlyOnFilesAndPreflight | file_server.py:469-473 | A GET response carries `Access-Control-Allow-Origin` exactly when it is a file. OPTIONS carries `*`. |
| Handler.ListingEntryLeadsToIt | file_server.py:280-314 | Following an entry's link gives a listing exactly for an entry shown as a directory, the file exactly for an entry with a size, and 404 exactly for `未知`. A name with `..` gives the traversal 403. |
| Handler.ListingParentLink | file_server.py:392-414 | In a listing, the parent link is absent exactly at the root. Otherwise it resolves to the parent directory, which is within the root. |

## Left out

- The HTTP transport is not modelled: sockets, `send_response`, `send_header`, `wfile`, and `log_message`. Responses are returned as values: a status, a header list, and a body or sequence of writes.
- `main`, argument parsing, the banner and `get_local_ip` are process startup and network code. The served root is a parameter, assumed absolute as `os.path.abspath` makes it. Most properties assume it is normalised. A root with exactly two leading slashes, which `normpath` keeps, is not covered.
- The model takes the root `main` passes. The handler's `__init__` hands no `directory` to Python's `SimpleHTTPRequestHandler`, which then sets it to the working directory. Python's `http.server` is not part of this model.
- The `directory is None` fallbacks (lines 49, 60, 124, 406-411) are left out. `self.directory` is always set.
- `chardet.detect` is a parameter of the model, and so are the non-UTF-8 codecs. Only the empty-sample and confidence rules are modelled.
- The default `mimetypes` type table is a parameter. Its `suffix_map` and `encodings_map` are modelled as the fixed maps of the standard library; a system `mime.types` file adds types only. `suffix_map` is matched in the exact case, as through Python 3.11; later versions lower-case before matching it. The encoding half of `guess_type`'s result is discarded at line 433, and so is not modelled.
- The lookup tries the extension as written and then lower-cased, as `mimetypes.guess_type` does through Python 3.11. Later versions lower-case first; that order is `Mime.GuessTypeLowerFirst`, and `Mime.LookupOrdersAgree` gives the condition under which the two agree.
- Content types are taken to be Latin-1, as every registered and default type is ASCII. For a type that was not, the `Content-type` line at 469 would raise after `send_response(200)` at 445. The overridden `send_error` (540-554) then calls `send_response` again. The client would get the 200 status line with a stray `500` status line among the headers, not a clean 500. This case is not modelled.
- On an HTTP/0.9 request `send_header` writes nothing and never raises. The model takes the Latin-1 header encoding of HTTP/1.x.
- `str.lower` is taken as ASCII lower-casing. This is exact for comparisons against `utf-8` and the seven registered extensions.
- `format_size` does not model the `%.1f` rendering. Float division is taken as exact real division, which it is for every size below 2^53.
- The HTML, CSS and JavaScript of the listing and error pages are not modelled. The model keeps the page's data: title, current directory, location, parent link and entries. Consequently the listing's `Content-Length` over the rendered HTML is not modelled either.
- The error page's message is kept as given; it is embedded in the page without escaping.
- `PermissionError` and other exceptions are not modelled. `send_directory_listing` answers them with a clean 403 or 500 (111-114), and so does `send_file` when the failure comes before `send_response(200)` at 445, for example at `getsize` (427). A file that can be stat'ed but not read is different. Its 200 headers, with the file size as `Content-Length`, are flushed at 474. The `open` at 479 or 489 then raises, and `send_error` writes a second status line and the 403 page into that response. A child whose size cannot be read is modelled as absent from the tree, which is how the listing's `未知` arises.
- Files.Tree: symbolic links are not modelled. `os.path.exists`, `isdir`, `listdir`, `getsize` and `open` follow them (lines 74-92, 427, 479, 489), and the tree maps each path to what those calls see. Confinement (`Resolver.Containment`, `Handler.OnlyWithinRoot`) is therefore about the request path as a string, not about where the file lives: a link under the root serves what it points to, even outside the root.
- Files.Tree, Listing.MakeEntry: names are strings of Unicode scalar values. A name that `os.listdir` returns with surrogate escapes, because its bytes are not UTF-8, is not modelled. For such a name `file_url.encode('utf-8')` at line 309 raises, and the listing becomes a 500 (lines 113-114).
- HEAD and the other stdlib handlers are not modelled.
- The JavaScript `downloadFile` `&` branch is not modelled. Listing links never contain `?`, so it does not arise.

## Findings

| source | as written | input that shows it | evidently intended | confidence | as-written member | corrected member |
|---|---|---|---|---|---|---|
| file_server.py:470 | `Content-Length` is `str(file_size)`, the size on disk, even when the inline body is the transcoded content | a one-byte file `/a.txt` holding `0xE9`, detected as ISO-8859-1 with confidence 0.73, viewed inline: the body is `C3 A9`, the header says 1 | `Content-Length` counts the bytes written | high; not executed | Delivery.PlanFileAsWritten (shown by Delivery.ContentLengthMismatch) | Delivery.PlanFile |
| file_server.py:450-463 | `send_header` encodes the line as Latin-1, so a sanitised name with a character above U+00FF, such as any CJK character the sanitiser keeps, raises. The `except` branch then sends only the ASCII characters of the unsanitised name, with no `filename*`. Those characters can include a quote, and a CR LF, which `send_header` does not check for | `GET /报告.bin` is offered as `attachment; filename=".bin"`; `a"b;报.bin` as `attachment; filename="a"b;.bin"`; `报\r\nX: y.bin` puts a line break into the header | a plain name that can be written, beside the `filename*` value that carries the whole name | high; not executed | Attachment.Disposition (shown by Attachment.CjkNameLost, Attachment.FallbackKeepsQuote and Attachment.FallbackKeepsLineBreak) | Attachment.IntendedDisposition (proved by Attachment.IntendedDispositionSpec) |
