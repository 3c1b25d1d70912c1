/**
 * Content types: the `mimetypes` registrations made at import time, the
 * `guess_type` lookup (abbreviations expanded, compression suffixes split
 * off) on top of the default table, and the text
 * classification that decides between an inline view and a download.
 */
module Mime {
  import opened Common
  import PosixPath

  /** The default MIME table of `mimetypes`, keyed by extension; `None` for an unknown one. */
  type MimeTable = string -> Option<string>

  /** The seven `mimetypes.add_type` registrations made at import time. */
  const Overrides: map<string, string> := map[
    ".html" := "text/html",
    ".txt" := "text/plain",
    ".json" := "application/json",
    ".xml" := "application/xml",
    ".css" := "text/css",
    ".js" := "application/javascript",
    ".md" := "text/markdown"]

  const DefaultType: string := "application/octet-stream"

  /** `types_map[ext]`: a registration made at import time wins over the defaults. */
  function TypesMap(ext: string, table: MimeTable): Option<string> {
    if ext in Overrides then Some(Overrides[ext]) else table(ext)
  }

  /**
   * An entry of `suffix_map`: an abbreviation that stands for a compressed
   * archive, kept as its two single-dot parts (`.tgz` is `.tar` then `.gz`).
   */
  datatype Expansion = Expansion(inner: string, compression: string)

  const SuffixMap: map<string, Expansion> := map[
    ".svgz" := Expansion(".svg", ".gz"),
    ".tgz" := Expansion(".tar", ".gz"),
    ".taz" := Expansion(".tar", ".gz"),
    ".tz" := Expansion(".tar", ".gz"),
    ".tbz2" := Expansion(".tar", ".bz2"),
    ".txz" := Expansion(".tar", ".xz")]

  /** `encodings_map`: compression suffixes, matched in their exact letter case. */
  const EncodingsMap: map<string, string> := map[
    ".gz" := "gzip",
    ".Z" := "compress",
    ".bz2" := "bzip2",
    ".xz" := "xz",
    ".br" := "br"]

  /** The path after the `suffix_map` loop, which expands at most one abbreviation. */
  function Expanded(path: string): string {
    var ext := PosixPath.Extension(path);
    if ext in SuffixMap then
      PosixPath.StripExtension(path) + SuffixMap[ext].inner + SuffixMap[ext].compression
    else path
  }

  /**
   * The extension `guess_type` looks up in `types_map`: the one left after
   * the `suffix_map` loop, or the one before a compression suffix.
   */
  function TypeExtension(path: string): string {
    var p := Expanded(path);
    var ext := PosixPath.Extension(p);
    if ext in EncodingsMap then PosixPath.Extension(PosixPath.StripExtension(p)) else ext
  }

  /** The `types_map` lookup of `guess_type`: the extension as written, then lower-cased. */
  function Lookup(ext: string, table: MimeTable): Option<string> {
    var exact := TypesMap(ext, table);
    if exact.Some? then exact else TypesMap(AsciiLower(ext), table)
  }

  /** `mimetypes.guess_type(path)[0]` */
  function GuessType(path: string, table: MimeTable): Option<string> {
    Lookup(TypeExtension(path), table)
  }

  /** The guessed type, or `application/octet-stream` when `guess_type` finds none. */
  function ContentType(path: string, table: MimeTable): string {
    var g := GuessType(path, table);
    if g.Some? then g.value else DefaultType
  }

  /**
   * `mimetypes.guess_type` in the versions that lower-case the extension
   * before their one lookup, for comparison with `GuessType`.
   */
  function GuessTypeLowerFirst(path: string, table: MimeTable): Option<string> {
    TypesMap(AsciiLower(TypeExtension(path)), table)
  }

  /** `t` is what the registrations, or failing them the default table, give for extension `e`. */
  predicate FoundFor(e: string, table: MimeTable, t: string) {
    if e in Overrides then Overrides[e] == t else table(e) == Some(t)
  }

  /** Neither the extension as written nor its lower-case form is registered or in the table. */
  predicate NothingFound(ext: string, table: MimeTable) {
    && ext !in Overrides && table(ext).None?
    && AsciiLower(ext) !in Overrides && table(AsciiLower(ext)).None?
  }

  /** The two fixed maps are well formed: single-dot parts, and no abbreviation expands to another. */
  lemma MapsWellFormed()
    ensures forall k :: k in SuffixMap ==> PosixPath.IsDotSuffix(k)
    ensures forall k :: k in SuffixMap ==>
      && PosixPath.IsDotSuffix(SuffixMap[k].inner)
      && PosixPath.IsDotSuffix(SuffixMap[k].compression)
      && SuffixMap[k].compression in EncodingsMap
    ensures forall k :: k in EncodingsMap ==> PosixPath.IsDotSuffix(k) && k !in SuffixMap
  {
    SuffixKeys();
    ExpansionParts();
    EncodingKeys();
  }

  lemma SuffixKeyNames()
    ensures forall k :: k in SuffixMap ==>
      k == ".svgz" || k == ".tgz" || k == ".taz" || k == ".tz" || k == ".tbz2" || k == ".txz"
  {
  }

  lemma SuffixKeys()
    ensures forall k :: k in SuffixMap ==> PosixPath.IsDotSuffix(k)
  {
    SuffixKeyNames();
    SuffixKeyLiterals();
  }

  lemma SuffixKeyLiterals()
    ensures PosixPath.IsDotSuffix(".svgz") && PosixPath.IsDotSuffix(".tgz") && PosixPath.IsDotSuffix(".taz")
    ensures PosixPath.IsDotSuffix(".tz") && PosixPath.IsDotSuffix(".tbz2") && PosixPath.IsDotSuffix(".txz")
  {
  }

  lemma ExpansionParts()
    ensures forall k :: k in SuffixMap ==>
      && PosixPath.IsDotSuffix(SuffixMap[k].inner)
      && PosixPath.IsDotSuffix(SuffixMap[k].compression)
      && SuffixMap[k].compression in EncodingsMap
  {
    ExpansionInners();
    ExpansionCompressions();
    assert PosixPath.IsDotSuffix(".tar") && PosixPath.IsDotSuffix(".svg");
    assert PosixPath.IsDotSuffix(".gz") && PosixPath.IsDotSuffix(".bz2") && PosixPath.IsDotSuffix(".xz");
  }

  lemma ExpansionInners()
    ensures forall k :: k in SuffixMap ==> SuffixMap[k].inner == ".tar" || SuffixMap[k].inner == ".svg"
  {
  }

  lemma ExpansionCompressions()
    ensures forall k :: k in SuffixMap ==>
      SuffixMap[k].compression == ".gz" || SuffixMap[k].compression == ".bz2" || SuffixMap[k].compression == ".xz"
  {
  }

  lemma EncodingKeyNames()
    ensures forall k :: k in EncodingsMap ==> k == ".gz" || k == ".Z" || k == ".bz2" || k == ".xz" || k == ".br"
  {
  }

  lemma EncodingKeys()
    ensures forall k :: k in EncodingsMap ==> PosixPath.IsDotSuffix(k) && k !in SuffixMap
  {
    EncodingKeyNames();
    assert PosixPath.IsDotSuffix(".gz") && PosixPath.IsDotSuffix(".Z") && PosixPath.IsDotSuffix(".bz2");
    assert PosixPath.IsDotSuffix(".xz") && PosixPath.IsDotSuffix(".br");
  }

  /** The facts about one abbreviation's expansion that the lookup relies on. */
  lemma ExpansionOf(k: string)
    requires k in SuffixMap
    ensures PosixPath.IsDotSuffix(k)
    ensures var x := SuffixMap[k];
      && PosixPath.IsDotSuffix(x.inner) && PosixPath.IsDotSuffix(x.compression)
      && x.compression in EncodingsMap && x.compression !in SuffixMap
  {
    SuffixKeys();
    ExpansionParts();
    EncodingKeys();
  }

  /**
   * After one expansion the extension is the compression suffix, which is
   * not itself an abbreviation, and before it stands the archive's inner
   * extension.
   */
  lemma ExpandedOnce(path: string)
    requires PosixPath.Extension(path) in SuffixMap
    ensures var x := SuffixMap[PosixPath.Extension(path)];
      var p := Expanded(path);
      && PosixPath.Extension(p) == x.compression
      && PosixPath.Extension(p) !in SuffixMap
      && PosixPath.Extension(PosixPath.StripExtension(p)) == x.inner
  {
    var ext := PosixPath.Extension(path);
    var r := PosixPath.StripExtension(path);
    var x := SuffixMap[ext];
    ExpansionOf(ext);
    PosixPath.StrippedHasNonDot(path);
    PosixPath.ExtensionAppend(r, x.inner);
    PosixPath.ExtensionAppend(r + x.inner, x.compression);
  }

  lemma TypeExtensionPlain(path: string)
    requires PosixPath.Extension(path) !in SuffixMap && PosixPath.Extension(path) !in EncodingsMap
    ensures TypeExtension(path) == PosixPath.Extension(path)
  {
  }

  lemma TypeExtensionEncoded(path: string)
    requires PosixPath.Extension(path) in EncodingsMap
    ensures TypeExtension(path) == PosixPath.Extension(PosixPath.StripExtension(path))
  {
    EncodingKeys();
  }

  lemma TypeExtensionAbbreviated(path: string)
    requires PosixPath.Extension(path) in SuffixMap
    ensures TypeExtension(path) == SuffixMap[PosixPath.Extension(path)].inner
  {
    ExpandedOnce(path);
    ExpansionOf(PosixPath.Extension(path));
  }

  lemma NoSecondExpansion(path: string)
    ensures PosixPath.Extension(Expanded(path)) !in SuffixMap
  {
    if PosixPath.Extension(path) in SuffixMap {
      ExpandedOnce(path);
    }
  }

  lemma EncodedClause(path: string)
    ensures PosixPath.Extension(path) in EncodingsMap ==>
      TypeExtension(path) == PosixPath.Extension(PosixPath.StripExtension(path))
  {
    if PosixPath.Extension(path) in EncodingsMap {
      TypeExtensionEncoded(path);
    }
  }

  lemma AbbreviatedClause(path: string)
    ensures PosixPath.Extension(path) in SuffixMap ==>
      TypeExtension(path) == SuffixMap[PosixPath.Extension(path)].inner
  {
    if PosixPath.Extension(path) in SuffixMap {
      TypeExtensionAbbreviated(path);
    }
  }

  /**
   * The looked-up extension is the path's own unless that is an
   * abbreviation or a compression suffix; for an abbreviation it is the
   * archive's inner extension, and for a compression suffix the extension
   * before it. No abbreviation is expanded twice.
   */
  lemma TypeExtensionSpec(path: string)
    ensures PosixPath.Extension(path) !in SuffixMap && PosixPath.Extension(path) !in EncodingsMap ==>
      TypeExtension(path) == PosixPath.Extension(path)
    ensures PosixPath.Extension(path) in EncodingsMap ==>
      TypeExtension(path) == PosixPath.Extension(PosixPath.StripExtension(path))
    ensures PosixPath.Extension(path) in SuffixMap ==>
      TypeExtension(path) == SuffixMap[PosixPath.Extension(path)].inner
    ensures PosixPath.Extension(Expanded(path)) !in SuffixMap
  {
    NoSecondExpansion(path);
    EncodedClause(path);
    AbbreviatedClause(path);
  }

  /** The content type is a property of the looked-up extension alone. */
  lemma ContentTypeByExtension(p: string, q: string, table: MimeTable)
    requires TypeExtension(p) == TypeExtension(q)
    ensures ContentType(p, table) == ContentType(q, table)
  {
  }

  /**
   * A compressed file is typed as what it holds: `notes.txt.gz` as
   * `notes.txt`, whatever the compression suffix.
   */
  lemma CompressedLikeInner(p: string, enc: string, table: MimeTable)
    requires enc in EncodingsMap && PosixPath.HasNonDot(PosixPath.Basename(p))
    requires PosixPath.Extension(p) !in SuffixMap && PosixPath.Extension(p) !in EncodingsMap
    ensures ContentType(p + enc, table) == ContentType(p, table)
  {
    EncodingKeys();
    PosixPath.ExtensionAppend(p, enc);
    TypeExtensionEncoded(p + enc);
    TypeExtensionPlain(p);
  }

  /** A `.txt` file compressed with `gzip` is plain text, whatever the default table says. */
  lemma TextGzIsText(p: string, table: MimeTable)
    requires PosixPath.HasNonDot(PosixPath.Basename(p))
    ensures ContentType(p + ".txt" + ".gz", table) == "text/plain"
    ensures IsText(ContentType(p + ".txt" + ".gz", table))
  {
    TextGzExtension(p);
    TextByExtension(p + ".txt" + ".gz", table);
  }

  lemma TextByExtension(q: string, table: MimeTable)
    requires TypeExtension(q) == ".txt"
    ensures ContentType(q, table) == "text/plain" && IsText(ContentType(q, table))
  {
    TxtSuffixes();
  }

  lemma TextGzExtension(p: string)
    requires PosixPath.HasNonDot(PosixPath.Basename(p))
    ensures TypeExtension(p + ".txt" + ".gz") == ".txt"
  {
    var q := p + ".txt";
    TxtSuffixes();
    PosixPath.ExtensionAppend(p, ".txt");
    EncodingKeys();
    PosixPath.ExtensionAppend(q, ".gz");
    TypeExtensionEncoded(q + ".gz");
  }

  lemma TxtSuffixes()
    ensures PosixPath.IsDotSuffix(".txt") && ".txt" !in SuffixMap && ".txt" !in EncodingsMap
    ensures ".gz" in EncodingsMap && ".txt" in Overrides && Overrides[".txt"] == "text/plain"
  {
  }

  /** An abbreviation is typed as the archive it stands for: `a.tgz` as `a.tar`. */
  lemma AbbreviationLikeArchive(p: string, k: string, table: MimeTable)
    requires k in SuffixMap && PosixPath.HasNonDot(PosixPath.Basename(p))
    ensures ContentType(p + k, table) == ContentType(p + SuffixMap[k].inner, table)
  {
    ExpansionInners();
    AbbreviationExtension(p, k);
    InnerExtension(p, SuffixMap[k].inner);
    ContentTypeByExtension(p + k, p + SuffixMap[k].inner, table);
  }

  lemma AbbreviationExtension(p: string, k: string)
    requires k in SuffixMap && PosixPath.HasNonDot(PosixPath.Basename(p))
    ensures TypeExtension(p + k) == SuffixMap[k].inner
  {
    ExpansionOf(k);
    PosixPath.ExtensionAppend(p, k);
    TypeExtensionAbbreviated(p + k);
  }

  lemma InnerExtension(p: string, e: string)
    requires (e == ".tar" || e == ".svg") && PosixPath.HasNonDot(PosixPath.Basename(p))
    ensures TypeExtension(p + e) == e
  {
    assert e !in SuffixMap && e !in EncodingsMap;
    assert PosixPath.IsDotSuffix(".tar") && PosixPath.IsDotSuffix(".svg");
    PosixPath.ExtensionAppend(p, e);
    TypeExtensionPlain(p + e);
  }

  /**
   * `application/octet-stream` when nothing is registered or listed for the
   * looked-up extension in either case; otherwise a type found for that
   * extension as written or for its lower-case form.
   */
  lemma ContentTypeOrigin(path: string, table: MimeTable)
    ensures var ext := TypeExtension(path);
      var t := ContentType(path, table);
      && (NothingFound(ext, table) ==> t == DefaultType)
      && (!NothingFound(ext, table) ==> FoundFor(ext, table, t) || FoundFor(AsciiLower(ext), table, t))
  {
    LookupOrigin(TypeExtension(path), table);
  }

  lemma LookupOrigin(ext: string, table: MimeTable)
    ensures var g := Lookup(ext, table);
      var t := if g.Some? then g.value else DefaultType;
      && (NothingFound(ext, table) ==> t == DefaultType)
      && (!NothingFound(ext, table) ==> FoundFor(ext, table, t) || FoundFor(AsciiLower(ext), table, t))
  {
  }

  /** The registered extensions are written in lower case. */
  lemma OverrideKeysLowerCase(k: string)
    requires k in Overrides
    ensures AsciiLower(k) == k
  {
    KeysHaveNoUpperCase();
    LowerOfLower(k);
  }

  predicate NoUpperCase(s: string) {
    forall i :: 0 <= i < |s| ==> !('A' <= s[i] <= 'Z')
  }

  lemma KeysHaveNoUpperCase()
    ensures forall k :: k in Overrides ==> NoUpperCase(k)
  {
  }

  lemma LowerOfLower(s: string)
    requires NoUpperCase(s)
    ensures AsciiLower(s) == s
  {
  }

  /**
   * Any letter case of a registered extension (`.TXT`, `.Md`) gets the
   * registered type, which is a text type, unless the default table has an
   * entry for that exact spelling.
   */
  lemma RegisteredAnyCase(path: string, table: MimeTable)
    requires AsciiLower(TypeExtension(path)) in Overrides
    requires TypeExtension(path) !in Overrides ==> table(TypeExtension(path)).None?
    ensures var t := ContentType(path, table);
      t == Overrides[AsciiLower(TypeExtension(path))] && IsText(t)
  {
    var ext := TypeExtension(path);
    if ext in Overrides {
      OverrideKeysLowerCase(ext);
    }
    OverridesAreText(AsciiLower(ext));
  }

  /**
   * The two lookup orders agree unless the table lists the extension under
   * a spelling with upper-case letters.
   */
  lemma LookupOrdersAgree(path: string, table: MimeTable)
    requires var ext := TypeExtension(path); table(ext).Some? ==> AsciiLower(ext) == ext
    ensures GuessType(path, table) == GuessTypeLowerFirst(path, table)
  {
    var ext := TypeExtension(path);
    if ext in Overrides {
      OverrideKeysLowerCase(ext);
    }
  }

  /** Text-classified content types, which are shown inline unless a download is asked for. */
  predicate IsText(t: string) {
    || StartsWith(t, "text/")
    || StartsWith(t, "application/json")
    || StartsWith(t, "application/xml")
    || StartsWith(t, "application/javascript")
  }

  /** Every type registered at import time is text-classified. */
  lemma OverridesAreText(ext: string)
    requires ext in Overrides
    ensures IsText(Overrides[ext])
  {
  }

  /** Under a table that types everything as plain text, every path is text-classified. */
  lemma AllPlainIsText(path: string, table: MimeTable)
    requires forall ext :: table(ext) == Some("text/plain")
    ensures IsText(ContentType(path, table))
  {
    var ext := TypeExtension(path);
    if ext in Overrides {
      OverridesAreText(ext);
    }
  }
}
