/**
 * The directory listing (`send_directory_listing`,
 * `generate_directory_html`, `generate_parent_link`): the page's data —
 * title, location, parent link and one entry per child in sorted order,
 * with each entry's link, escaped name, size and encoding badge.  The HTML
 * template around that data is not modelled.
 */
module Listing {
  import opened Common
  import PosixPath
  import Percent
  import Utf8
  import Resolver
  import HtmlEscape
  import SizeFormat
  import Charset
  import Files

  // ---------------------------------------------------------------------
  // files.sort()
  // ---------------------------------------------------------------------

  /** `a <= b` for Python strings: lexicographic by code point. */
  predicate Below(a: string, b: string)
    decreases |a|
  {
    a == [] || (b != [] && (a[0] < b[0] || (a[0] == b[0] && Below(a[1..], b[1..]))))
  }

  lemma {:induction false} BelowTotal(a: string, b: string)
    ensures Below(a, b) || Below(b, a)
    decreases |a|
  {
    if a != [] && b != [] && a[0] == b[0] {
      BelowTotal(a[1..], b[1..]);
    }
  }

  lemma {:induction false} BelowTransitive(a: string, b: string, c: string)
    requires Below(a, b) && Below(b, c)
    ensures Below(a, c)
    decreases |a|
  {
    if a != [] && a[0] == b[0] && b[0] == c[0] {
      BelowTransitive(a[1..], b[1..], c[1..]);
    }
  }

  lemma {:induction false} BelowAntisymmetric(a: string, b: string)
    requires Below(a, b) && Below(b, a)
    ensures a == b
    decreases |a|
  {
    if a != [] {
      BelowAntisymmetric(a[1..], b[1..]);
      assert a == [a[0]] + a[1..] && b == [b[0]] + b[1..];
    }
  }

  predicate Sorted(s: seq<string>) {
    forall i, j :: 0 <= i < j < |s| ==> Below(s[i], s[j])
  }

  function Insert(x: string, s: seq<string>): (r: seq<string>)
    ensures multiset(r) == multiset(s) + multiset{x}
  {
    if s == [] then [x]
    else if Below(x, s[0]) then [x] + s
    else
      assert s == [s[0]] + s[1..];
      [s[0]] + Insert(x, s[1..])
  }

  /** `list.sort()`, as insertion sort. */
  function Sort(s: seq<string>): (r: seq<string>)
    ensures multiset(r) == multiset(s)
  {
    if s == [] then []
    else
      assert s == [s[0]] + s[1..];
      Insert(s[0], Sort(s[1..]))
  }

  lemma {:induction false} InsertSorted(x: string, s: seq<string>)
    requires Sorted(s)
    ensures Sorted(Insert(x, s))
  {
    if s == [] {
    } else if Below(x, s[0]) {
      var r := [x] + s;
      forall i, j | 0 <= i < j < |r| ensures Below(r[i], r[j]) {
        if i == 0 && j > 1 {
          BelowTransitive(x, s[0], s[j - 1]);
        }
      }
    } else {
      BelowTotal(x, s[0]);
      InsertSorted(x, s[1..]);
      var t := Insert(x, s[1..]);
      var r := [s[0]] + t;
      forall k | 0 <= k < |t| ensures Below(s[0], t[k]) {
        assert t[k] in multiset(t);
        assert t[k] == x || t[k] in multiset(s[1..]);
        if t[k] != x {
          var m :| 0 <= m < |s[1..]| && s[1..][m] == t[k];
          assert s[m + 1] == t[k];
        }
      }
      forall i, j | 0 <= i < j < |r| ensures Below(r[i], r[j]) {
        if i == 0 {
          assert r[j] == t[j - 1];
        } else {
          assert r[i] == t[i - 1] && r[j] == t[j - 1];
        }
      }
    }
  }

  /** The names come out in ascending code-point order, each exactly as often as it went in. */
  lemma {:induction false} SortSpec(s: seq<string>)
    ensures Sorted(Sort(s))
    ensures multiset(Sort(s)) == multiset(s)
  {
    if s != [] {
      SortSpec(s[1..]);
      InsertSorted(s[0], Sort(s[1..]));
    }
  }

  /** Upper-case letters sort before lower-case ones, as code points do. */
  lemma SortExample()
    ensures Sort(["b.txt", "a.txt", "Z"]) == ["Z", "a.txt", "b.txt"]
  {
    assert Below("Z", "a.txt");
    assert !Below("a.txt", "Z");
    assert Below("a.txt", "b.txt");
    assert !Below("b.txt", "a.txt");
    assert !Below("b.txt", "Z");
    assert ["b.txt", "a.txt", "Z"][1..] == ["a.txt", "Z"];
    assert ["a.txt", "Z"][1..] == ["Z"];
    assert Sort(["Z"]) == ["Z"];
    assert Insert("a.txt", ["Z"]) == ["Z", "a.txt"];
    assert ["Z", "a.txt"][1..] == ["a.txt"];
    assert Insert("b.txt", ["a.txt"]) == ["a.txt", "b.txt"];
  }

  // ---------------------------------------------------------------------
  // Links
  // ---------------------------------------------------------------------

  /** The directory relative to the root, `''` for the root itself. */
  function RelPathOf(dir: string, root: string): string
    requires StartsWith(dir, "/") && StartsWith(root, "/")
  {
    var rel := PosixPath.RelPath(dir, root);
    if rel == "." then "" else rel
  }

  /** `s.replace('//', '/')`: non-overlapping occurrences, left to right. */
  function ReplaceDoubleSlash(s: string): string
  {
    if |s| >= 2 && s[0] == '/' && s[1] == '/' then "/" + ReplaceDoubleSlash(s[2..])
    else if s == [] then []
    else [s[0]] + ReplaceDoubleSlash(s[1..])
  }

  /** `/rel/name` or `/name`, with double slashes collapsed. */
  function EntryUrl(rel: string, name: string): string {
    ReplaceDoubleSlash(if rel != "" then "/" + rel + "/" + name else "/" + name)
  }

  /** The entry's URL percent-encoded as UTF-8, keeping `/`. */
  function EntryHref(rel: string, name: string): string {
    Percent.Quote(Utf8.Encode(EntryUrl(rel, name)), true)
  }

  /**
   * The link to the parent directory; none in the root.  `abspath` of an
   * absolute path is its `normpath`.
   */
  function ParentLink(current: string, root: string): Option<string>
    requires StartsWith(current, "/") && StartsWith(root, "/")
  {
    if PosixPath.Normpath(current) == PosixPath.Normpath(root) then None
    else Some(Percent.Quote(Utf8.Encode(ParentUrl(PosixPath.Dirname(current), root)), true))
  }

  /** The parent directory's location relative to the root, as an absolute URL path. */
  function ParentUrl(parent: string, root: string): string
    requires StartsWith(parent, "/") && StartsWith(root, "/")
  {
    var rel := PosixPath.RelPath(parent, root);
    if rel == "." then "/" else "/" + rel
  }

  // ---------------------------------------------------------------------
  // Entries and the page
  // ---------------------------------------------------------------------

  datatype SizeInfo =
    | NoSize                          // a directory
    | UnknownSize                     // `os.path.getsize` failed: shown as 未知
    | Known(text: SizeFormat.SizeText)

  datatype Entry = Entry(
    name: string,
    isDir: bool,
    href: string,
    display: string,
    size: SizeInfo,
    badge: Option<string>)

  /** The encoding shown next to a file: only one that calls for transcoding. */
  function Badge(detected: Option<string>): (b: Option<string>)
    ensures b.Some? <==> Charset.NeedsTranscode(detected)
    ensures b.Some? ==> b == detected
  {
    if Charset.NeedsTranscode(detected) then detected else None
  }

  function MakeEntry(tree: Files.Tree, dir: string, rel: string, name: string, detect: Charset.Detector): Entry
  {
    var child := PosixPath.Join(dir, name);
    var isDir := Files.IsDirectory(tree, child);
    var size :=
      if isDir then NoSize
      else if Files.IsFile(tree, child) then Known(SizeFormat.FormatSize(|tree[child].content|))
      else UnknownSize;
    var badge :=
      if Files.IsFile(tree, child) then Badge(Charset.DetectEncoding(tree[child].content, detect))
      else None;
    Entry(name, isDir, EntryHref(rel, name), HtmlEscape.Escape(name), size, badge)
  }

  datatype Page = Page(
    title: string,
    currentDir: string,
    location: string,
    parent: Option<string>,
    entries: seq<Entry>)

  const RootTitle: string := "根目录"

  function BuildPage(tree: Files.Tree, dir: string, root: string, names: seq<string>, detect: Charset.Detector): Page
    requires StartsWith(dir, "/") && StartsWith(root, "/")
  {
    var rel := RelPathOf(dir, root);
    var base := PosixPath.Basename(dir);
    var sorted := Sort(names);
    Page(
      HtmlEscape.Escape(if base != "" then base else RootTitle),
      HtmlEscape.Escape(dir),
      "/" + HtmlEscape.Escape(rel),
      ParentLink(dir, root),
      Entries(tree, dir, rel, sorted, detect))
  }

  /** The entries for the (already sorted) names, in order. */
  function Entries(tree: Files.Tree, dir: string, rel: string, names: seq<string>, detect: Charset.Detector): (es: seq<Entry>)
    ensures |es| == |names|
    ensures forall i :: 0 <= i < |names| ==> es[i] == MakeEntry(tree, dir, rel, names[i], detect)
  {
    seq(|names|, i requires 0 <= i < |names| => MakeEntry(tree, dir, rel, names[i], detect))
  }

  function Names(es: seq<Entry>): (ns: seq<string>)
    ensures |ns| == |es|
    ensures forall i :: 0 <= i < |es| ==> ns[i] == es[i].name
  {
    seq(|es|, i requires 0 <= i < |es| => es[i].name)
  }

  /**
   * One entry per listed name, in sorted order, each built for its own
   * name in the directory being listed.
   */
  lemma BuildPageEntries(tree: Files.Tree, dir: string, root: string, names: seq<string>, detect: Charset.Detector)
    requires StartsWith(dir, "/") && StartsWith(root, "/")
    ensures var es := BuildPage(tree, dir, root, names, detect).entries;
      && |es| == |names|
      && Sorted(Names(es))
      && multiset(Names(es)) == multiset(names)
      && forall i :: 0 <= i < |es| ==> es[i] == MakeEntry(tree, dir, RelPathOf(dir, root), es[i].name, detect)
  {
    var sorted := Sort(names);
    var es := Entries(tree, dir, RelPathOf(dir, root), sorted, detect);
    assert BuildPage(tree, dir, root, names, detect).entries == es;
    SortSpec(names);
    assert |sorted| == |multiset(sorted)| == |multiset(names)| == |names|;
    forall i | 0 <= i < |es| ensures es[i].name == sorted[i] {
      MakeEntrySpec(tree, dir, RelPathOf(dir, root), sorted[i], detect);
    }
    assert Names(es) == sorted;
  }

  /**
   * One entry: the shown name is escaped and unescapes to the file's name;
   * the entry is a directory exactly when the child is one, has a size
   * exactly when the child is a readable file (and `未知` exactly when it is
   * missing), and shows a badge exactly when that file's detected encoding
   * would be transcoded.
   */
  lemma MakeEntrySpec(tree: Files.Tree, dir: string, rel: string, name: string, detect: Charset.Detector)
    ensures var e := MakeEntry(tree, dir, rel, name, detect);
      var child := PosixPath.Join(dir, name);
      && e.name == name
      && HtmlEscape.Unescape(e.display) == name
      && (e.isDir <==> Files.IsDirectory(tree, child))
      && (e.size.Known? <==> Files.IsFile(tree, child))
      && (Files.IsFile(tree, child) ==> e.size == Known(SizeFormat.FormatSize(|tree[child].content|)))
      && (e.size == UnknownSize <==> child !in tree)
      && (e.badge.Some? <==>
            Files.IsFile(tree, child)
            && Charset.NeedsTranscode(Charset.DetectEncoding(tree[child].content, detect)))
  {
    HtmlEscape.UnescapeEscape(name);
  }

  // ---------------------------------------------------------------------
  // Links lead back to what they name
  // ---------------------------------------------------------------------

  lemma {:induction false} ReplaceDoubleSlashNoSlash(c: string, tail: string)
    requires '/' !in c
    ensures ReplaceDoubleSlash(c + tail) == c + ReplaceDoubleSlash(tail)
  {
    if c != [] {
      assert (c + tail)[1..] == c[1..] + tail;
      assert c[0] in c;
      assert (c + tail)[0] == c[0] != '/';
      assert ReplaceDoubleSlash(c + tail) == [c[0]] + ReplaceDoubleSlash((c + tail)[1..]);
      assert '/' !in c[1..] by {
        forall j | 0 <= j < |c[1..]| ensures c[1..][j] != '/' { assert c[1..][j] == c[j + 1]; }
      }
      ReplaceDoubleSlashNoSlash(c[1..], tail);
    } else {
      assert c + tail == tail;
    }
  }

  /** A path spelled from components has no `//` to collapse. */
  lemma {:induction false} ReplaceDoubleSlashAbsolute(xs: seq<string>)
    requires PosixPath.AllComponents(xs) && xs != []
    ensures ReplaceDoubleSlash(PosixPath.Absolute(xs)) == PosixPath.Absolute(xs)
  {
    var c := xs[0];
    assert PosixPath.IsComponent(c);
    var p := PosixPath.Absolute(xs);
    if |xs| == 1 {
      assert p == "/" + (c + []);
      ReplaceDoubleSlashNoSlash(c, []);
      assert p[1] == c[0];
      assert p[1..] == c + [];
    } else {
      var rest := PosixPath.Absolute(xs[1..]);
      assert p == "/" + (c + rest);
      ReplaceDoubleSlashAbsolute(xs[1..]);
      ReplaceDoubleSlashNoSlash(c, rest);
      assert p[1] == c[0];
      assert p[1..] == c + rest;
    }
  }

  /** The relative location of a directory below the root, as the page uses it. */
  lemma RelPathOfUnder(cs: seq<string>, ps: seq<string>)
    requires PosixPath.AllComponents(cs) && PosixPath.AllComponents(ps)
    ensures RelPathOf(PosixPath.Absolute(cs + ps), PosixPath.Absolute(cs))
      == if ps == [] then "" else PosixPath.JoinComponents(ps)
  {
    PosixPath.RelPathUnder(cs, ps);
    if ps != [] {
      PosixPath.SplitJoin(ps);
      PosixPath.SplitNoSlash(".");
      assert PosixPath.JoinComponents(ps) != ".";
    }
  }

  /** The URL of an entry below the root: `/p1/.../pk/name`. */
  lemma EntryUrlUnder(ps: seq<string>, name: string)
    requires PosixPath.AllComponents(ps) && PosixPath.IsComponent(name)
    ensures EntryUrl(if ps == [] then "" else PosixPath.JoinComponents(ps), name)
      == PosixPath.Absolute(ps + [name])
  {
    var xs := ps + [name];
    assert PosixPath.AllComponents(xs);
    RawEntryUrl(ps, name);
    ReplaceDoubleSlashAbsolute(xs);
  }

  /** Before collapsing double slashes, the entry's URL is already `/p1/.../pk/name`. */
  lemma RawEntryUrl(ps: seq<string>, name: string)
    requires PosixPath.AllComponents(ps)
    ensures var rel := if ps == [] then "" else PosixPath.JoinComponents(ps);
      (if rel != "" then "/" + rel + "/" + name else "/" + name) == PosixPath.Absolute(ps + [name])
  {
    if ps == [] {
      assert ps + [name] == [name];
    } else {
      PosixPath.JoinNonEmpty(ps);
      PosixPath.JoinAppend(ps, [name]);
    }
  }

  /** The link of an entry in a directory below the root is the quoted `/p1/.../pk/name`. */
  lemma EntryHrefUnder(root: string, ps: seq<string>, name: string)
    requires PosixPath.IsNormalAbsolute(root)
    requires PosixPath.AllComponents(ps) && PosixPath.IsComponent(name)
    ensures var dir := PosixPath.Absolute(PosixPath.ComponentsOf(root) + ps);
      && StartsWith(root, "/") && StartsWith(dir, "/")
      && EntryHref(RelPathOf(dir, root), name) == Percent.Quote(Utf8.Encode(PosixPath.Absolute(ps + [name])), true)
  {
    var cs := PosixPath.ComponentsOf(root);
    PosixPath.NormalAbsoluteIsAbsolute(root);
    RelPathOfUnder(cs, ps);
    EntryUrlUnder(ps, name);
  }

  lemma ChildDotDot(ps: seq<string>, name: string)
    requires !Resolver.SomeDotDot(ps)
    ensures Resolver.SomeDotDot(ps + [name]) <==> HasDotDot(name)
  {
    var xs := ps + [name];
    if Resolver.SomeDotDot(xs) {
      var i :| 0 <= i < |xs| && HasDotDot(xs[i]);
    }
    assert xs[|ps|] == name;
  }

  /** Appending `?download=true` to a link changes nothing about where it leads. */
  lemma DownloadVariant(root: string, href: string)
    requires StartsWith(root, "/") && '?' !in href
    ensures Resolver.TranslatePath(root, href + "?" + "download=true") == Resolver.TranslatePath(root, href)
    ensures Resolver.PathPart(href + "?" + "download=true") == href
  {
    Resolver.QueryIgnored(root, href, "download=true");
    var raw := href + "?" + "download=true";
    assert raw[|href|] == '?';
    assert raw[..|href|] == href;
  }

  /**
   * Every link in a listing of a directory the resolver produced leads back
   * to the child it names: requesting it resolves to `join(dir, name)`,
   * unless the name contains `..`, which the resolver refuses.  The
   * download button's `?download=true` variant resolves alike, and the
   * query is not part of the path.
   */
  lemma EntryLinkResolves(root: string, ps: seq<string>, name: string)
    requires PosixPath.IsNormalAbsolute(root)
    requires PosixPath.AllComponents(ps) && !Resolver.SomeDotDot(ps)
    requires PosixPath.IsComponent(name)
    ensures var cs := PosixPath.ComponentsOf(root);
      var dir := PosixPath.Absolute(cs + ps);
      var href := EntryHref(RelPathOf(dir, root), name);
      && StartsWith(root, "/") && StartsWith(dir, "/")
      && Resolver.TranslatePath(root, href)
           == (if HasDotDot(name) then Resolver.Rejected(Resolver.Traversal)
               else Resolver.Resolved(PosixPath.Join(dir, name)))
      && Resolver.TranslatePath(root, href + "?" + "download=true") == Resolver.TranslatePath(root, href)
      && Resolver.PathPart(href + "?" + "download=true") == href
  {
    var cs := PosixPath.ComponentsOf(root);
    var dir := PosixPath.Absolute(cs + ps);
    var xs := ps + [name];
    EntryHrefUnder(root, ps, name);
    var href := Percent.Quote(Utf8.Encode(PosixPath.Absolute(xs)), true);
    assert PosixPath.AllComponents(xs);
    Resolver.ResolveLink(root, xs);
    ChildDotDot(ps, name);
    ChildPath(root, ps, name);
    Resolver.QuotedLink(PosixPath.Absolute(xs));
    DownloadVariant(root, href);
  }

  /** `join(dir, name)` is the root extended by the link's components. */
  lemma ChildPath(root: string, ps: seq<string>, name: string)
    requires PosixPath.IsNormalAbsolute(root)
    requires PosixPath.AllComponents(ps) && PosixPath.IsComponent(name)
    ensures var cs := PosixPath.ComponentsOf(root);
      PosixPath.Join(PosixPath.Absolute(cs + ps), name) == PosixPath.Absolute(cs + (ps + [name]))
  {
    var cs := PosixPath.ComponentsOf(root);
    PosixPath.NormalAbsoluteIsAbsolute(root);
    PosixPath.AllComponentsAppend(cs, ps);
    PosixPath.JoinChild(cs + ps, name);
    assert cs + ps + [name] == cs + (ps + [name]);
  }

  /** The parent URL of a directory below the root is `/` or `/p1/.../pk`. */
  lemma ParentUrlUnder(cs: seq<string>, up: seq<string>)
    requires PosixPath.AllComponents(cs) && PosixPath.AllComponents(up)
    ensures ParentUrl(PosixPath.Absolute(cs + up), PosixPath.Absolute(cs))
      == if up == [] then "/" else PosixPath.Absolute(up)
  {
    RelPathOfUnder(cs, up);
  }

  /** A directory strictly below the root is not the root, even after normalisation. */
  lemma BelowRootIsNotRoot(cs: seq<string>, ps: seq<string>)
    requires PosixPath.AllComponents(cs) && PosixPath.AllComponents(ps) && ps != []
    ensures PosixPath.Normpath(PosixPath.Absolute(cs + ps)) != PosixPath.Normpath(PosixPath.Absolute(cs))
  {
    PosixPath.AllComponentsAppend(cs, ps);
    PosixPath.AbsoluteShape(cs + ps);
    PosixPath.AbsoluteShape(cs);
    PosixPath.NormpathNormal(PosixPath.Absolute(cs + ps));
    PosixPath.NormpathNormal(PosixPath.Absolute(cs));
    assert |cs + ps| != |cs|;
  }

  /** The parent link of a directory below the root, before resolution. */
  lemma ParentLinkUnder(root: string, ps: seq<string>)
    requires PosixPath.IsNormalAbsolute(root)
    requires PosixPath.AllComponents(ps) && ps != []
    ensures var cs := PosixPath.ComponentsOf(root);
      var dir := PosixPath.Absolute(cs + ps);
      var up := ps[..|ps| - 1];
      && StartsWith(root, "/") && StartsWith(dir, "/")
      && PosixPath.Dirname(dir) == PosixPath.Absolute(cs + up)
      && ParentLink(dir, root)
           == Some(Percent.Quote(Utf8.Encode(if up == [] then "/" else PosixPath.Absolute(up)), true))
  {
    var cs := PosixPath.ComponentsOf(root);
    PosixPath.NormalAbsoluteIsAbsolute(root);
    var dir := PosixPath.Absolute(cs + ps);
    var up := ps[..|ps| - 1];
    DirnameBelowRoot(cs, ps);
    BelowRootIsNotRoot(cs, ps);
    ParentUrlUnder(cs, up);
    var parent := PosixPath.Dirname(dir);
    assert ParentLink(dir, root) == Some(Percent.Quote(Utf8.Encode(ParentUrl(parent, root)), true));
  }

  lemma DirnameBelowRoot(cs: seq<string>, ps: seq<string>)
    requires PosixPath.AllComponents(cs) && PosixPath.AllComponents(ps) && ps != []
    ensures StartsWith(PosixPath.Absolute(cs + ps), "/")
    ensures PosixPath.AllComponents(ps[..|ps| - 1])
    ensures PosixPath.Dirname(PosixPath.Absolute(cs + ps)) == PosixPath.Absolute(cs + ps[..|ps| - 1])
  {
    PosixPath.AllComponentsAppend(cs, ps);
    PosixPath.AbsoluteShape(cs + ps);
    PosixPath.NormalAbsoluteIsAbsolute(PosixPath.Absolute(cs + ps));
    PosixPath.DirnameAbsolute(cs + ps);
    assert (cs + ps)[..|cs + ps| - 1] == cs + ps[..|ps| - 1];
  }

  /**
   * The parent link: absent exactly in the root; elsewhere it leads to
   * `dirname` of the current directory, which is the directory one level
   * up (the root, from a directory just below it).
   */
  lemma ParentLinkResolves(root: string, ps: seq<string>)
    requires PosixPath.IsNormalAbsolute(root)
    requires PosixPath.AllComponents(ps) && !Resolver.SomeDotDot(ps)
    ensures var cs := PosixPath.ComponentsOf(root);
      var dir := PosixPath.Absolute(cs + ps);
      && StartsWith(root, "/") && StartsWith(dir, "/")
      && (ParentLink(dir, root).None? <==> ps == [])
      && (ps != [] ==>
            && PosixPath.Dirname(dir) == PosixPath.Absolute(cs + ps[..|ps| - 1])
            && Resolver.TranslatePath(root, ParentLink(dir, root).value)
                 == Resolver.Resolved(PosixPath.Dirname(dir)))
  {
    var cs := PosixPath.ComponentsOf(root);
    PosixPath.NormalAbsoluteIsAbsolute(root);
    if ps == [] {
      assert cs + ps == cs;
      PosixPath.NormpathNormal(root);
    } else {
      ParentLinkUnder(root, ps);
      UpLinkResolves(root, ps[..|ps| - 1]);
    }
  }

  /** The parent URL `/` or `/p1/.../pk`, quoted, resolves to the root extended by `p1 ... pk`. */
  lemma UpLinkResolves(root: string, up: seq<string>)
    requires PosixPath.IsNormalAbsolute(root)
    requires PosixPath.AllComponents(up) && !Resolver.SomeDotDot(up)
    ensures StartsWith(root, "/")
    ensures Resolver.TranslatePath(root, Percent.Quote(Utf8.Encode(if up == [] then "/" else PosixPath.Absolute(up)), true))
      == Resolver.Resolved(PosixPath.Absolute(PosixPath.ComponentsOf(root) + up))
  {
    var cs := PosixPath.ComponentsOf(root);
    PosixPath.NormalAbsoluteIsAbsolute(root);
    if up == [] {
      assert cs + up == cs;
      QuoteSlash();
      Resolver.RootRequest(root, "");
    } else {
      Resolver.ResolveLink(root, up);
    }
  }

  lemma QuoteSlash()
    ensures Percent.Quote(Utf8.Encode("/"), true) == "/"
  {
    assert Utf8.EncodeChar('/') == [0x2F];
    assert "/"[1..] == [];
    assert Utf8.Encode("/") == [0x2F];
    assert [0x2F][1..] == [];
  }
}
