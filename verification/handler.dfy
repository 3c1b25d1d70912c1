/**
 * The request handler: `do_GET` dispatches a request target to a 403, a
 * 404, a directory listing or a file; `do_OPTIONS` answers a CORS
 * preflight.  The filesystem is a `Files.Tree`; the root is the directory
 * the server was started on.
 */
module Handler {
  import opened Common
  import PosixPath
  import Resolver
  import Files
  import Listing
  import Delivery
  import Charset
  import Utf8

  datatype Response =
    | ErrorPage(status: nat, message: string)   // `send_error(status, message)`
    | ListingPage(page: Listing.Page)           // 200, the HTML directory page
    | FileResponse(reply: Delivery.FileReply)   // 200, the file
    | Preflight                                 // 200, the OPTIONS answer

  const NotFoundMessage: string := "文件未找到"
  const HtmlType: string := "text/html; charset=utf-8"

  /** `do_GET` for the request target `raw` (path and query). */
  function HandleGet(root: string, tree: Files.Tree, raw: string, o: Delivery.Oracles): (r: Response)
    requires StartsWith(root, "/")
    ensures r.ErrorPage? ==> r.status == 403 || r.status == 404
  {
    match Resolver.TranslatePath(root, raw)
    case Rejected(why) => ErrorPage(403, Resolver.RejectionMessage(why))
    case Resolved(p) =>
      if p !in tree then ErrorPage(404, NotFoundMessage)
      else match tree[p]
        case Directory(children) => ListingPage(Listing.BuildPage(tree, p, root, children, o.detect))
        case RegularFile(content) => FileResponse(Delivery.PlanFileAsWritten(p, content, raw, o))
  }

  /** `do_OPTIONS`: whatever the target, 200 with the CORS headers and no body. */
  function HandleOptions(raw: string): (r: Response)
    ensures Status(r) == 200 && Headers(r) == Delivery.CorsHeaders
  {
    Preflight
  }

  function Status(r: Response): nat {
    match r
    case ErrorPage(status, _) => status
    case _ => 200
  }

  /**
   * The headers sent with `send_header`: an error page gets the HTML type
   * and `Connection: close` from the handler's own `send_error`; the
   * listing also sends the length of its rendered HTML, which is not
   * modelled.
   */
  function Headers(r: Response): seq<Delivery.Header> {
    match r
    case ErrorPage(_, _) => [Delivery.Header("Content-type", HtmlType), Delivery.Header("Connection", "close")]
    case ListingPage(_) => [Delivery.Header("Content-type", HtmlType)]
    case FileResponse(reply) => reply.headers
    case Preflight => Delivery.CorsHeaders
  }

  /**
   * The dispatch of `do_GET`, case by case and in both directions: 403 with
   * the resolver's message exactly for a refused target, 404 exactly for a
   * resolved path that does not exist, the listing exactly for a directory
   * and the file exactly for a regular file, announced with its size on
   * disk.
   */
  lemma HandleGetOutcome(root: string, tree: Files.Tree, raw: string, o: Delivery.Oracles)
    requires StartsWith(root, "/")
    ensures var r := HandleGet(root, tree, raw, o);
      var t := Resolver.TranslatePath(root, raw);
      && (Status(r) == 403 <==> t.Rejected?)
      && (t.Rejected? ==> r == ErrorPage(403, Resolver.RejectionMessage(t.reason)))
      && (r == ErrorPage(404, NotFoundMessage) <==> t.Resolved? && t.path !in tree)
      && (r.ListingPage? <==> t.Resolved? && Files.IsDirectory(tree, t.path))
      && (r.FileResponse? <==> t.Resolved? && Files.IsFile(tree, t.path))
      && (t.Resolved? && Files.IsDirectory(tree, t.path) ==>
            r.page == Listing.BuildPage(tree, t.path, root, tree[t.path].children, o.detect))
      && (t.Resolved? && Files.IsFile(tree, t.path) ==>
            && r.reply == Delivery.PlanFileAsWritten(t.path, tree[t.path].content, raw, o)
            && Delivery.Lookup(r.reply.headers, "Content-Length")
                 == Some(Delivery.Decimal(|tree[t.path].content|)))
  {
  }

  /**
   * Under a normalised root nothing outside it is served: the only refusal
   * is the traversal one, and a listing or a file is always of the root or
   * of a path below it.
   */
  lemma OnlyWithinRoot(root: string, tree: Files.Tree, raw: string, o: Delivery.Oracles)
    requires StartsWith(root, "/") && PosixPath.IsNormalAbsolute(root)
    ensures var r := HandleGet(root, tree, raw, o);
      var t := Resolver.TranslatePath(root, raw);
      && (Status(r) == 403 <==> HasDotDot(Resolver.DecodedPath(raw)))
      && (Status(r) == 403 ==> r.message == Resolver.RejectionMessage(Resolver.Traversal))
      && (r.ListingPage? || r.FileResponse? ==> t.Resolved? && PosixPath.Within(root, t.path))
  {
    Resolver.Containment(root, raw);
    Resolver.TraversalIff(root, raw);
  }

  /**
   * CORS headers go out with files and with the OPTIONS answer, and with
   * nothing else the handler sends: not with a listing, not with an error
   * page.
   */
  lemma CorsOnlyOnFilesAndPreflight(root: string, tree: Files.Tree, raw: string, o: Delivery.Oracles)
    requires StartsWith(root, "/")
    ensures var r := HandleGet(root, tree, raw, o);
      Delivery.Lookup(Headers(r), "Access-Control-Allow-Origin").Some? <==> r.FileResponse?
    ensures Delivery.Lookup(Headers(HandleOptions(raw)), "Access-Control-Allow-Origin") == Some("*")
  {
    var r := HandleGet(root, tree, raw, o);
    if r.FileResponse? {
      FileCors(root, tree, raw, o);
    } else {
      NoCorsElsewhere(r);
    }
    Delivery.CorsLookups(Delivery.Header("Content-Length", ""));
    Delivery.LookupCons(Delivery.Header("Content-Length", ""), Delivery.CorsHeaders, "Access-Control-Allow-Origin");
  }

  lemma FileCors(root: string, tree: Files.Tree, raw: string, o: Delivery.Oracles)
    requires StartsWith(root, "/")
    requires HandleGet(root, tree, raw, o).FileResponse?
    ensures Delivery.Lookup(Headers(HandleGet(root, tree, raw, o)), "Access-Control-Allow-Origin") == Some("*")
  {
    var t := Resolver.TranslatePath(root, raw);
    HandleGetOutcome(root, tree, raw, o);
    Delivery.FileHeadersCors(t.path, |tree[t.path].content|, raw, o);
  }

  lemma NoCorsElsewhere(r: Response)
    requires r.ErrorPage? || r.ListingPage?
    ensures Delivery.Lookup(Headers(r), "Access-Control-Allow-Origin").None?
  {
    if r.ListingPage? {
      Delivery.LookupCons(Delivery.Header("Content-type", HtmlType), [], "Access-Control-Allow-Origin");
    } else {
      var c := Delivery.Header("Connection", "close");
      Delivery.LookupCons(c, [], "Access-Control-Allow-Origin");
      Delivery.LookupCons(Delivery.Header("Content-type", HtmlType), [c], "Access-Control-Allow-Origin");
    }
  }

  /** An entry of a listing is built for one of the listed names. */
  lemma ListedEntry(tree: Files.Tree, dir: string, root: string, names: seq<string>, o: Delivery.Oracles, i: nat)
    requires StartsWith(dir, "/") && StartsWith(root, "/")
    requires i < |Listing.BuildPage(tree, dir, root, names, o.detect).entries|
    ensures var e := Listing.BuildPage(tree, dir, root, names, o.detect).entries[i];
      && e.name in names
      && e == Listing.MakeEntry(tree, dir, Listing.RelPathOf(dir, root), e.name, o.detect)
  {
    var es := Listing.BuildPage(tree, dir, root, names, o.detect).entries;
    Listing.BuildPageEntries(tree, dir, root, names, o.detect);
    assert Listing.Names(es)[i] == es[i].name;
    assert es[i].name in multiset(Listing.Names(es));
  }

  /**
   * Following a link of a listing gets what the entry promised: a listing
   * exactly for an entry shown as a directory, the file exactly for an
   * entry with a size, 404 exactly for an entry whose size was unknown;
   * a name containing `..` is refused instead.  The download button's
   * `?download=true` variant resolves to the same path.
   */
  lemma ListingEntryLeadsToIt(root: string, tree: Files.Tree, raw: string, o: Delivery.Oracles, i: nat)
    requires StartsWith(root, "/") && PosixPath.IsNormalAbsolute(root)
    requires Files.ListedNamesAreComponents(tree)
    requires HandleGet(root, tree, raw, o).ListingPage?
    requires i < |HandleGet(root, tree, raw, o).page.entries|
    ensures var dir := Resolver.TranslatePath(root, raw).path;
      var e := HandleGet(root, tree, raw, o).page.entries[i];
      var next := HandleGet(root, tree, e.href, o);
      && Files.IsDirectory(tree, dir)
      && e.name in tree[dir].children
      && Resolver.TranslatePath(root, e.href + "?" + "download=true") == Resolver.TranslatePath(root, e.href)
      && (HasDotDot(e.name) ==> next == ErrorPage(403, Resolver.RejectionMessage(Resolver.Traversal)))
      && (!HasDotDot(e.name) ==>
            && Resolver.TranslatePath(root, e.href) == Resolver.Resolved(PosixPath.Join(dir, e.name))
            && (next.ListingPage? <==> e.isDir)
            && (next.FileResponse? <==> e.size.Known?)
            && (next == ErrorPage(404, NotFoundMessage) <==> e.size == Listing.UnknownSize))
  {
    var dir := Resolver.TranslatePath(root, raw).path;
    var children := tree[dir].children;
    var e := HandleGet(root, tree, raw, o).page.entries[i];
    ListedEntry(tree, dir, root, children, o, i);
    assert PosixPath.IsComponent(e.name);
    Resolver.ResolvedShape(root, raw);
    var cs := PosixPath.ComponentsOf(root);
    var ps := PosixPath.ComponentsOf(dir)[|cs|..];
    Listing.EntryLinkResolves(root, ps, e.name);
    Listing.MakeEntrySpec(tree, dir, Listing.RelPathOf(dir, root), e.name, o.detect);
    HandleGetOutcome(root, tree, e.href, o);
  }

  /**
   * The encoding badge a listing shows next to a file names what the inline
   * view of that file does to it: without a badge the file is served byte
   * for byte; with one, it is converted from the badge's charset, and when
   * that charset decodes the file the body is the decoded text in UTF-8.
   * A download is always served unchanged.
   */
  lemma BadgeMatchesBody(tree: Files.Tree, dir: string, rel: string, name: string, raw: string, o: Delivery.Oracles)
    requires Files.IsFile(tree, PosixPath.Join(dir, name))
    ensures var c := PosixPath.Join(dir, name);
      var content := tree[c].content;
      var badge := Listing.MakeEntry(tree, dir, rel, name, o.detect).badge;
      var body := Delivery.FileBody(c, content, raw, o);
      && (Delivery.IsAttachment(c, raw, o) ==> body == content)
      && (!Delivery.IsAttachment(c, raw, o) && badge.None? ==> body == content)
      && (!Delivery.IsAttachment(c, raw, o) && badge.Some? ==>
            body == Charset.ConvertToUtf8(content, badge, o.codec))
      && (!Delivery.IsAttachment(c, raw, o) && badge.Some? && o.codec(badge.value, content).Some? ==>
            Utf8.Valid(body) && Utf8.Decode(body) == o.codec(badge.value, content).value)
      && (body != content ==> badge.Some? && !Delivery.IsAttachment(c, raw, o))
  {
    var c := PosixPath.Join(dir, name);
    var content := tree[c].content;
    var detected := Charset.DetectEncoding(content, o.detect);
    var badge := Listing.MakeEntry(tree, dir, rel, name, o.detect).badge;
    assert badge == Listing.Badge(detected);
    Charset.ConvertUnchanged(content, detected, o.codec);
    if badge.Some? && o.codec(badge.value, content).Some? {
      Charset.ConvertedIsUtf8(content, detected, o.codec);
    }
  }

  /**
   * The parent link of a listing: absent exactly at the root; elsewhere it
   * resolves to the directory one level up, which is still within the root.
   */
  lemma ListingParentLink(root: string, tree: Files.Tree, raw: string, o: Delivery.Oracles)
    requires StartsWith(root, "/") && PosixPath.IsNormalAbsolute(root)
    requires HandleGet(root, tree, raw, o).ListingPage?
    ensures var dir := Resolver.TranslatePath(root, raw).path;
      var up := HandleGet(root, tree, raw, o).page.parent;
      && (up.None? <==> dir == root)
      && (up.Some? ==>
            Resolver.TranslatePath(root, up.value) == Resolver.Resolved(PosixPath.Dirname(dir))
            && PosixPath.Within(root, PosixPath.Dirname(dir)))
  {
    var dir := Resolver.TranslatePath(root, raw).path;
    var page := HandleGet(root, tree, raw, o).page;
    assert page == Listing.BuildPage(tree, dir, root, tree[dir].children, o.detect);
    assert page.parent == Listing.ParentLink(dir, root);
    Resolver.ResolvedShape(root, raw);
    var cs := PosixPath.ComponentsOf(root);
    ParentOfBelowRoot(root, PosixPath.ComponentsOf(dir)[|cs|..]);
  }

  /** The parent link of a directory the resolver can produce. */
  lemma ParentOfBelowRoot(root: string, ps: seq<string>)
    requires StartsWith(root, "/") && PosixPath.IsNormalAbsolute(root)
    requires PosixPath.AllComponents(ps) && !Resolver.SomeDotDot(ps)
    ensures var dir := PosixPath.Absolute(PosixPath.ComponentsOf(root) + ps);
      var up := Listing.ParentLink(dir, root);
      && StartsWith(dir, "/")
      && (up.None? <==> dir == root)
      && (up.Some? ==>
            Resolver.TranslatePath(root, up.value) == Resolver.Resolved(PosixPath.Dirname(dir))
            && PosixPath.Within(root, PosixPath.Dirname(dir)))
  {
    var cs := PosixPath.ComponentsOf(root);
    PosixPath.NormalAbsoluteIsAbsolute(root);
    Listing.ParentLinkResolves(root, ps);
    RootIffNoPieces(cs, ps);
    if ps != [] {
      UpWithin(cs, ps);
    }
  }

  lemma UpWithin(cs: seq<string>, ps: seq<string>)
    requires PosixPath.AllComponents(cs) && PosixPath.AllComponents(ps) && ps != []
    ensures PosixPath.Within(PosixPath.Absolute(cs), PosixPath.Absolute(cs + ps[..|ps| - 1]))
  {
    var up := ps[..|ps| - 1];
    assert PosixPath.AllComponents(up);
    PosixPath.AbsoluteExtendsWithin(cs, up);
  }

  lemma RootIffNoPieces(cs: seq<string>, ps: seq<string>)
    requires PosixPath.AllComponents(cs) && PosixPath.AllComponents(ps)
    ensures PosixPath.Absolute(cs + ps) == PosixPath.Absolute(cs) <==> ps == []
  {
    PosixPath.AllComponentsAppend(cs, ps);
    if PosixPath.Absolute(cs + ps) == PosixPath.Absolute(cs) {
      PosixPath.AbsoluteInjective(cs + ps, cs);
      assert |cs + ps| == |cs|;
    }
    if ps == [] {
      assert cs + ps == cs;
    }
  }
}
