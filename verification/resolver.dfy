/**
 * Path resolution (`translate_path`): a raw request target becomes either
 * a rejection, answered with 403, or a filesystem path under the served
 * root.
 */
module Resolver {
  import opened Common
  import PosixPath
  import Percent

  /** Why a request path is refused. */
  datatype Rejection =
    | Traversal   // the decoded path contains `..`
    | Escape      // the normalised path does not start with the root

  datatype Resolution = Rejected(reason: Rejection) | Resolved(path: string)

  /** The 403 message sent for each rejection. */
  function RejectionMessage(r: Rejection): string {
    match r
    case Traversal => "访问上级目录被禁止"
    case Escape => "访问根目录外的文件被禁止"
  }

  /** Position of the first `?`, if any. */
  function FirstQuestionMark(s: string): (r: Option<nat>)
    ensures r.Some? ==> r.value < |s| && s[r.value] == '?' && '?' !in s[..r.value]
    ensures r.None? ==> '?' !in s
  {
    if s == [] then None
    else if s[0] == '?' then Some(0)
    else
      var r := FirstQuestionMark(s[1..]);
      if r.None? then None
      else
        assert s[..r.value + 1] == [s[0]] + s[1..][..r.value];
        Some(r.value + 1)
  }

  /** `path.split('?', 1)[0]`: everything before the first `?`. */
  function PathPart(raw: string): string {
    var q := FirstQuestionMark(raw);
    if q.Some? then raw[..q.value] else raw
  }

  lemma PathPartWhole(s: string)
    requires '?' !in s
    ensures PathPart(s) == s
  {
  }

  /** The request path after query removal and `unquote(..., 'utf-8', 'replace')`. */
  function DecodedPath(raw: string): string {
    Percent.Unquote(PathPart(raw))
  }

  /**
   * `translate_path`.  `root` is the served directory as `main` passes it,
   * `os.path.abspath` of the command-line argument, hence absolute; for an
   * absolute path `abspath` is `normpath`.
   */
  function TranslatePath(root: string, raw: string): (r: Resolution)
    requires StartsWith(root, "/")
    ensures r.Resolved? ==> StartsWith(r.path, "/")
  {
    var path := DecodedPath(raw);
    if path == "/" then Resolved(root)
    else if HasDotDot(path) then Rejected(Traversal)
    else
      var full := PosixPath.Normpath(PosixPath.Join(root, PosixPath.LStripSlash(path)));
      if !StartsWith(full, PosixPath.Normpath(root)) then Rejected(Escape)
      else Resolved(full)
  }

  /** Everything from the first `?` on is ignored by resolution. */
  lemma QueryIgnored(root: string, path: string, query: string)
    requires StartsWith(root, "/")
    requires '?' !in path
    ensures TranslatePath(root, path + "?" + query) == TranslatePath(root, path)
  {
    var raw := path + "?" + query;
    var q := FirstQuestionMark(raw);
    assert raw[|path|] == '?';
    assert q.Some? && q.value == |path|;
    assert raw[..|path|] == path;
  }

  /** A request for `/` (query aside) resolves to the root itself. */
  lemma RootRequest(root: string, query: string)
    requires StartsWith(root, "/")
    ensures TranslatePath(root, "/") == Resolved(root)
    ensures TranslatePath(root, "/?" + query) == Resolved(root)
  {
    DecodedSlash();
    QueryIgnored(root, "/", query);
  }

  lemma DecodedSlash()
    ensures DecodedPath("/") == "/"
  {
    assert PathPart("/") == "/";
    Percent.UnquoteAllAscii("/");
    assert Percent.UnquoteBytes(AsciiBytes("/")) == [0x2F];
    Utf8DecodeSlash();
  }

  lemma Utf8DecodeSlash()
    ensures Percent.Utf8.Decode([0x2F]) == "/"
  {
    Percent.Utf8.DecodeAscii([0x2F]);
  }

  /**
   * The traversal rule, both directions: a request is refused as traversal
   * exactly when its decoded path contains `..` anywhere, whatever the
   * root, including `..` spelled as `%2e%2e`.
   */
  lemma TraversalIff(root: string, raw: string)
    requires StartsWith(root, "/")
    ensures TranslatePath(root, raw) == Rejected(Traversal) <==> HasDotDot(DecodedPath(raw))
  {
    if HasDotDot(DecodedPath(raw)) {
      assert DecodedPath(raw) != "/";
    }
  }

  /** `/%2e%2e/`, in any letter case, is refused: the `..` test runs after percent-decoding. */
  lemma EncodedTraversalRejected(root: string, raw: string)
    requires StartsWith(root, "/")
    requires |raw| == 8 && raw[0] == '/' && raw[1] == '%' && raw[2] == '2' && raw[4] == '%' && raw[5] == '2' && raw[7] == '/'
    requires (raw[3] == 'e' || raw[3] == 'E') && (raw[6] == 'e' || raw[6] == 'E')
    ensures TranslatePath(root, raw) == Rejected(Traversal)
  {
    Percent.UnquoteEncodedDots(raw);
    assert "/../"[1] == '.' && "/../"[2] == '.';
    assert '?' !in raw;
    DecodedDotDotRejected(root, raw);
  }

  lemma DecodedDotDotRejected(root: string, raw: string)
    requires StartsWith(root, "/")
    requires '?' !in raw && HasDotDot(Percent.Unquote(raw))
    ensures TranslatePath(root, raw) == Rejected(Traversal)
  {
    PathPartWhole(raw);
    TraversalIff(root, raw);
  }

  lemma DotDotOfSuffix(s: string, k: nat)
    requires k <= |s|
    ensures HasDotDot(s[k..]) ==> HasDotDot(s)
  {
    if HasDotDot(s[k..]) {
      var i :| 0 <= i < |s[k..]| - 1 && s[k..][i] == '.' && s[k..][i + 1] == '.';
      assert s[k + i] == '.' && s[k + i + 1] == '.';
    }
  }

  /**
   * Containment.  Under a normalised absolute root the escape test never
   * fires, and every resolved path is the root or lies below it (a real
   * descendant, not a sibling sharing the root's spelling as a prefix);
   * a path other than the root is `normpath(join(root, path.lstrip('/')))`,
   * namely the root extended by the request's non-empty, non-`.` pieces.
   */
  lemma Containment(root: string, raw: string)
    requires PosixPath.IsNormalAbsolute(root)
    ensures StartsWith(root, "/")
    ensures TranslatePath(root, raw) != Rejected(Escape)
    ensures TranslatePath(root, raw).Resolved? ==>
      var p := TranslatePath(root, raw).path;
      && PosixPath.Within(root, p)
      && PosixPath.IsNormalAbsolute(p)
    ensures DecodedPath(raw) != "/" && !HasDotDot(DecodedPath(raw)) ==>
      TranslatePath(root, raw) == Resolved(PosixPath.Normpath(PosixPath.Join(root, PosixPath.LStripSlash(DecodedPath(raw)))))
  {
    PosixPath.NormalAbsoluteIsAbsolute(root);
    var path := DecodedPath(raw);
    if path == "/" {
      assert PosixPath.Within(root, root);
    } else if !HasDotDot(path) {
      BelowRoot(root, path);
    }
  }

  /** A `..`-free path other than `/` lands at or below the root, and passes the prefix test. */
  lemma BelowRoot(root: string, path: string)
    requires PosixPath.IsNormalAbsolute(root) && StartsWith(root, "/")
    requires !HasDotDot(path)
    ensures var full := PosixPath.Normpath(PosixPath.Join(root, PosixPath.LStripSlash(path)));
      && StartsWith(full, PosixPath.Normpath(root))
      && PosixPath.Within(root, full)
      && PosixPath.IsNormalAbsolute(full)
  {
    PosixPath.NormalAbsoluteIsAbsolute(root);
    PosixPath.NormpathNormal(root);
    var tail := PosixPath.LStripSlash(path);
    DotDotOfSuffix(path, |path| - |tail|);
    var cs := PosixPath.ComponentsOf(root);
    PiecesBelow(cs, tail);
    var ps := PosixPath.Clean(PosixPath.Split(tail));
    ShapeBelow(cs, ps);
    PosixPath.AbsoluteExtendsWithin(cs, ps);
    assert StartsWith(PosixPath.Absolute(cs + ps), root);
  }

  /** A `..` in `a/b` lies within `a` or within `b`: the `/` cannot be one of its dots. */
  lemma DotDotAcrossSlash(a: string, b: string)
    ensures HasDotDot(a + "/" + b) <==> HasDotDot(a) || HasDotDot(b)
  {
    var s := a + "/" + b;
    if HasDotDot(s) {
      var i :| 0 <= i < |s| - 1 && s[i] == '.' && s[i + 1] == '.';
      if i + 1 < |a| {
        assert a[i] == s[i] && a[i + 1] == s[i + 1];
      } else if i > |a| {
        assert b[i - |a| - 1] == s[i] && b[i - |a|] == s[i + 1];
      }
    }
    if HasDotDot(a) {
      var i :| 0 <= i < |a| - 1 && a[i] == '.' && a[i + 1] == '.';
      assert s[i] == a[i] && s[i + 1] == a[i + 1];
    }
    if HasDotDot(b) {
      var i :| 0 <= i < |b| - 1 && b[i] == '.' && b[i + 1] == '.';
      assert s[|a| + 1 + i] == b[i] && s[|a| + 2 + i] == b[i + 1];
    }
  }

  /** Some component of the list contains `..`. */
  predicate SomeDotDot(ps: seq<string>) {
    exists i :: 0 <= i < |ps| && HasDotDot(ps[i])
  }

  /** `/c1/.../cn` contains `..` exactly when one of its components does. */
  lemma {:induction false} AbsoluteDotDot(ps: seq<string>)
    ensures HasDotDot(PosixPath.Absolute(ps)) <==> SomeDotDot(ps)
  {
    var j := PosixPath.JoinComponents(ps);
    assert PosixPath.Absolute(ps) == "" + "/" + j;
    DotDotAcrossSlash("", j);
    JoinDotDot(ps);
  }

  lemma {:induction false} JoinDotDot(ps: seq<string>)
    ensures HasDotDot(PosixPath.JoinComponents(ps)) <==> SomeDotDot(ps)
  {
    if |ps| == 1 {
      assert SomeDotDot(ps) <==> HasDotDot(ps[0]);
    } else if |ps| > 1 {
      JoinDotDot(ps[1..]);
      DotDotAcrossSlash(ps[0], PosixPath.JoinComponents(ps[1..]));
      assert SomeDotDot(ps) <==> HasDotDot(ps[0]) || SomeDotDot(ps[1..]) by {
        if SomeDotDot(ps[1..]) {
          var i :| 0 <= i < |ps[1..]| && HasDotDot(ps[1..][i]);
          assert ps[i + 1] == ps[1..][i];
        }
        if SomeDotDot(ps) {
          var i :| 0 <= i < |ps| && HasDotDot(ps[i]);
          if i > 0 { assert ps[1..][i - 1] == ps[i]; }
        }
      }
    }
  }

  /** A link built by `quote` has no `?`, so all of it is path, and it decodes to what was quoted. */
  lemma QuotedLink(x: string)
    ensures var link := Percent.Quote(Percent.Utf8.Encode(x), true);
      && '?' !in link
      && PathPart(link) == link
      && DecodedPath(link) == x
  {
    var link := Percent.Quote(Percent.Utf8.Encode(x), true);
    assert '?' !in link by {
      forall i | 0 <= i < |link| ensures link[i] != '?' {
        assert Percent.Kept(link[i] as int, true) || link[i] == '%' || Percent.IsHexDigit(link[i] as int);
      }
    }
    Percent.UnquoteQuote(x, true);
  }

  /**
   * Following a link `/p1/.../pk` quoted as the listing quotes it leads to
   * the root extended by those components, unless one of them contains
   * `..`, in which case the request is refused as traversal.
   */
  lemma ResolveLink(root: string, ps: seq<string>)
    requires PosixPath.IsNormalAbsolute(root)
    requires PosixPath.AllComponents(ps) && ps != []
    ensures StartsWith(root, "/")
    ensures TranslatePath(root, Percent.Quote(Percent.Utf8.Encode(PosixPath.Absolute(ps)), true))
      == if SomeDotDot(ps) then Rejected(Traversal)
         else Resolved(PosixPath.Absolute(PosixPath.ComponentsOf(root) + ps))
  {
    var x := PosixPath.Absolute(ps);
    var link := Percent.Quote(Percent.Utf8.Encode(x), true);
    QuotedLink(x);
    AbsoluteDotDot(ps);
    PosixPath.NormalAbsoluteIsAbsolute(root);
    PosixPath.JoinNonEmpty(ps);
    assert x != "/" by { assert |x| > 1; }
    if !SomeDotDot(ps) {
      BelowRoot(root, x);
      LinkPieces(PosixPath.ComponentsOf(root), ps);
    }
  }

  /** Joining a link's path to the root and normalising gives the root extended by the link's components. */
  lemma LinkPieces(cs: seq<string>, ps: seq<string>)
    requires PosixPath.AllComponents(cs) && PosixPath.AllComponents(ps) && ps != [] && !SomeDotDot(ps)
    ensures var x := PosixPath.Absolute(ps);
      PosixPath.Normpath(PosixPath.Join(PosixPath.Absolute(cs), PosixPath.LStripSlash(x)))
        == PosixPath.Absolute(cs + ps)
  {
    var x := PosixPath.Absolute(ps);
    var j := PosixPath.JoinComponents(ps);
    PosixPath.JoinNonEmpty(ps);
    assert PosixPath.LStripSlash(x) == j by {
      assert x[1..] == j;
    }
    JoinDotDot(ps);
    assert !StartsWith(j, "/");
    PosixPath.NormpathUnder(cs, j);
    PosixPath.SplitJoin(ps);
    PosixPath.CleanComponents(ps);
  }

  /** The pieces `normpath` keeps are pieces of its input. */
  lemma {:induction false} CleanKeepsPieces(cs: seq<string>)
    ensures forall i :: 0 <= i < |PosixPath.Clean(cs)| ==> PosixPath.Clean(cs)[i] in cs
  {
    if cs != [] {
      CleanKeepsPieces(cs[1..]);
    }
  }

  /**
   * The converse of `ResolveLink`: whatever a request resolves to is the
   * root extended by components none of which contains `..`; the
   * components are those of the resolved path after the root's own.
   */
  lemma ResolvedShape(root: string, raw: string)
    requires StartsWith(root, "/") && PosixPath.IsNormalAbsolute(root)
    requires TranslatePath(root, raw).Resolved?
    ensures var p := TranslatePath(root, raw).path;
      var cs := PosixPath.ComponentsOf(root);
      && PosixPath.IsNormalAbsolute(p)
      && |cs| <= |PosixPath.ComponentsOf(p)|
      && var ps := PosixPath.ComponentsOf(p)[|cs|..];
      && PosixPath.AllComponents(ps) && !SomeDotDot(ps)
      && p == PosixPath.Absolute(cs + ps)
  {
    var cs := PosixPath.ComponentsOf(root);
    PosixPath.NormalAbsoluteIsAbsolute(root);
    var path := DecodedPath(raw);
    var qs: seq<string>;
    if path == "/" {
      qs := [];
      assert cs + qs == cs;
    } else {
      var tail := PosixPath.LStripSlash(path);
      DotDotOfSuffix(path, |path| - |tail|);
      PiecesBelow(cs, tail);
      qs := PosixPath.Clean(PosixPath.Split(tail));
    }
    ShapeBelow(cs, qs);
  }

  /** What `normpath` keeps of a `..`-free relative tail joined to the root. */
  lemma PiecesBelow(cs: seq<string>, tail: string)
    requires PosixPath.AllComponents(cs)
    requires !HasDotDot(tail) && !StartsWith(tail, "/")
    ensures var qs := PosixPath.Clean(PosixPath.Split(tail));
      && PosixPath.Normpath(PosixPath.Join(PosixPath.Absolute(cs), tail)) == PosixPath.Absolute(cs + qs)
      && PosixPath.AllComponents(qs) && !SomeDotDot(qs)
  {
    PosixPath.NormpathUnder(cs, tail);
    PosixPath.SplitKeepsNoDotDot(tail);
    CleanKeepsPieces(PosixPath.Split(tail));
  }

  /** The root's components extended by `qs` form a normalised path whose trailing components are `qs`. */
  lemma ShapeBelow(cs: seq<string>, qs: seq<string>)
    requires PosixPath.AllComponents(cs) && PosixPath.AllComponents(qs)
    ensures var p := PosixPath.Absolute(cs + qs);
      && PosixPath.IsNormalAbsolute(p)
      && |cs| <= |PosixPath.ComponentsOf(p)|
      && PosixPath.ComponentsOf(p)[|cs|..] == qs
  {
    PosixPath.AllComponentsAppend(cs, qs);
    PosixPath.AbsoluteShape(cs + qs);
    assert (cs + qs)[|cs|..] == qs;
  }
}
