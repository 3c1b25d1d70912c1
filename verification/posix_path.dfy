/**
 * The `posixpath` operations the request handler uses: `str.split('/')`,
 * `'/'.join`, `join`, `normpath`, `basename`, `dirname`, `relpath`,
 * `lstrip('/')` and `splitext`, each as the Python library defines it for
 * POSIX paths.  The second half of the module describes normalised
 * absolute paths and proves how `normpath` treats a relative tail joined
 * under one; the resolver's containment guarantee rests on it.
 */
module PosixPath {
  import opened Common

  /** `s.split('/')`: never empty; the pieces contain no `/`. */
  function Split(s: string): (r: seq<string>)
    ensures |r| >= 1
    ensures forall i :: 0 <= i < |r| ==> '/' !in r[i]
  {
    if s == [] then [""]
    else
      var rest := Split(s[1..]);
      if s[0] == '/' then [""] + rest else [[s[0]] + rest[0]] + rest[1..]
  }

  /** `'/'.join(cs)` */
  function JoinComponents(cs: seq<string>): string
  {
    if cs == [] then "" else if |cs| == 1 then cs[0] else cs[0] + "/" + JoinComponents(cs[1..])
  }

  /** `posixpath.join(a, b)` for one right-hand part. */
  function Join(a: string, b: string): string
  {
    if StartsWith(b, "/") then b
    else if a == [] || a[|a| - 1] == '/' then a + b
    else a + "/" + b
  }

  /** `s.lstrip('/')` */
  function LStripSlash(s: string): (r: string)
    ensures |r| <= |s| && r == s[|s| - |r|..]
    ensures r != [] ==> r[0] != '/'
    ensures forall i :: 0 <= i < |s| - |r| ==> s[i] == '/'
  {
    if s != [] && s[0] == '/' then LStripSlash(s[1..]) else s
  }

  function Slashes(n: nat): (r: string)
    ensures |r| == n && forall i :: 0 <= i < n ==> r[i] == '/'
  {
    if n == 0 then "" else "/" + Slashes(n - 1)
  }

  /**
   * The component loop of `normpath`: empty and `.` components vanish,
   * `..` removes the previous component unless there is none (dropped
   * at the root of an absolute path, kept for a relative one) or it is
   * itself `..`.
   */
  function Reduce(stack: seq<string>, comps: seq<string>, absolute: bool): seq<string>
    decreases |comps|
  {
    if comps == [] then stack
    else
      var c := comps[0];
      var next :=
        if c == "" || c == "." then stack
        else if c != ".." || (!absolute && stack == []) || (stack != [] && stack[|stack| - 1] == "..") then stack + [c]
        else if stack != [] then stack[..|stack| - 1]
        else stack;
      Reduce(next, comps[1..], absolute)
  }

  /** Leading slashes `normpath` keeps: two exactly when there are exactly two. */
  function InitialSlashes(path: string): nat
  {
    if !StartsWith(path, "/") then 0
    else if StartsWith(path, "//") && !StartsWith(path, "///") then 2
    else 1
  }

  /** `posixpath.normpath` */
  function Normpath(path: string): (r: string)
    ensures r != []
    ensures StartsWith(path, "/") ==> StartsWith(r, "/")
  {
    if path == [] then "."
    else
      var slashes := InitialSlashes(path);
      var body := Slashes(slashes) + JoinComponents(Reduce([], Split(path), slashes > 0));
      if body == [] then "." else body
  }

  /** Index just past the last `/` of `p` (0 when there is none): `p.rfind('/') + 1`. */
  function AfterLastSlash(p: string): (i: nat)
    ensures i <= |p|
    ensures i > 0 ==> p[i - 1] == '/'
    ensures forall j :: i <= j < |p| ==> p[j] != '/'
  {
    if p == [] then 0
    else if p[|p| - 1] == '/' then |p|
    else AfterLastSlash(p[..|p| - 1])
  }

  /** `posixpath.basename` */
  function Basename(p: string): (r: string)
    ensures '/' !in r
  {
    var r := p[AfterLastSlash(p)..];
    assert forall j :: 0 <= j < |r| ==> r[j] == p[AfterLastSlash(p) + j];
    r
  }

  function RStripSlash(s: string): (r: string)
    ensures |r| <= |s| && r == s[..|r|]
    ensures r != [] ==> r[|r| - 1] != '/'
    ensures forall i :: |r| <= i < |s| ==> s[i] == '/'
  {
    if s != [] && s[|s| - 1] == '/' then RStripSlash(s[..|s| - 1]) else s
  }

  /** `posixpath.dirname`: the head up to the last `/`, without trailing slashes unless it is all slashes. */
  function Dirname(p: string): (r: string)
    ensures StartsWith(p, "/") ==> StartsWith(r, "/")
  {
    var head := p[..AfterLastSlash(p)];
    assert StartsWith(p, "/") ==> AfterLastSlash(p) >= 1 && head[0] == '/';
    if head != [] && head != Slashes(|head|) then
      RStripSlash(head)
    else head
  }

  /** `[x for x in s.split('/') if x]` */
  function NonEmpty(cs: seq<string>): (r: seq<string>)
    ensures |r| <= |cs|
    ensures forall i :: 0 <= i < |r| ==> r[i] != []
  {
    if cs == [] then []
    else if cs[0] == "" then NonEmpty(cs[1..])
    else [cs[0]] + NonEmpty(cs[1..])
  }

  /** Length of the longest common prefix of two component lists (`commonprefix`). */
  function CommonPrefixLength(a: seq<string>, b: seq<string>): (n: nat)
    ensures n <= |a| && n <= |b|
    ensures a[..n] == b[..n]
    ensures n < |a| && n < |b| ==> a[n] != b[n]
  {
    if a == [] || b == [] || a[0] != b[0] then 0
    else
      var k := CommonPrefixLength(a[1..], b[1..]);
      assert a[..k + 1] == [a[0]] + a[1..][..k];
      assert b[..k + 1] == [b[0]] + b[1..][..k];
      1 + k
  }

  function Repeat(s: string, n: nat): seq<string>
    ensures |Repeat(s, n)| == n
  {
    if n == 0 then [] else [s] + Repeat(s, n - 1)
  }

  /**
   * `posixpath.relpath(path, start)` for absolute arguments, where
   * `abspath` is `normpath`.
   */
  function RelPath(path: string, start: string): string
    requires StartsWith(path, "/") && StartsWith(start, "/")
  {
    var startList := NonEmpty(Split(Normpath(start)));
    var pathList := NonEmpty(Split(Normpath(path)));
    var i := CommonPrefixLength(startList, pathList);
    var relList := Repeat("..", |startList| - i) + pathList[i..];
    if relList == [] then "." else JoinComponents(relList)
  }

  /** The extension `posixpath.splitext` splits off: from the last dot of the base name, unless only dots precede it. */
  function Extension(p: string): (ext: string)
    ensures ext == [] || ext[0] == '.'
  {
    var base := Basename(p);
    var dot := LastIndexOf(base, '.');
    if dot.Some? && exists j :: 0 <= j < dot.value && base[j] != '.' then base[dot.value..] else ""
  }

  /** The root `posixpath.splitext` keeps: everything before the extension. */
  function StripExtension(p: string): (r: string)
    ensures r + Extension(p) == p
  {
    ExtensionIsSuffix(p);
    p[..|p| - |Extension(p)|]
  }

  lemma ExtensionIsSuffix(p: string)
    ensures |Extension(p)| <= |p| && p[|p| - |Extension(p)|..] == Extension(p)
    ensures '/' !in Extension(p)
  {
    var a := AfterLastSlash(p);
    var base := Basename(p);
    assert base == p[a..];
    var dot := LastIndexOf(base, '.');
    if Extension(p) != "" {
      assert base[dot.value..] == p[a + dot.value..];
    }
  }

  /** The index just past the last slash is the one after which no slash follows. */
  lemma AfterLastSlashUnique(q: string, i: nat)
    requires i <= |q| && (i > 0 ==> q[i - 1] == '/')
    requires forall j :: i <= j < |q| ==> q[j] != '/'
    ensures AfterLastSlash(q) == i
  {
    var a := AfterLastSlash(q);
    assert a >= i by {
      if i > 0 { assert q[i - 1] == '/'; }
    }
    assert a <= i by {
      if a > 0 { assert q[a - 1] == '/'; }
    }
  }

  /** Appending slash-free text extends the base name and keeps the directory part. */
  lemma BasenameAppend(p: string, e: string)
    requires '/' !in e
    ensures AfterLastSlash(p + e) == AfterLastSlash(p)
    ensures Basename(p + e) == Basename(p) + e
  {
    var q := p + e;
    var ap := AfterLastSlash(p);
    forall j | ap <= j < |q| ensures q[j] != '/' {
      if j < |p| {
        assert q[j] == p[j];
      } else {
        assert q[j] == e[j - |p|];
      }
    }
    if ap > 0 {
      assert q[ap - 1] == p[ap - 1];
    }
    AfterLastSlashUnique(q, ap);
    assert q[ap..] == p[ap..] + e;
  }

  /** A single-dot suffix such as `.gz`: a dot, then neither dots nor slashes. */
  predicate IsDotSuffix(e: string) {
    |e| >= 1 && e[0] == '.' && '.' !in e[1..] && '/' !in e
  }

  /** A base name that is not made of dots alone, so that `splitext` may split it. */
  predicate HasNonDot(s: string) {
    exists k :: 0 <= k < |s| && s[k] != '.'
  }

  /** Appending `.x` to a path whose base name is not all dots makes `.x` its extension. */
  lemma ExtensionAppend(p: string, e: string)
    requires HasNonDot(Basename(p)) && IsDotSuffix(e)
    ensures Extension(p + e) == e
    ensures StripExtension(p + e) == p
    ensures HasNonDot(Basename(p + e))
  {
    BasenameAppend(p, e);
    var b := Basename(p);
    var base := b + e;
    assert base[|b|] == '.';
    forall j | |b| < j < |base| ensures base[j] != '.' {
      assert base[j] == e[1..][j - |b| - 1];
    }
    var k :| 0 <= k < |b| && b[k] != '.';
    assert base[k] != '.';
    assert LastIndexOf(base, '.') == Some(|b|);
    assert base[|b|..] == e;
  }

  /** A path with an extension keeps, before it, a base name that is not all dots. */
  lemma StrippedHasNonDot(p: string)
    requires Extension(p) != ""
    ensures HasNonDot(Basename(StripExtension(p)))
  {
    var r, e := StripExtension(p), Extension(p);
    ExtensionIsSuffix(p);
    BasenameAppend(r, e);
    var base := Basename(p);
    var dot := LastIndexOf(base, '.');
    assert base[dot.value..] == e;
    var j :| 0 <= j < dot.value && base[j] != '.';
    assert Basename(r)[j] == base[j];
  }

  function LastIndexOf(s: string, c: char): (r: Option<nat>)
    ensures r.Some? ==> r.value < |s| && s[r.value] == c && forall j :: r.value < j < |s| ==> s[j] != c
    ensures r.None? ==> c !in s
  {
    if s == [] then None
    else if s[|s| - 1] == c then Some(|s| - 1)
    else LastIndexOf(s[..|s| - 1], c)
  }

  // ---------------------------------------------------------------------
  // Normalised absolute paths
  // ---------------------------------------------------------------------

  /** A path component `normpath` leaves in an absolute path: non-empty, slash-free, not `.` or `..`. */
  predicate IsComponent(c: string) {
    c != [] && '/' !in c && c != "." && c != ".."
  }

  predicate AllComponents(cs: seq<string>) {
    forall i :: 0 <= i < |cs| ==> IsComponent(cs[i])
  }

  /** `/` followed by the components `cs`. */
  function Absolute(cs: seq<string>): string
  {
    "/" + JoinComponents(cs)
  }

  /**
   * A normalised absolute path: `/` or `/c1/.../cn` with every `ci` a
   * component.  `os.path.abspath` yields this shape except for paths
   * spelled with exactly two leading slashes.
   */
  predicate IsNormalAbsolute(p: string) {
    p == "/" || (|p| >= 2 && p[0] == '/' && AllComponents(Split(p[1..])))
  }

  /** The components of a normalised absolute path. */
  function ComponentsOf(p: string): seq<string>
    requires IsNormalAbsolute(p)
  {
    if p == "/" then [] else Split(p[1..])
  }

  /** `p` names `root` itself or something inside it (not merely a path sharing its spelling as a prefix). */
  predicate Within(root: string, p: string) {
    p == root
    || (StartsWith(p, root) && |p| > |root| > 0 && (root[|root| - 1] == '/' || p[|root|] == '/'))
  }

  lemma {:induction false} SplitNoSlash(c: string)
    requires '/' !in c
    ensures Split(c) == [c]
  {
    if c != [] {
      assert '/' !in c[1..] by {
        forall j | 0 <= j < |c[1..]| ensures c[1..][j] != '/' { assert c[1..][j] == c[j + 1]; }
      }
      SplitNoSlash(c[1..]);
      assert [c[0]] + c[1..] == c;
    }
  }

  /** Splitting at a `/` splits the piece lists apart. */
  lemma {:induction false} SplitAppend(a: string, b: string)
    ensures Split(a + "/" + b) == Split(a) + Split(b)
  {
    if a == [] {
      assert a + "/" + b == "/" + b;
      assert ("/" + b)[1..] == b;
    } else {
      assert (a + "/" + b)[1..] == a[1..] + "/" + b;
      SplitAppend(a[1..], b);
    }
  }

  lemma {:induction false} JoinAppend(a: seq<string>, b: seq<string>)
    requires a != [] && b != []
    ensures JoinComponents(a + b) == JoinComponents(a) + "/" + JoinComponents(b)
  {
    if |a| == 1 {
      assert (a + b)[1..] == b;
    } else {
      assert (a + b)[1..] == a[1..] + b;
      JoinAppend(a[1..], b);
    }
  }

  /** Joining slash-free pieces and splitting them again gives the pieces back. */
  lemma {:induction false} SplitJoin(cs: seq<string>)
    requires cs != []
    requires forall i :: 0 <= i < |cs| ==> '/' !in cs[i]
    ensures Split(JoinComponents(cs)) == cs
  {
    if |cs| == 1 {
      SplitNoSlash(cs[0]);
    } else {
      SplitNoSlash(cs[0]);
      SplitAppend(cs[0], JoinComponents(cs[1..]));
      SplitJoin(cs[1..]);
    }
  }

  lemma {:induction false} JoinSplit(s: string)
    ensures JoinComponents(Split(s)) == s
  {
    if s != [] {
      JoinSplit(s[1..]);
      var rest := Split(s[1..]);
      if s[0] == '/' {
        assert s == "" + "/" + s[1..];
      } else {
        var r := [[s[0]] + rest[0]] + rest[1..];
        if |rest| > 1 {
          assert rest == [rest[0]] + rest[1..];
          JoinHead(rest);
          JoinHead(r);
        }
      }
    }
  }

  lemma JoinHead(cs: seq<string>)
    requires |cs| > 1
    ensures JoinComponents(cs) == cs[0] + "/" + JoinComponents(cs[1..])
  {
  }

  /** The first piece of a split is a prefix of the string. */
  lemma {:induction false} SplitHeadIsPrefix(s: string)
    ensures StartsWith(s, Split(s)[0])
  {
    if s != [] && s[0] != '/' {
      SplitHeadIsPrefix(s[1..]);
    }
  }

  /** Every piece of a split occurs in the string. */
  lemma {:induction false} SplitPieceOccurs(s: string, i: nat)
    requires i < |Split(s)|
    ensures Contains(s, Split(s)[i])
  {
    var piece := Split(s)[i];
    if s == [] {
      assert StartsWith(s[0..], piece);
    } else {
      var rest := Split(s[1..]);
      if s[0] == '/' && i == 0 {
        assert StartsWith(s[0..], piece);
      } else if i == 0 {
        SplitHeadIsPrefix(s[1..]);
        assert piece == [s[0]] + rest[0];
        assert s[0..][..|piece|] == [s[0]] + s[1..][..|rest[0]|];
        assert StartsWith(s[0..], piece);
      } else {
        var j := if s[0] == '/' then i - 1 else i;
        assert piece == rest[j];
        SplitPieceOccurs(s[1..], j);
        var k :| 0 <= k <= |s[1..]| - |piece| && StartsWith(s[1..][k..], piece);
        assert s[1..][k..] == s[k + 1..];
        assert StartsWith(s[k + 1..], piece);
      }
    }
  }

  /** A `..` inside a part of a string is a `..` of the string. */
  lemma DotDotOfPart(s: string, t: string)
    requires Contains(s, t) && HasDotDot(t)
    ensures HasDotDot(s)
  {
    var k :| 0 <= k <= |s| - |t| && StartsWith(s[k..], t);
    var i :| 0 <= i < |t| - 1 && t[i] == '.' && t[i + 1] == '.';
    assert s[k..][..|t|] == t;
    assert s[k + i] == t[i] && s[k + i + 1] == t[i + 1];
  }

  /** No piece of a split contains `..` unless the string does. */
  lemma SplitKeepsNoDotDot(s: string)
    requires !HasDotDot(s)
    ensures forall i :: 0 <= i < |Split(s)| ==> !HasDotDot(Split(s)[i])
  {
    forall i | 0 <= i < |Split(s)| ensures !HasDotDot(Split(s)[i]) {
      SplitPieceOccurs(s, i);
      if HasDotDot(Split(s)[i]) {
        DotDotOfPart(s, Split(s)[i]);
      }
    }
  }

  /** The pieces `normpath` keeps from a relative tail: all but the empty ones and `.`. */
  function Clean(cs: seq<string>): (r: seq<string>)
  {
    if cs == [] then []
    else if cs[0] == "" || cs[0] == "." then Clean(cs[1..])
    else [cs[0]] + Clean(cs[1..])
  }

  lemma {:induction false} ReduceAppend(st: seq<string>, a: seq<string>, b: seq<string>, absolute: bool)
    decreases a
    ensures Reduce(st, a + b, absolute) == Reduce(Reduce(st, a, absolute), b, absolute)
  {
    if a == [] {
      assert a + b == b;
    } else {
      assert (a + b)[0] == a[0] && (a + b)[1..] == a[1..] + b;
      var c := a[0];
      var next :=
        if c == "" || c == "." then st
        else if c != ".." || (!absolute && st == []) || (st != [] && st[|st| - 1] == "..") then st + [c]
        else if st != [] then st[..|st| - 1]
        else st;
      ReduceAppend(next, a[1..], b, absolute);
    }
  }

  /** Without `..`, the component loop only drops empty and `.` pieces. */
  lemma {:induction false} ReduceWithoutDotDot(st: seq<string>, cs: seq<string>, absolute: bool)
    requires forall i :: 0 <= i < |cs| ==> cs[i] != ".."
    ensures Reduce(st, cs, absolute) == st + Clean(cs)
    decreases cs
  {
    if cs != [] {
      ReduceWithoutDotDot(if cs[0] == "" || cs[0] == "." then st else st + [cs[0]], cs[1..], absolute);
    }
  }

  lemma {:induction false} CleanComponents(cs: seq<string>)
    requires AllComponents(cs)
    ensures Clean(cs) == cs
  {
    if cs != [] {
      CleanComponents(cs[1..]);
    }
  }

  /** What survives of a `..`-free relative path is a list of proper components. */
  lemma {:induction false} CleanSplitIsComponents(s: string)
    requires !HasDotDot(s)
    ensures AllComponents(Clean(Split(s)))
  {
    SplitKeepsNoDotDot(s);
    CleanKeepsComponents(Split(s));
  }

  lemma {:induction false} CleanKeepsComponents(cs: seq<string>)
    requires forall i :: 0 <= i < |cs| ==> '/' !in cs[i] && !HasDotDot(cs[i])
    ensures AllComponents(Clean(cs))
  {
    if cs != [] {
      CleanKeepsComponents(cs[1..]);
      NotDotDot(cs[0]);
    }
  }

  lemma AbsoluteShape(cs: seq<string>)
    requires AllComponents(cs)
    ensures IsNormalAbsolute(Absolute(cs))
    ensures ComponentsOf(Absolute(cs)) == cs
  {
    var p := Absolute(cs);
    if cs == [] {
      assert p == "/";
    } else {
      assert p[1..] == JoinComponents(cs);
      SplitJoin(cs);
      assert p != "/" by {
        assert |JoinComponents(cs)| > 0 by { JoinNonEmpty(cs); }
      }
    }
  }

  lemma JoinNonEmpty(cs: seq<string>)
    requires cs != [] && cs[0] != []
    ensures |JoinComponents(cs)| >= |cs[0]| && JoinComponents(cs)[0] == cs[0][0]
  {
  }

  /** Every normalised absolute path is `/` followed by its components. */
  lemma NormalAbsoluteIsAbsolute(p: string)
    requires IsNormalAbsolute(p)
    ensures p == Absolute(ComponentsOf(p))
    ensures AllComponents(ComponentsOf(p))
  {
    if p != "/" {
      JoinSplit(p[1..]);
    }
  }

  /** A normalised absolute path plus a `/`-separated tail, split into pieces. */
  lemma SplitAbsolute(cs: seq<string>, tail: string)
    requires AllComponents(cs) && cs != []
    ensures Split(Absolute(cs) + "/" + tail) == [""] + cs + Split(tail)
  {
    var p := Absolute(cs) + "/" + tail;
    assert p[0] == '/';
    assert p[1..] == JoinComponents(cs) + "/" + tail;
    SplitAppend(JoinComponents(cs), tail);
    SplitJoin(cs);
  }

  /**
   * `normpath` of a normalised absolute path followed by a relative,
   * `..`-free tail: the path extended by the tail's proper components.
   */
  lemma NormpathUnder(cs: seq<string>, tail: string)
    requires AllComponents(cs)
    requires !HasDotDot(tail) && !StartsWith(tail, "/")
    ensures Normpath(Join(Absolute(cs), tail)) == Absolute(cs + Clean(Split(tail)))
    ensures AllComponents(Clean(Split(tail)))
  {
    CleanSplitIsComponents(tail);
    NoDotDotPieces(tail);
    if cs == [] {
      NormpathUnderSlash(tail);
      assert cs + Clean(Split(tail)) == Clean(Split(tail));
    } else {
      NormpathUnderComponents(cs, tail);
    }
  }

  lemma NoDotDotPieces(tail: string)
    requires !HasDotDot(tail)
    ensures forall i :: 0 <= i < |Split(tail)| ==> Split(tail)[i] != ".."
  {
    SplitKeepsNoDotDot(tail);
    forall i | 0 <= i < |Split(tail)| ensures Split(tail)[i] != ".." {
      NotDotDot(Split(tail)[i]);
    }
  }

  lemma NormpathUnderSlash(tail: string)
    requires !StartsWith(tail, "/")
    requires forall i :: 0 <= i < |Split(tail)| ==> Split(tail)[i] != ".."
    ensures Normpath(Join("/", tail)) == Absolute(Clean(Split(tail)))
  {
    var joined := Join("/", tail);
    assert joined == "" + "/" + tail;
    SplitAppend("", tail);
    InitialSlashesOne(joined);
    NormpathOneSlash(joined, Split(tail));
  }

  lemma NormpathUnderComponents(cs: seq<string>, tail: string)
    requires AllComponents(cs) && cs != []
    requires !StartsWith(tail, "/")
    requires forall i :: 0 <= i < |Split(tail)| ==> Split(tail)[i] != ".."
    ensures Normpath(Join(Absolute(cs), tail)) == Absolute(cs + Clean(Split(tail)))
  {
    var joined := Join(Absolute(cs), tail);
    var qs := cs + Split(tail);
    JoinedUnderComponents(cs, tail);
    NoDotDotAppend(cs, Split(tail));
    NormpathOneSlash(joined, qs);
    CleanAppend(cs, Split(tail));
    CleanComponents(cs);
  }

  lemma NoDotDotAppend(cs: seq<string>, ts: seq<string>)
    requires AllComponents(cs)
    requires forall i :: 0 <= i < |ts| ==> ts[i] != ".."
    ensures forall i :: 0 <= i < |cs + ts| ==> (cs + ts)[i] != ".."
  {
    forall i | 0 <= i < |cs + ts| ensures (cs + ts)[i] != ".." {
      if i >= |cs| { assert (cs + ts)[i] == ts[i - |cs|]; }
    }
  }

  /** Joining a relative tail under `/c1/.../cn`: the joined path and its pieces. */
  lemma JoinedUnderComponents(cs: seq<string>, tail: string)
    requires AllComponents(cs) && cs != []
    requires !StartsWith(tail, "/")
    ensures Join(Absolute(cs), tail) == Absolute(cs) + "/" + tail
    ensures Split(Join(Absolute(cs), tail)) == [""] + (cs + Split(tail))
    ensures InitialSlashes(Join(Absolute(cs), tail)) == 1
  {
    var root := Absolute(cs);
    var joined := root + "/" + tail;
    JoinLast(cs);
    assert Join(root, tail) == joined;
    SplitAbsolute(cs, tail);
    JoinNonEmpty(cs);
    assert joined[1] == cs[0][0];
    InitialSlashesOne(joined);
  }

  lemma DotDotHasDotDot()
    ensures HasDotDot("..")
  {
    assert ".."[0] == '.' && ".."[1] == '.';
  }

  lemma NotDotDot(c: string)
    requires !HasDotDot(c)
    ensures c != ".."
  {
    DotDotHasDotDot();
  }

  lemma InitialSlashesOne(x: string)
    requires |x| >= 1 && x[0] == '/'
    requires |x| >= 2 ==> x[1] != '/'
    ensures InitialSlashes(x) == 1
  {
    assert StartsWith(x, "/");
    assert !StartsWith(x, "//");
  }

  /** `normpath` of a path with one leading slash and no `..` piece keeps the proper pieces. */
  lemma NormpathOneSlash(x: string, qs: seq<string>)
    requires InitialSlashes(x) == 1
    requires Split(x) == [""] + qs
    requires forall i :: 0 <= i < |qs| ==> qs[i] != ".."
    ensures Normpath(x) == Absolute(Clean(qs))
  {
    assert x != [];
    ReduceWithoutDotDot([], [""] + qs, true);
    assert ([""] + qs)[1..] == qs;
    assert Clean([""] + qs) == Clean(qs);
    var comps := Reduce([], Split(x), true);
    assert comps == Clean(qs);
    assert Slashes(1) == "/";
    var body := Slashes(1) + JoinComponents(comps);
    assert body != [];
    assert Normpath(x) == body;
  }

  lemma {:induction false} CleanAppend(a: seq<string>, b: seq<string>)
    ensures Clean(a + b) == Clean(a) + Clean(b)
  {
    if a == [] {
      assert a + b == b;
    } else {
      assert (a + b)[0] == a[0] && (a + b)[1..] == a[1..] + b;
      CleanAppend(a[1..], b);
    }
  }

  lemma {:induction false} JoinLast(cs: seq<string>)
    requires cs != [] && cs[|cs| - 1] != []
    ensures JoinComponents(cs) != []
    ensures JoinComponents(cs)[|JoinComponents(cs)| - 1] == cs[|cs| - 1][|cs[|cs| - 1]| - 1]
  {
    if |cs| > 1 {
      JoinLast(cs[1..]);
    }
  }

  /** `normpath` leaves a normalised absolute path alone: `abspath(root) == root`. */
  lemma NormpathNormal(p: string)
    requires IsNormalAbsolute(p)
    ensures Normpath(p) == p
  {
    NormalAbsoluteIsAbsolute(p);
    var cs := ComponentsOf(p);
    if cs == [] {
      assert p == "/";
      assert Split(p) == [""] + [""];
      InitialSlashesOne(p);
      NormpathOneSlash(p, [""]);
    } else {
      JoinNonEmpty(cs);
      assert p == "" + "/" + JoinComponents(cs);
      SplitAppend("", JoinComponents(cs));
      SplitJoin(cs);
      InitialSlashesOne(p);
      NormpathOneSlash(p, cs);
      CleanComponents(cs);
    }
  }

  lemma AllComponentsAppend(cs: seq<string>, ps: seq<string>)
    requires AllComponents(cs) && AllComponents(ps)
    ensures AllComponents(cs + ps)
  {
    forall i | 0 <= i < |cs + ps| ensures IsComponent((cs + ps)[i]) {
      if i >= |cs| { assert (cs + ps)[i] == ps[i - |cs|]; }
    }
  }

  /** Extending a normalised absolute path by components stays inside it. */
  lemma AbsoluteExtendsWithin(cs: seq<string>, ps: seq<string>)
    requires AllComponents(cs) && AllComponents(ps)
    ensures Within(Absolute(cs), Absolute(cs + ps))
  {
    var root := Absolute(cs);
    if ps == [] {
      assert cs + ps == cs;
    } else if cs == [] {
      assert cs + ps == ps;
      assert root == "/";
    } else {
      JoinAppend(cs, ps);
      assert Absolute(cs + ps) == root + "/" + JoinComponents(ps);
      assert (root + "/" + JoinComponents(ps))[..|root|] == root;
    }
  }

  // ---------------------------------------------------------------------
  // relpath, dirname and join on normalised absolute paths
  // ---------------------------------------------------------------------

  lemma {:induction false} NonEmptyComponents(xs: seq<string>)
    requires AllComponents(xs)
    ensures NonEmpty(xs) == xs
  {
    if xs != [] {
      NonEmptyComponents(xs[1..]);
    }
  }

  /** The component list `relpath` computes for a normalised absolute path is its components. */
  lemma PiecesOfAbsolute(xs: seq<string>)
    requires AllComponents(xs)
    ensures NonEmpty(Split(Normpath(Absolute(xs)))) == xs
  {
    AbsoluteShape(xs);
    NormpathNormal(Absolute(xs));
    var p := Absolute(xs);
    assert p == "" + "/" + JoinComponents(xs);
    SplitAppend("", JoinComponents(xs));
    if xs == [] {
      assert Split("") == [""];
      assert NonEmpty([""] + [""]) == [];
    } else {
      SplitJoin(xs);
      assert NonEmpty([""] + xs) == NonEmpty(xs);
      NonEmptyComponents(xs);
    }
  }

  /** `relpath` of a path below `start` is the extra components, or `.` for `start` itself. */
  lemma RelPathUnder(cs: seq<string>, ps: seq<string>)
    requires AllComponents(cs) && AllComponents(ps)
    ensures RelPath(Absolute(cs + ps), Absolute(cs)) == if ps == [] then "." else JoinComponents(ps)
  {
    AllComponentsAppend(cs, ps);
    PiecesOfAbsolute(cs);
    PiecesOfAbsolute(cs + ps);
    var n := CommonPrefixLength(cs, cs + ps);
    assert n == |cs|;
    assert (cs + ps)[|cs|..] == ps;
    assert Repeat("..", 0) + ps == ps;
  }

  /** Index past the last slash of `prefix + "/" + c` when `c` has none. */
  lemma {:induction false} AfterLastSlashOf(prefix: string, c: string)
    requires '/' !in c
    ensures AfterLastSlash(prefix + "/" + c) == |prefix| + 1
    decreases |c|
  {
    var p := prefix + "/" + c;
    if c != [] {
      assert p[..|p| - 1] == prefix + "/" + c[..|c| - 1];
      assert c[|c| - 1] in c;
      AfterLastSlashOf(prefix, c[..|c| - 1]);
    }
  }

  /** `dirname` of `/c1/.../cn` is `/c1/.../c(n-1)`. */
  lemma DirnameAbsolute(xs: seq<string>)
    requires AllComponents(xs) && xs != []
    ensures Dirname(Absolute(xs)) == Absolute(xs[..|xs| - 1])
  {
    var init, last := xs[..|xs| - 1], xs[|xs| - 1];
    assert xs == init + [last];
    assert IsComponent(last);
    if init == [] {
      var p := Absolute(xs);
      assert p == "" + "/" + last;
      AfterLastSlashOf("", last);
      assert p[..1] == "/" == Slashes(1);
    } else {
      var a := Absolute(init);
      JoinAppend(init, [last]);
      var p := a + "/" + last;
      assert Absolute(xs) == p;
      AfterLastSlashOf(a, last);
      var head := p[..|a| + 1];
      assert head == a + "/";
      JoinNonEmpty(init);
      assert head[1] != '/';
      assert head != Slashes(|head|) by { assert Slashes(|head|)[1] == '/'; }
      JoinLast(init);
      assert head[..|a|] == a;
      RStripSlashOnce(a);
    }
  }

  lemma RStripSlashOnce(a: string)
    requires a != [] && a[|a| - 1] != '/'
    ensures RStripSlash(a + "/") == a
  {
    assert (a + "/")[..|a|] == a;
  }

  /** `join(/c1/.../cn, name)` for a component `name` appends it. */
  lemma JoinChild(xs: seq<string>, name: string)
    requires AllComponents(xs) && IsComponent(name)
    ensures Join(Absolute(xs), name) == Absolute(xs + [name])
  {
    assert !StartsWith(name, "/") by { assert name[0] in name; }
    if xs == [] {
      assert xs + [name] == [name];
    } else {
      JoinLast(xs);
      JoinAppend(xs, [name]);
    }
  }

  /** Different component lists spell different paths. */
  lemma AbsoluteInjective(xs: seq<string>, ys: seq<string>)
    requires AllComponents(xs) && AllComponents(ys)
    requires Absolute(xs) == Absolute(ys)
    ensures xs == ys
  {
    AbsoluteShape(xs);
    AbsoluteShape(ys);
  }
}
