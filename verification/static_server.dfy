/** The static-file handler of server.js. `safeResolve` (server.js:16-22) turns a request
    target into a path under the root directory, a target it refuses is answered with
    400 "Bad request" (server.js:25-29), and a file that is served gets the Content-Type
    of its lower-cased extension (server.js:9-14, 33-34). The root directory (`__dirname`)
    is a parameter; `decodeURIComponent` is taken to leave the target unchanged, so the
    targets covered are those without percent-escapes. */
module StaticServer {
  import opened Text
  import opened PosixPath

  datatype Option<T> = None | Some(value: T)

  /** `(urlPath || '/').split('?')[0]`: the target before its query string; a missing
      target counts as "/". */
  function RequestPath(url: string): (p: string)
    ensures '?' !in p
    ensures var target := if url == "" then "/" else url;
      StartsWith(target, p) && (|p| == |target| || target[|p|] == '?')
  {
    var target := if url == "" then "/" else url;
    SplitHead(target, '?');
    SplitPiecesFree(target, '?');
    Split(target, '?')[0]
  }

  /** `decoded === '/' ? '/index.html' : decoded`: the bare root is never what gets
      resolved, and an absolute target stays absolute. */
  function CleanPath(decoded: string): (p: string)
    ensures p != "/"
    ensures decoded == "/" ==> p == "/index.html"
    ensures decoded != "/" ==> p == decoded
    ensures IsAbsolute(decoded) ==> IsAbsolute(p)
  {
    if decoded == "/" then "/index.html" else decoded
  }

  /** `path.resolve(ROOT, '.' + cleanPath)`: the file the target names, before the root test. */
  function Candidate(root: string, url: string): (resolved: string)
    requires IsAbsolute(root)
    ensures IsAbsolute(resolved)
  {
    Resolve(root, "." + CleanPath(RequestPath(url)))
  }

  /** `safeResolve`: the resolved path when it starts with the root as a string, otherwise
      nothing. A returned path is always normalised. */
  function SafeResolve(root: string, url: string): (r: Option<string>)
    requires IsAbsolute(root)
    ensures r.Some? <==> StartsWith(Candidate(root, url), root)
    ensures r.Some? ==> r.value == Candidate(root, url) && StartsWith(r.value, root)
    ensures r.Some? ==> r.value == PathOf(ResolveSegments(root, "." + CleanPath(RequestPath(url))))
    ensures r.Some? ==> exists segs :: AllNames(segs) && r.value == PathOf(segs)
  {
    var resolved := Candidate(root, url);
    if StartsWith(resolved, root) then Some(resolved) else None
  }

  /** The segments `safeResolve` resolves the target to, before the root test. */
  function TargetSegments(rootNames: seq<string>, url: string): (segs: seq<string>)
    requires AllNames(rootNames)
    ensures AllNames(segs)
  {
    ResolveSegments(PathOf(rootNames), "." + CleanPath(RequestPath(url)))
  }

  /** The guard is a string-prefix test: for a root made of directory names, a target is
      accepted exactly when it resolves inside the root or inside a sibling directory
      whose name extends the root's own name. */
  lemma AcceptedIffWithinOrSibling(rootNames: seq<string>, url: string)
    requires AllNames(rootNames)
    ensures SafeResolve(PathOf(rootNames), url).Some? <==>
      Within(TargetSegments(rootNames, url), rootNames) ||
      InNamePrefixSibling(TargetSegments(rootNames, url), rootNames)
  {
    PathPrefix(TargetSegments(rootNames, url), rootNames);
  }

  /** The query string plays no part: a target and the same target with "?query" appended
      resolve alike. */
  lemma QueryIgnored(root: string, path: string, query: string)
    requires IsAbsolute(root)
    requires path != "" && '?' !in path
    ensures SafeResolve(root, path + "?" + query) == SafeResolve(root, path)
  {
    assert path + "?" + query == path + ['?'] + query;
    SplitConcat(path, query, '?');
    SplitWithoutSeparator(path, '?');
  }

  /** A target naming one file directly below the root resolves to that file. */
  lemma ResolveOneName(rootNames: seq<string>, name: string)
    requires AllNames(rootNames) && IsName(name)
    ensures ResolveSegments(PathOf(rootNames), "./" + name) == rootNames + [name]
  {
    var rel := "./" + name;
    assert rel + "/" == "." + ['/'] + (name + ['/'] + "");
    SplitConcat(".", name + ['/'] + "", '/');
    SplitConcat(name, "", '/');
    SplitWithoutSeparator(".", '/');
    SplitWithoutSeparator(name, '/');
    var segs := [".", name, ""];
    assert Split(rel + "/", '/') == segs;
    ResolveFromRoot(rootNames, rel);
    assert segs[1..] == [name, ""] && segs[1..][1..] == [""] && [""][1..] == [];
    assert NormalizeFrom(rootNames + [name], [""]) == rootNames + [name];
  }

  /** "/" and a missing target both name the root's index.html, which is accepted. */
  lemma IndexDefault(rootNames: seq<string>)
    requires AllNames(rootNames)
    ensures SafeResolve(PathOf(rootNames), "/") == Some(PathOf(rootNames + ["index.html"]))
    ensures SafeResolve(PathOf(rootNames), "") == Some(PathOf(rootNames + ["index.html"]))
  {
    var index := "index.html";
    assert "/index.html" == "/" + index;
    assert "." + "/index.html" == "./" + index;
    SplitWithoutSeparator("/", '?');
    assert CleanPath(RequestPath("/")) == "/index.html";
    assert CleanPath(RequestPath("")) == "/index.html";
    assert IsName(index);
    ResolveOneName(rootNames, index);
    var segs := rootNames + [index];
    assert Within(segs, rootNames);
    PathPrefix(segs, rootNames);
  }

  /** "/" with any query string is still the root's index.html. */
  lemma IndexWithQuery(rootNames: seq<string>, query: string)
    requires AllNames(rootNames)
    ensures SafeResolve(PathOf(rootNames), "/?" + query) == Some(PathOf(rootNames + ["index.html"]))
  {
    assert "/?" + query == "/" + "?" + query;
    QueryIgnored(PathOf(rootNames), "/", query);
    IndexDefault(rootNames);
  }

  /** The segments of `"." + c + "/"` for a path `c` that starts with "/": a "." segment,
      the segments of `c` after its leading empty one, and an empty last segment. */
  lemma DotSegments(c: string)
    requires |c| > 0 && c[0] == '/'
    ensures Split(c, '/') == [""] + Split(c[1..], '/')
    ensures Split("." + c + "/", '/') == ["."] + Split(c[1..], '/') + [""]
  {
    var tail := c[1..];
    SplitLeadingSlash(c);
    DotPathShape(c);
    SplitCons(".", tail + ['/'] + "", '/');
    SplitTrailingSlash(tail);
    AppendAssoc(["."], Split(tail, '/'), [""]);
  }

  lemma LeadingSlashShape(c: string)
    requires |c| > 0 && c[0] == '/'
    ensures c == "" + ['/'] + c[1..]
  {
  }

  lemma SplitLeadingSlash(c: string)
    requires |c| > 0 && c[0] == '/'
    ensures Split(c, '/') == [""] + Split(c[1..], '/')
  {
    LeadingSlashShape(c);
    SplitCons("", c[1..], '/');
  }

  lemma DotPathShape(c: string)
    requires |c| > 0 && c[0] == '/'
    ensures "." + c + "/" == "." + ['/'] + (c[1..] + ['/'] + "")
  {
  }

  lemma SplitTrailingSlash(t: string)
    ensures Split(t + ['/'] + "", '/') == Split(t, '/') + [""]
  {
    SplitConcat(t, "", '/');
  }

  lemma AppendAssoc<T>(a: seq<T>, b: seq<T>, c: seq<T>)
    ensures a + (b + c) == a + b + c
  {
  }

  /** The segments a target resolves to: the root's names, continued by the normaliser
      over the segments of "." + the cleaned request path + "/". */
  lemma TargetSegmentsFrom(rootNames: seq<string>, url: string)
    requires AllNames(rootNames)
    ensures TargetSegments(rootNames, url) ==
      NormalizeFrom(rootNames, Split("." + CleanPath(RequestPath(url)) + "/", '/'))
  {
    ResolveFromRoot(rootNames, "." + CleanPath(RequestPath(url)));
  }

  /** A target without "?" other than "/" is its own cleaned path. */
  lemma PlainTarget(url: string)
    requires url != "" && url != "/" && '?' !in url
    ensures CleanPath(RequestPath(url)) == url
  {
    SplitWithoutSeparator(url, '?');
  }

  /** The request path of a target that starts with "/" starts with "/" too. */
  lemma RequestPathRooted(url: string)
    requires |url| > 0 && url[0] == '/'
    ensures |RequestPath(url)| > 0 && RequestPath(url)[0] == '/'
  {
    var p := RequestPath(url);
    assert |p| == |url| || url[|p|] == '?';
    assert p == url[..|p|];
  }

  /** The cleaned path has no ".." segment when the request path has none. */
  lemma CleanPathNoParent(p: string)
    requires |p| > 0 && p[0] == '/'
    requires forall i :: 0 <= i < |Split(p, '/')| ==> Split(p, '/')[i] != ".."
    ensures |CleanPath(p)| > 0 && CleanPath(p)[0] == '/'
    ensures forall i :: 0 <= i < |Split(CleanPath(p)[1..], '/')| ==> Split(CleanPath(p)[1..], '/')[i] != ".."
  {
    if p == "/" {
      IndexPieces();
    } else {
      TailNoParent(p);
    }
  }

  /** The default "/index.html" is a single segment below "/". */
  lemma IndexPieces()
    ensures CleanPath("/") == "/" + "index.html"
    ensures Split(CleanPath("/")[1..], '/') == ["index.html"]
  {
    var index := "index.html";
    assert CleanPath("/")[1..] == index;
    SplitWithoutSeparator(index, '/');
  }

  /** The segments after the leading "/" are among the path's own segments. */
  lemma TailNoParent(p: string)
    requires |p| > 0 && p[0] == '/'
    requires forall i :: 0 <= i < |Split(p, '/')| ==> Split(p, '/')[i] != ".."
    ensures forall i :: 0 <= i < |Split(p[1..], '/')| ==> Split(p[1..], '/')[i] != ".."
  {
    SplitLeadingSlash(p);
    var pieces := Split(p[1..], '/');
    forall i | 0 <= i < |pieces| ensures pieces[i] != ".." {
      assert pieces[i] == Split(p, '/')[i + 1];
    }
  }

  /** Normalising "." , then pieces without "..", then "" from the root's names stays
      within the root. */
  lemma WithinAfterPieces(rootNames: seq<string>, pieces: seq<string>)
    requires forall i :: 0 <= i < |pieces| ==> pieces[i] != ".."
    ensures Within(NormalizeFrom(rootNames, ["."] + pieces + [""]), rootNames)
  {
    var segs := ["."] + pieces + [""];
    forall i | 0 <= i < |segs| ensures segs[i] != ".." {
      if 0 < i < |segs| - 1 {
        assert segs[i] == pieces[i - 1];
      }
    }
    NormalizeWithoutParent(rootNames, segs);
  }

  /** A target that starts with "/" and has no ".." segment is accepted, and resolves
      inside the root. */
  lemma NoParentAccepted(rootNames: seq<string>, url: string)
    requires AllNames(rootNames)
    requires |url| > 0 && url[0] == '/' && '%' !in RequestPath(url)
    requires forall i :: 0 <= i < |Split(RequestPath(url), '/')| ==> Split(RequestPath(url), '/')[i] != ".."
    ensures Within(TargetSegments(rootNames, url), rootNames)
    ensures SafeResolve(PathOf(rootNames), url) == Some(PathOf(TargetSegments(rootNames, url)))
  {
    RequestPathRooted(url);
    var c := CleanPath(RequestPath(url));
    CleanPathNoParent(RequestPath(url));
    DotSegments(c);
    WithinAfterPieces(rootNames, Split(c[1..], '/'));
    TargetSegmentsFrom(rootNames, url);
    AcceptedIffWithinOrSibling(rootNames, url);
  }

  /** The segments of "./../<sibling>/<file>/". */
  lemma SiblingPieces(sibling: string, file: string)
    requires '/' !in sibling && '/' !in file
    ensures Split("." + ("/../" + sibling + "/" + file) + "/", '/') == [".", "..", sibling, file, ""]
  {
    var t2 := sibling + ['/'] + (file + ['/'] + "");
    SiblingShape(sibling, file);
    SplitCons(".", ".." + ['/'] + t2, '/');
    SplitCons("..", t2, '/');
    SplitCons(sibling, file + ['/'] + "", '/');
    SplitLastName(file);
    SiblingList(sibling, file);
  }

  lemma SiblingShape(sibling: string, file: string)
    ensures "." + ("/../" + sibling + "/" + file) + "/" ==
      "." + ['/'] + (".." + ['/'] + (sibling + ['/'] + (file + ['/'] + "")))
  {
  }

  lemma SiblingList(sibling: string, file: string)
    ensures ["."] + ([".."] + ([sibling] + [file, ""])) == [".", "..", sibling, file, ""]
  {
  }

  lemma SplitLastName(name: string)
    requires '/' !in name
    ensures Split(name + ['/'] + "", '/') == [name, ""]
  {
    SplitCons(name, "", '/');
  }

  /** Normalising those segments from the root's names replaces the root's last name by the
      sibling and adds the file. */
  lemma SiblingNormalized(rootNames: seq<string>, sibling: string, file: string)
    requires AllNames(rootNames) && |rootNames| > 0 && IsName(sibling) && IsName(file)
    ensures NormalizeFrom(rootNames, [".", "..", sibling, file, ""]) ==
      rootNames[..|rootNames| - 1] + [sibling, file]
  {
    var rest := [sibling, file, ""];
    var up := rootNames[..|rootNames| - 1];
    assert [".", "..", sibling, file, ""] == [".", ".."] + rest;
    assert NormalizeFrom(rootNames, [".", ".."] + rest) == NormalizeFrom(up, rest) by {
      DotParent(rootNames, rest);
    }
    TwoNames(up, sibling, file);
  }

  /** The prefix weakness: below a root whose last directory is `dir`, the target
      "/../<sibling>/<file>" reaches `file` in the sibling directory `sibling`, outside the
      root, and is accepted whenever the sibling's name starts with `dir`. */
  lemma SiblingAccepted(rootNames: seq<string>, sibling: string, file: string)
    requires AllNames(rootNames) && |rootNames| > 0
    requires IsName(sibling) && IsName(file) && '?' !in sibling && '?' !in file
    requires StartsWith(sibling, rootNames[|rootNames| - 1]) && sibling != rootNames[|rootNames| - 1]
    ensures var segs := rootNames[..|rootNames| - 1] + [sibling, file];
      && !Within(segs, rootNames)
      && SafeResolve(PathOf(rootNames), "/../" + sibling + "/" + file) == Some(PathOf(segs))
  {
    var url := "/../" + sibling + "/" + file;
    assert '?' !in url;
    PlainTarget(url);
    SiblingPieces(sibling, file);
    SiblingNormalized(rootNames, sibling, file);
    TargetSegmentsFrom(rootNames, url);
    var segs := rootNames[..|rootNames| - 1] + [sibling, file];
    assert TargetSegments(rootNames, url) == segs;
    assert InNamePrefixSibling(segs, rootNames) by {
      assert segs[..|rootNames| - 1] == rootNames[..|rootNames| - 1];
      assert segs[|rootNames| - 1] == sibling;
    }
    AcceptedIffWithinOrSibling(rootNames, url);
  }

  /** With the root "/srv/app", the target "/../app2/x" is accepted as "/srv/app2/x". */
  lemma SiblingExample()
    ensures SafeResolve("/srv/app", "/../app2/x") == Some("/srv/app2/x")
    ensures !Within(["srv", "app2", "x"], ["srv", "app"])
  {
    SrvAppLiterals();
    SiblingAccepted(["srv", "app"], "app2", "x");
  }

  lemma SrvAppLiterals()
    ensures PathOf(["srv", "app"]) == "/srv/app"
    ensures "/../" + "app2" + "/" + "x" == "/../app2/x"
    ensures StartsWith("app2", ["srv", "app"][1])
    ensures ["srv", "app"][..1] + ["app2", "x"] == ["srv", "app2", "x"]
    ensures PathOf(["srv", "app2", "x"]) == "/srv/app2/x"
    ensures !Within(["srv", "app2", "x"], ["srv", "app"])
  {
    assert PathOf(["srv", "app"]) == "/srv/app";
    assert PathOf(["srv", "app2", "x"]) == "/srv/app2/x";
    assert ["srv", "app2", "x"][1] != ["srv", "app"][1];
  }

  /** The segments of "./../../../<a>/<b>/". */
  lemma ClimbPieces(a: string, b: string)
    requires '/' !in a && '/' !in b
    ensures Split("." + ("/../../../" + a + "/" + b) + "/", '/') == [".", "..", "..", "..", a, b, ""]
  {
    var t4 := a + ['/'] + (b + ['/'] + "");
    var t3 := ".." + ['/'] + t4;
    var t2 := ".." + ['/'] + t3;
    ClimbShape(a, b);
    SplitCons(".", ".." + ['/'] + t2, '/');
    SplitCons("..", t2, '/');
    SplitCons("..", t3, '/');
    SplitCons("..", t4, '/');
    SplitCons(a, b + ['/'] + "", '/');
    SplitLastName(b);
    ClimbList(a, b);
  }

  lemma ClimbShape(a: string, b: string)
    ensures "." + ("/../../../" + a + "/" + b) + "/" ==
      "." + ['/'] + (".." + ['/'] + (".." + ['/'] + (".." + ['/'] + (a + ['/'] + (b + ['/'] + "")))))
  {
  }

  lemma ClimbList(a: string, b: string)
    ensures ["."] + ([".."] + ([".."] + ([".."] + ([a] + [b, ""])))) == [".", "..", "..", "..", a, b, ""]
  {
  }

  /** Climbing above a two-level root: "/../../../<a>/<b>" ignores the third ".." at the
      filesystem root and reaches "/<a>/<b>". */
  lemma ClimbAboveRoot(r1: string, r2: string, a: string, b: string)
    requires IsName(r1) && IsName(r2) && IsName(a) && IsName(b) && '?' !in a && '?' !in b
    ensures TargetSegments([r1, r2], "/../../../" + a + "/" + b) == [a, b]
  {
    var url := "/../../../" + a + "/" + b;
    assert '?' !in url;
    PlainTarget(url);
    ClimbPieces(a, b);
    TargetSegmentsFrom([r1, r2], url);
    ClimbNormalized(r1, r2, a, b);
  }

  /** Three ".." from a two-name root end at the filesystem root. */
  lemma ClimbNormalized(r1: string, r2: string, a: string, b: string)
    requires IsName(a) && IsName(b)
    ensures NormalizeFrom([r1, r2], [".", "..", "..", "..", a, b, ""]) == [a, b]
  {
    ClimbSegments(a, b);
    DotParent([r1, r2], [".."] + ([".."] + [a, b, ""]));
    FirstOfTwo(r1, r2);
    ParentThen([r1], [".."] + [a, b, ""]);
    ParentThen([], [a, b, ""]);
    TwoNames([], a, b);
  }

  lemma ClimbSegments(a: string, b: string)
    ensures [".", "..", "..", "..", a, b, ""] == [".", ".."] + ([".."] + ([".."] + [a, b, ""]))
  {
  }

  lemma FirstOfTwo(r1: string, r2: string)
    ensures [r1, r2][..1] == [r1] && [r1][..0] == []
  {
  }

  /** The same climb is refused when it leaves the root's top directory. */
  lemma ClimbRefused(r1: string, r2: string, a: string, b: string)
    requires IsName(r1) && IsName(r2) && IsName(a) && IsName(b) && '?' !in a && '?' !in b
    requires a != r1
    ensures SafeResolve(PathOf([r1, r2]), "/../../../" + a + "/" + b) == None
  {
    ClimbAboveRoot(r1, r2, a, b);
    AcceptedIffWithinOrSibling([r1, r2], "/../../../" + a + "/" + b);
    assert [a, b][..1] == [a] && [r1, r2][..1] == [r1];
  }

  /** With the root "/srv/app", "/../../../etc/passwd" resolves to "/etc/passwd" and is refused. */
  lemma EscapeRefused()
    ensures SafeResolve("/srv/app", "/../../../etc/passwd") == None
  {
    var root := ["srv", "app"];
    assert PathOf(root) == "/srv/app";
    assert "/../../../" + "etc" + "/" + "passwd" == "/../../../etc/passwd";
    ClimbRefused("srv", "app", "etc", "passwd");
  }

  /** The Content-Type of the 400 answer, and the fallback for unknown extensions. */
  const PlainText := "text/plain; charset=utf-8"
  const OctetStream := "application/octet-stream"

  const HtmlType := "text/html; charset=utf-8"
  const JavaScriptType := "text/javascript; charset=utf-8"
  const CssType := "text/css; charset=utf-8"
  const JsonType := "application/json; charset=utf-8"

  /** `MIME_TYPES`: the four extensions the server knows. */
  const MimeTypes: map<string, string> := map[
    ".html" := HtmlType,
    ".js" := JavaScriptType,
    ".css" := CssType,
    ".json" := JsonType
  ]

  /** The fallback type is not one of the table's types. */
  lemma FallbackNotInTable()
    ensures OctetStream !in MimeTypes.Values
  {
    forall v | v in MimeTypes.Values ensures v != OctetStream {
      var k :| k in MimeTypes && MimeTypes[k] == v;
      assert k == ".html" || k == ".js" || k == ".css" || k == ".json";
      assert v[0] == 't' || v[12] == 'j';
    }
  }

  /** The path without its trailing slashes. */
  function DropTrailingSlashes(s: string): (t: string)
    ensures |t| <= |s| && t == s[..|t|]
    ensures |t| == 0 || t[|t| - 1] != '/'
    ensures forall i :: |t| <= i < |s| ==> s[i] == '/'
  {
    if |s| > 0 && s[|s| - 1] == '/' then DropTrailingSlashes(s[..|s| - 1]) else s
  }

  /** The text after the last slash. */
  function LastPart(s: string): (b: string)
    ensures |b| <= |s| && b == s[|s| - |b|..]
    ensures '/' !in b
    ensures |b| == |s| || s[|s| - |b| - 1] == '/'
  {
    if |s| == 0 || s[|s| - 1] == '/' then ""
    else
      var b := LastPart(s[..|s| - 1]);
      SuffixSnoc(s, b);
      b + [s[|s| - 1]]
  }

  /** A suffix of all but the last character, extended by that character, is a suffix. */
  lemma SuffixSnoc(s: string, b: string)
    requires |s| > 0 && |b| <= |s| - 1 && b == s[..|s| - 1][|s| - 1 - |b|..]
    ensures b + [s[|s| - 1]] == s[|s| - |b| - 1..]
  {
  }

  /** `lastIndexOf(c)`: the last position holding `c`, or -1. */
  function LastIndex(s: string, c: char): (k: int)
    ensures -1 <= k < |s|
    ensures k >= 0 ==> s[k] == c
    ensures forall i :: k < i < |s| ==> s[i] != c
  {
    if |s| == 0 then -1
    else if s[|s| - 1] == c then |s| - 1
    else LastIndex(s[..|s| - 1], c)
  }

  /** The last segment of a path, trailing slashes ignored. */
  function BaseName(path: string): string {
    LastPart(DropTrailingSlashes(path))
  }

  /** The extension of one segment: from its last "." on; "" when it has no ".", when its
      only "." leads it (a dotfile such as ".html"), and for "..". */
  function SegmentExtension(base: string): (ext: string)
    ensures ext == "" || (ext[0] == '.' && '.' !in ext[1..])
    ensures ext != "" ==> |ext| < |base| && base[|base| - |ext|..] == ext && base != ".."
  {
    var dot := LastIndex(base, '.');
    if dot <= 0 || base == ".." then ""
    else
      assert forall i :: 0 <= i < |base[dot..]| - 1 ==> base[dot..][1..][i] == base[dot + 1 + i];
      base[dot..]
  }

  /** POSIX `path.extname`: the extension of the last segment, trailing slashes ignored. */
  function Extname(path: string): (ext: string)
    ensures ext == "" || (ext[0] == '.' && '.' !in ext[1..] && '/' !in ext)
    ensures ext != "" ==> |ext| < |BaseName(path)| && BaseName(path)[|BaseName(path)| - |ext|..] == ext
  {
    SegmentExtension(BaseName(path))
  }

  /** The table entry of a lower-cased extension, `application/octet-stream` when there
      is none. */
  function MimeFor(ext: string): (ct: string)
    ensures ct != OctetStream <==> ext in MimeTypes
    ensures ct == OctetStream || ct in MimeTypes.Values
  {
    FallbackNotInTable();
    if ext in MimeTypes then MimeTypes[ext] else OctetStream
  }

  /** The Content-Type the server sends with a file it read: the table entry of its
      lower-cased extension. It is always one of the table's types or the fallback, and a
      file without an extension gets the fallback. */
  function ContentType(path: string): (ct: string)
    ensures ct == OctetStream || ct in MimeTypes.Values
    ensures Extname(path) == "" ==> ct == OctetStream
  {
    MimeFor(ToLower(Extname(path)))
  }

  /** What follows the last slash is the last name. */
  lemma {:induction false} LastPartAfterSlash(x: string, name: string)
    requires '/' !in name
    ensures LastPart(x + "/" + name) == name
    decreases |name|
  {
    if |name| > 0 {
      var init := name[..|name| - 1];
      var last := name[|name| - 1];
      InitAfterSlash(x, name);
      LastPartStep(x + "/" + name);
      LastPartAfterSlash(x, init);
      assert init + [last] == name;
    }
  }

  /** Dropping the last character of `x + "/" + name` drops it from `name`. */
  lemma InitAfterSlash(x: string, name: string)
    requires '/' !in name && |name| > 0
    ensures var s := x + "/" + name;
      && s[..|s| - 1] == x + "/" + name[..|name| - 1]
      && s[|s| - 1] == name[|name| - 1] != '/'
      && '/' !in name[..|name| - 1]
  {
    var s := x + "/" + name;
    assert s[..|s| - 1] == x + "/" + name[..|name| - 1];
    assert name[|name| - 1] in name;
    var init := name[..|name| - 1];
    forall i | 0 <= i < |init| ensures init[i] != '/' {
      assert init[i] == name[i] && name[i] in name;
    }
  }

  /** A last character other than "/" belongs to the last part. */
  lemma LastPartStep(s: string)
    requires |s| > 0 && s[|s| - 1] != '/'
    ensures LastPart(s) == LastPart(s[..|s| - 1]) + [s[|s| - 1]]
  {
  }

  /** The last segment of a resolved path is its last name. */
  lemma BaseNameOfPath(segs: seq<string>, name: string)
    requires AllNames(segs) && IsName(name)
    ensures BaseName(PathOf(segs + [name])) == name
  {
    var x := if |segs| == 0 then "" else "/" + Join(segs, '/');
    PathOfSnoc(segs, name, x);
    NoTrailingSlash(x, name);
    LastPartAfterSlash(x, name);
  }

  /** The path of a list with one more name is the shorter list's text, "/" and the name. */
  lemma PathOfSnoc(segs: seq<string>, name: string, x: string)
    requires x == if |segs| == 0 then "" else "/" + Join(segs, '/')
    ensures PathOf(segs + [name]) == x + "/" + name
  {
    JoinAppend(segs, [name], '/');
  }

  lemma NoTrailingSlash(x: string, name: string)
    requires IsName(name)
    ensures DropTrailingSlashes(x + "/" + name) == x + "/" + name
  {
    var s := x + "/" + name;
    assert s[|s| - 1] == name[|name| - 1];
  }

  /** A served file's Content-Type depends only on its own name: the table entry of the
      name's lower-cased extension. */
  lemma ServedContentType(segs: seq<string>, name: string)
    requires AllNames(segs) && IsName(name)
    ensures ContentType(PathOf(segs + [name])) == MimeFor(ToLower(SegmentExtension(name)))
  {
    BaseNameOfPath(segs, name);
  }

  /** A served file whose name's lower-cased extension is not in the table is sent as bytes. */
  lemma ServedFallback(segs: seq<string>, name: string)
    requires AllNames(segs) && IsName(name) && ToLower(SegmentExtension(name)) !in MimeTypes
    ensures ContentType(PathOf(segs + [name])) == OctetStream
  {
    ServedContentType(segs, name);
  }

  /** A served file whose name's lower-cased extension `ext` is in the table gets its entry. */
  lemma ServedFromTable(segs: seq<string>, name: string, ext: string)
    requires AllNames(segs) && IsName(name) && ToLower(SegmentExtension(name)) == ext && ext in MimeTypes
    ensures ContentType(PathOf(segs + [name])) == MimeTypes[ext]
  {
    ServedContentType(segs, name);
  }

  /** Upper case folds: "INDEX.HTML" has the extension ".html" once lower-cased. */
  lemma UpperCaseExtension()
    ensures ToLower(SegmentExtension("INDEX.HTML")) == ".html"
  {
    LastIndexIs("INDEX.HTML", '.', 5);
    assert ToLower(".HTML") == ".html";
  }

  /** A leading "." does not start an extension. */
  lemma DotfileExtension()
    ensures SegmentExtension(".html") == ""
  {
    LastIndexIs(".html", '.', 0);
  }

  lemma PngExtension()
    ensures ToLower(SegmentExtension("logo.png")) == ".png"
  {
    LastIndexIs("logo.png", '.', 4);
    assert ToLower(".png") == ".png";
  }

  /** Only the last "." counts. */
  lemma LastDotExtension()
    ensures ToLower(SegmentExtension("app.min.js")) == ".js"
  {
    LastIndexIs("app.min.js", '.', 7);
    assert ToLower(".js") == ".js";
  }

  /** The table's entries for ".html" and ".js". */
  lemma HtmlEntry()
    ensures ".html" in MimeTypes && MimeTypes[".html"] == HtmlType
  {
  }

  lemma JavaScriptEntry()
    ensures ".js" in MimeTypes && MimeTypes[".js"] == JavaScriptType
  {
  }

  /** Upper-case extensions match the table: "INDEX.HTML" is served as HTML. */
  lemma UpperCaseExample(segs: seq<string>)
    requires AllNames(segs)
    ensures ContentType(PathOf(segs + ["INDEX.HTML"])) == HtmlType
  {
    UpperCaseExtension();
    HtmlEntry();
    ServedFromTable(segs, "INDEX.HTML", ".html");
  }

  /** A dotfile named ".html" has no extension, so it is served as bytes. */
  lemma DotfileExample(segs: seq<string>)
    requires AllNames(segs)
    ensures ContentType(PathOf(segs + [".html"])) == OctetStream
  {
    DotfileExtension();
    ServedFallback(segs, ".html");
  }

  /** An extension the table lacks is served as `application/octet-stream`. */
  lemma UnknownExtensionExample(segs: seq<string>)
    requires AllNames(segs)
    ensures ContentType(PathOf(segs + ["logo.png"])) == OctetStream
  {
    PngExtension();
    ServedFallback(segs, "logo.png");
  }

  /** Only the last extension counts: "app.min.js" is served as JavaScript. */
  lemma LastExtensionExample(segs: seq<string>)
    requires AllNames(segs)
    ensures ContentType(PathOf(segs + ["app.min.js"])) == JavaScriptType
  {
    LastDotExtension();
    JavaScriptEntry();
    ServedFromTable(segs, "app.min.js", ".js");
  }

  /** How the server answers: a status line with a body of its own, or the file to read. */
  datatype Reply =
    | Respond(status: nat, contentType: string, body: string)
    | ServeFile(path: string, contentType: string)

  /** The request handler up to the file read: a refused target is answered with
      400 "Bad request" in plain text; otherwise the resolved file is read and, once read,
      sent with the Content-Type of its extension. */
  function Handle(root: string, url: string): (r: Reply)
    requires IsAbsolute(root)
    ensures r.Respond? <==> SafeResolve(root, url).None?
    ensures r.Respond? ==> r == Respond(400, PlainText, "Bad request")
    ensures r.ServeFile? ==> StartsWith(r.path, root) && r.path == SafeResolve(root, url).value
    ensures r.ServeFile? ==> r.contentType == ContentType(r.path)
    ensures r.ServeFile? ==> IsAbsolute(r.path) && exists segs :: AllNames(segs) && r.path == PathOf(segs)
    ensures r.ServeFile? ==> r.contentType == OctetStream || r.contentType in MimeTypes.Values
  {
    match SafeResolve(root, url)
    case None => Respond(400, PlainText, "Bad request")
    case Some(path) => ServeFile(path, ContentType(path))
  }

  /** `LastIndex` is pinned down by its contract. */
  lemma LastIndexIs(s: string, c: char, j: int)
    requires -1 <= j < |s| && (j >= 0 ==> s[j] == c)
    requires forall i :: j < i < |s| ==> s[i] != c
    ensures LastIndex(s, c) == j
  {
    var k := LastIndex(s, c);
    assert !(k < j) && !(j < k);
  }

  /** The last segment, located in the path itself: it ends where the trailing slashes begin. */
  lemma BaseNameSlice(path: string)
    ensures var n := |DropTrailingSlashes(path)|; var off := n - |BaseName(path)|;
      0 <= off <= n <= |path| && path[off..n] == BaseName(path)
  {
    var t := DropTrailingSlashes(path);
    var n := |t|;
    var off := n - |LastPart(t)|;
    assert path[off..n] == t[off..];
  }

  /** Where the scan meets slashes: only slashes after position `n`, none in the last
      segment `path[off..n]`, and a slash just before it when it does not start the path. */
  lemma ScanLayout(path: string)
    ensures var n := |DropTrailingSlashes(path)|; var off := n - |BaseName(path)|;
      && 0 <= off <= n <= |path|
      && (forall j :: n <= j < |path| ==> path[j] == '/')
      && (n > 0 ==> off < n && path[n - 1] != '/')
      && (forall j :: off <= j < n ==> path[j] != '/')
      && (off > 0 ==> path[off - 1] == '/')
  {
    var t := DropTrailingSlashes(path);
    var b := LastPart(t);
    assert BaseName(path) == b;
    Layout(path, t, b);
  }

  /** The same, for a path `path` whose trailing slashes start after `t` and a last part
      `b` of `t`. */
  lemma Layout(path: string, t: string, b: string)
    requires |t| <= |path| && t == path[..|t|]
    requires |t| == 0 || t[|t| - 1] != '/'
    requires forall i :: |t| <= i < |path| ==> path[i] == '/'
    requires |b| <= |t| && b == t[|t| - |b|..]
    requires '/' !in b
    requires |b| == |t| || t[|t| - |b| - 1] == '/'
    ensures var n := |t|; var off := n - |b|;
      && (n > 0 ==> off < n && path[n - 1] != '/')
      && (forall j :: off <= j < n ==> path[j] != '/')
      && (off > 0 ==> path[off - 1] == '/')
  {
    var off := |t| - |b|;
    forall j | off <= j < |t| ensures path[j] != '/' {
      assert path[j] == t[j] == b[j - off];
    }
    if off > 0 {
      assert path[off - 1] == t[off - 1];
    }
    if |t| > 0 {
      assert path[|t| - 1] == t[|t| - 1];
    }
  }

  /** The final test of Node's loop on one segment: `d` is the position of its last "."
      (-1 for none) and `pre` says what precedes it (0: nothing, 1: a ".", -1: another
      character). The test yields `SegmentExtension`. */
  lemma SegmentTestAgrees(base: string, d: int, pre: int)
    requires |base| > 0
    requires -1 <= d < |base| && (d >= 0 ==> base[d] == '.')
    requires forall i :: d < i < |base| ==> base[i] != '.'
    requires pre == if d <= 0 then 0 else if base[0] == '.' then 1 else -1
    ensures (if d == -1 || pre == 0 || (pre == 1 && d == |base| - 1 && d == 1) then ""
             else base[d..]) == SegmentExtension(base)
  {
    LastIndexIs(base, '.', d);
    if d > 0 && base == ".." {
      assert d == 1 && base[0] == '.';
    }
  }

  /** The final test of Node's loop, with the last segment located at `off` in the path. */
  lemma ScanAgreesAt(path: string, base: string, off: int, startDot: int, end: int, preDotState: int)
    requires |base| > 0 && 0 <= off && end == off + |base| <= |path| && path[off..end] == base
    requires startDot == -1 ==> forall j :: off <= j < end ==> path[j] != '.'
    requires startDot != -1 ==> off <= startDot < end && path[startDot] == '.'
    requires startDot != -1 ==> forall j :: startDot < j < end ==> path[j] != '.'
    requires preDotState ==
      if startDot == -1 || startDot == off then 0 else if path[off] == '.' then 1 else -1
    ensures
      (if startDot == -1 || preDotState == 0
        || (preDotState == 1 && startDot == end - 1 && startDot == off + 1) then ""
       else path[startDot..end]) == SegmentExtension(base)
  {
    var d := if startDot == -1 then -1 else startDot - off;
    SliceAt(path, base, off, end);
    SegmentTestAgrees(base, d, preDotState);
    if d > 0 {
      SliceTail(path, base, off, end, d);
    }
  }

  lemma SliceAt(path: string, base: string, off: int, end: int)
    requires 0 <= off <= end <= |path| && path[off..end] == base
    ensures forall i :: 0 <= i < |base| ==> base[i] == path[off + i]
  {
  }

  lemma SliceTail(path: string, base: string, off: int, end: int, d: int)
    requires 0 <= off <= end <= |path| && path[off..end] == base && 0 <= d <= |base|
    ensures base[d..] == path[off + d..end]
  {
  }

  /** The final test of Node's loop, given the state the scan ends in, yields `Extname`. */
  lemma ScanAgrees(path: string, n: int, off: int, startDot: int, startPart: int, end: int, preDotState: int)
    requires n == |DropTrailingSlashes(path)| && off == n - |BaseName(path)|
    requires n == 0 ==> end == -1 && startDot == -1
    requires n > 0 ==> end == n && startPart == off
    requires startDot == -1 ==> forall j :: off <= j < n ==> path[j] != '.'
    requires startDot != -1 ==> off <= startDot < n && path[startDot] == '.'
    requires startDot != -1 ==> forall j :: startDot < j < n ==> path[j] != '.'
    requires preDotState ==
      if startDot == -1 || startDot == off then 0 else if path[off] == '.' then 1 else -1
    ensures startDot == -1 || end == -1 || 0 <= startDot <= end <= |path|
    ensures
      (if startDot == -1 || end == -1 || preDotState == 0
        || (preDotState == 1 && startDot == end - 1 && startDot == startPart + 1) then ""
       else path[startDot..end]) == Extname(path)
  {
    BaseNameSlice(path);
    if n == 0 {
      assert BaseName(path) == "";
    } else {
      ScanAgreesAt(path, BaseName(path), off, startDot, end, preDotState);
    }
  }

  /** Node's own `extname` loop: one right-to-left scan that skips trailing slashes,
      remembers where the last segment ends (`end`), where its last "." is (`startDot`),
      and whether anything other than dots precedes that "." (`preDotState`), stopping at
      the slash that starts the segment. It computes `Extname`. */
  method ExtnameScan(path: string) returns (ext: string)
    ensures ext == Extname(path)
  {
    ghost var n := |DropTrailingSlashes(path)|;
    ghost var off := n - |BaseName(path)|;
    ScanLayout(path);
    var startDot, startPart, end, preDotState := ScanBack(path, n, off);
    ScanAgrees(path, n, off, startDot, startPart, end, preDotState);
    if startDot == -1 || end == -1 || preDotState == 0
      || (preDotState == 1 && startDot == end - 1 && startDot == startPart + 1) {
      ext := "";
    } else {
      ext := path[startDot..end];
    }
  }

  /** The loop of Node's `extname`, over a path whose trailing slashes start at `n` and
      whose last segment is `path[off..n]`: it ends with `end` at the segment's end (-1
      when there is none), `startPart` at its start, `startDot` at its last "." (-1 when
      there is none), and `preDotState` saying what the segment holds before that ".". */
  method ScanBack(path: string, ghost n: int, ghost off: int)
    returns (startDot: int, startPart: int, end: int, preDotState: int)
    requires 0 <= off <= n <= |path|
    requires forall j :: n <= j < |path| ==> path[j] == '/'
    requires n > 0 ==> off < n && path[n - 1] != '/'
    requires forall j :: off <= j < n ==> path[j] != '/'
    requires off > 0 ==> path[off - 1] == '/'
    ensures n == 0 ==> end == -1 && startDot == -1
    ensures n > 0 ==> end == n && startPart == off
    ensures startDot == -1 ==> forall j :: off <= j < n ==> path[j] != '.'
    ensures startDot != -1 ==> off <= startDot < n && path[startDot] == '.'
    ensures startDot != -1 ==> forall j :: startDot < j < n ==> path[j] != '.'
    ensures preDotState ==
      if startDot == -1 || startDot == off then 0 else if path[off] == '.' then 1 else -1
  {
    startDot := -1;
    startPart := 0;
    end := -1;
    var matchedSlash := true;
    preDotState := 0;
    var i := |path| - 1;
    while i >= 0
      invariant -1 <= i < |path|
      invariant matchedSlash <==> i >= n - 1
      invariant end == if matchedSlash then -1 else n
      invariant !matchedSlash ==> i + 1 >= off
      invariant startPart == 0
      invariant matchedSlash ==> startDot == -1
      invariant startDot == -1 ==> forall j :: i < j < n ==> path[j] != '.'
      invariant startDot != -1 ==> i < startDot < n && path[startDot] == '.'
      invariant startDot != -1 ==> forall j :: startDot < j < n ==> path[j] != '.'
      invariant preDotState ==
        if startDot == -1 || startDot == i + 1 then 0 else if path[i + 1] == '.' then 1 else -1
      decreases i
    {
      var code := path[i];
      if code == '/' {
        if !matchedSlash {
          startPart := i + 1;
          break;
        }
      } else {
        if end == -1 {
          matchedSlash := false;
          end := i + 1;
        }
        if code == '.' {
          if startDot == -1 {
            startDot := i;
          } else if preDotState != 1 {
            preDotState := 1;
          }
        } else if startDot != -1 {
          preDotState := -1;
        }
      }
      i := i - 1;
    }
  }
}
