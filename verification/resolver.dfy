/** Request-path resolution: `fileNameBuilder` (server.mjs) and its twin
    `pathBuilder` (server.js). Both join the content root with the raw
    request URL, push one "index" segment for every DIRECTORIES entry equal
    to the URL, append ".html" when the joined path has no extension, and
    report the extension without its dot, lower-cased. No containment check
    is made: ".." in the URL is resolved lexically and may leave the root.
    The read stream they open is not part of the result here; the response
    model receives the stream's outcome for `path` separately. */
module Resolver {
  import opened Segments
  import opened PosixPath
  import opened DirectoryIndex

  /** The extension used for the MIME lookup and the file path to open. */
  datatype Target = Target(ext: string, path: string)

  /** The "index" segments the DIRECTORIES loop pushes: one per equal entry. */
  function IndexSegments(url: string, directories: seq<string>): (r: seq<string>)
    ensures |r| == multiset(directories)[url]
    ensures forall i :: 0 <= i < |r| ==> r[i] == "index"
  {
    seq(multiset(directories)[url], _ => "index")
  }

  /** One step of the DIRECTORIES `forEach`: an entry equal to the URL adds
      one "index" segment at the end, any other entry adds nothing. */
  lemma IndexSegmentsStep(url: string, ds: seq<string>, d: string)
    ensures IndexSegments(url, ds + [d]) == IndexSegments(url, ds) + (if url == d then ["index"] else [])
  {
    assert multiset(ds + [d]) == multiset(ds) + multiset{d};
    var before := IndexSegments(url, ds);
    var after := IndexSegments(url, ds + [d]);
    if url == d {
      assert |after| == |before| + 1;
      assert after == before + ["index"];
    } else {
      assert |after| == |before|;
      assert after == before;
    }
  }

  /** The path parts handed to `path.join`. */
  function PathParts(rootPath: string, url: string, directories: seq<string>): (r: seq<string>)
  {
    [rootPath, url] + IndexSegments(url, directories)
  }

  /** `filePath`, with ".html" appended when `path.extname` finds nothing. */
  function WithHtml(p: string): (r: string)
  {
    if Extname(p) == "" then p + ".html" else p
  }

  /** `path.extname(filePath).substring(1).toLowerCase()`. */
  function LookupKey(ext: string): (r: string)
    ensures HasNoUpper(r)
  {
    LowerIsLower(if |ext| > 0 then ext[1..] else "");
    Lower(if |ext| > 0 then ext[1..] else "")
  }

  /** `fileNameBuilder(url)` with ROOT_PATH and DIRECTORIES as parameters.
      The lookup extension never holds an upper-case letter, a dot or a slash. */
  function FileNameBuilder(rootPath: string, url: string, directories: seq<string>): (t: Target)
    ensures HasNoUpper(t.ext)
    ensures '.' !in t.ext && '/' !in t.ext
  {
    var filePath := WithHtml(Join(PathParts(rootPath, url, directories)));
    var e := Extname(filePath);
    assert forall i :: 0 <= i < |LookupKey(e)| ==> LookupKey(e)[i] == LowerChar(e[1..][i]);
    Target(LookupKey(e), filePath)
  }

  /** `pathBuilder(url)` in server.js, loop for loop: it resolves every URL
      against every directory list exactly as server.mjs's `fileNameBuilder`. */
  method PathBuilder(rootPath: string, url: string, directories: seq<string>) returns (t: Target)
    ensures t == FileNameBuilder(rootPath, url, directories)
  {
    var pathParts := [rootPath, url];
    var i := 0;
    while i < |directories|
      invariant 0 <= i <= |directories|
      invariant pathParts == [rootPath, url] + IndexSegments(url, directories[..i])
    {
      assert directories[..i + 1] == directories[..i] + [directories[i]];
      IndexSegmentsStep(url, directories[..i], directories[i]);
      if url == directories[i] {
        pathParts := pathParts + ["index"];
      }
      i := i + 1;
    }
    assert directories[..i] == directories;
    var filePath := Join(pathParts);
    if Extname(filePath) == "" {
      filePath := filePath + ".html";
    }
    var ext := LookupKey(Extname(filePath));
    t := Target(ext, filePath);
  }

  // ---------------------------------------------------------------------
  // The decisions fileNameBuilder makes.

  lemma DistinctCount(xs: seq<string>, x: string)
    requires Distinct(xs)
    ensures multiset(xs)[x] == (if x in xs then 1 else 0)
  {
    if xs != [] {
      var init := xs[..|xs| - 1];
      assert xs == init + [Last(xs)];
      assert Distinct(init);
      DistinctCount(init, x);
      assert Last(xs) !in init;
    }
  }

  /** "index" is pushed exactly when the URL string-equals a DIRECTORIES
      entry; with no entry listed twice it is pushed once. */
  lemma IndexExactlyWhenListed(rootPath: string, url: string, directories: seq<string>)
    ensures url !in directories <==> PathParts(rootPath, url, directories) == [rootPath, url]
    ensures Distinct(directories) ==>
      PathParts(rootPath, url, directories) == [rootPath, url] + (if url in directories then ["index"] else [])
  {
    if Distinct(directories) {
      DistinctCount(directories, url);
    }
    if url in directories {
      assert multiset(directories)[url] > 0;
    }
  }

  /** ".html" is appended exactly when the joined path has no extension;
      otherwise the joined path is served as it is. */
  lemma HtmlExactlyWhenNoExtension(rootPath: string, url: string, directories: seq<string>)
    ensures var joined := Join(PathParts(rootPath, url, directories));
      var t := FileNameBuilder(rootPath, url, directories);
      && (t.path == joined + ".html" <==> Extname(joined) == "")
      && (t.path == joined <==> Extname(joined) != "")
  {
    var joined := Join(PathParts(rootPath, url, directories));
    assert |joined + ".html"| != |joined|;
  }

  /** When ".html" is appended the lookup extension is "html", except when the
      joined path ends in '/': then the last piece is the dot-file ".html",
      which has no extension, and the lookup extension is empty. */
  lemma AppendedHtmlExtension(rootPath: string, url: string, directories: seq<string>)
    requires Extname(Join(PathParts(rootPath, url, directories))) == ""
    ensures var joined := Join(PathParts(rootPath, url, directories));
      FileNameBuilder(rootPath, url, directories).ext == (if Last(joined) == '/' then "" else "html")
  {
    var joined := Join(PathParts(rootPath, url, directories));
    ExtnameHtml(joined);
    HtmlKey();
  }

  lemma HtmlKey()
    ensures LookupKey(".html") == "html"
    ensures LookupKey("") == ""
  {
    assert ".html"[1..] == "html";
  }

  /** The lookup key of an extension "." + x is x lower-cased. */
  lemma KeyOfExtension(x: string)
    ensures LookupKey("." + x) == Lower(x)
  {
    assert ("." + x)[1..] == x;
  }

  // ---------------------------------------------------------------------
  // Resolution of canonical request paths under a canonical root.

  /** The builder's result, given what `path.join` produced. */
  lemma ResolvedFrom(rootPath: string, url: string, directories: seq<string>, joined: string)
    requires Join(PathParts(rootPath, url, directories)) == joined
    ensures FileNameBuilder(rootPath, url, directories)
            == Target(LookupKey(Extname(WithHtml(joined))), WithHtml(joined))
  {
  }

  /** The extension of a name `stem.x`. */
  lemma ExtOfSuffix(stem: string, x: string)
    requires stem != "" && '.' !in x && stem + "." + x != ".."
    ensures ExtOf(stem + "." + x) == "." + x
  {
    LastDotBeforeSuffix(stem, x);
    assert (stem + "." + x)[|stem|..] == "." + x;
  }

  /** The name "index" and the page name "index.html". */
  lemma IndexNames()
    ensures IsName("index") && ExtOf("index") == ""
    ensures "index" + ".html" == "index.html" && "index" + "." + "html" == "index.html"
    ensures IsName("index.html")
  {
    assert '.' !in "index";
  }

  /** A name without extension gets ".html" appended. */
  lemma NameGetsHtml(d: seq<string>, n: string)
    requires AllNames(d) && IsName(n) && ExtOf(n) == ""
    ensures WithHtml(Render(d + [n])) == Render(d + [n + ".html"])
  {
    assert AllNames(d + [n]);
    ExtnameRender(d + [n]);
    RenderExtendLast(d, n, ".html");
  }

  /** The extension of a canonical path whose last name is `stem.x`. */
  lemma NameExtension(d: seq<string>, stem: string, x: string)
    requires AllNames(d) && stem != "" && '.' !in x && IsName(stem + "." + x)
    ensures Extname(Render(d + [stem + "." + x])) == "." + x
  {
    assert AllNames(d + [stem + "." + x]);
    ExtnameRender(d + [stem + "." + x]);
    ExtOfSuffix(stem, x);
  }

  /** A directory's "index" name has no extension, so ".html" goes onto it. */
  lemma IndexPage(d: seq<string>)
    requires AllNames(d)
    ensures WithHtml(Render(d + ["index"])) == Render(d + ["index.html"])
    ensures Extname(Render(d + ["index.html"])) == ".html"
  {
    IndexNames();
    NameGetsHtml(d, "index");
    NameExtension(d, "index", "html");
  }

  /** A request naming a listed directory is served that directory's
      index.html. */
  lemma DirectoryRequest(root: seq<string>, rel: seq<string>, directories: seq<string>)
    requires root != [] && AllNames(root) && AllNames(rel)
    requires Distinct(directories) && Render(rel) in directories
    ensures FileNameBuilder(Render(root), Render(rel), directories)
            == Target("html", Render(root + rel + ["index.html"]))
  {
    IndexExactlyWhenListed(Render(root), Render(rel), directories);
    assert PathParts(Render(root), Render(rel), directories) == [Render(root), Render(rel), "index"];
    JoinUnderIndex(root, rel);
    assert AllNames(root + rel);
    IndexPage(root + rel);
    ResolvedFrom(Render(root), Render(rel), directories, Render(root + rel + ["index"]));
    HtmlKey();
  }

  /** The request "/" with "/" listed is served ROOT_PATH/index.html. */
  lemma RootRequest(root: seq<string>, directories: seq<string>)
    requires root != [] && AllNames(root)
    requires Distinct(directories) && "/" in directories
    ensures FileNameBuilder(Render(root), "/", directories) == Target("html", Render(root) + "/index.html")
  {
    assert Render([]) == "/";
    DirectoryRequest(root, [], directories);
    IndexBelow(root);
  }

  lemma IndexBelow(root: seq<string>)
    requires root != []
    ensures Render(root + [] + ["index.html"]) == Render(root) + "/index.html"
  {
    assert root + [] + ["index.html"] == root + ["index.html"];
    RenderSnoc(root, "index.html");
  }

  /** An unlisted request whose last name has no extension is served that
      path with ".html" appended. */
  lemma ExtensionlessRequest(root: seq<string>, rel: seq<string>, directories: seq<string>)
    requires root != [] && rel != [] && AllNames(root) && AllNames(rel)
    requires Render(rel) !in directories && ExtOf(Last(rel)) == ""
    ensures FileNameBuilder(Render(root), Render(rel), directories)
            == Target("html", Render(root + rel) + ".html")
  {
    IndexExactlyWhenListed(Render(root), Render(rel), directories);
    JoinUnder(root, rel);
    assert AllNames(root + rel);
    ExtnameRender(root + rel);
    assert Last(root + rel) == Last(rel);
    RenderNoTrailingSlash(root + rel);
    ExtnameHtml(Render(root + rel));
    ResolvedFrom(Render(root), Render(rel), directories, Render(root + rel));
    HtmlKey();
  }

  /** An unlisted request whose last name is `stem.x` is served unchanged,
      and its lookup extension is x lower-cased: "/a/B.PNG" looks up "png"
      just as "/a/B.png" does. */
  lemma FileRequest(root: seq<string>, rel: seq<string>, stem: string, x: string, directories: seq<string>)
    requires root != [] && AllNames(root) && AllNames(rel)
    requires stem != "" && '.' !in x && IsName(stem + "." + x)
    requires Render(rel + [stem + "." + x]) !in directories
    ensures FileNameBuilder(Render(root), Render(rel + [stem + "." + x]), directories)
            == Target(Lower(x), Render(root + rel + [stem + "." + x]))
  {
    var name := stem + "." + x;
    var full := rel + [name];
    assert AllNames(full);
    IndexExactlyWhenListed(Render(root), Render(full), directories);
    JoinUnder(root, full);
    assert root + full == root + rel + [name];
    assert AllNames(root + full);
    ExtnameRender(root + full);
    ExtOfSuffix(stem, x);
    ResolvedFrom(Render(root), Render(full), directories, Render(root + full));
    KeyOfExtension(x);
  }

  /** Extname of a canonical path with one trailing slash ignores the slash. */
  lemma ExtnameTrailing(names: seq<string>)
    requires names != [] && AllNames(names)
    ensures Extname(Render(names) + "/") == ExtOf(Last(names))
  {
    var p := Render(names);
    RenderNoTrailingSlash(names);
    assert (p + "/")[..|p + "/"| - 1] == p;
    assert TrimTrailingSlashes(p + "/") == p;
    ExtnameRender(names);
  }

  /** An unlisted request with a trailing slash, such as "/blog/": the slash
      survives the join, ".html" lands after it as a dot-file, and the
      lookup extension is empty. */
  lemma TrailingSlashRequest(root: seq<string>, rel: seq<string>, directories: seq<string>)
    requires root != [] && rel != [] && AllNames(root) && AllNames(rel)
    requires Render(rel) + "/" !in directories && ExtOf(Last(rel)) == ""
    ensures FileNameBuilder(Render(root), Render(rel) + "/", directories)
            == Target("", Render(root + rel) + "/.html")
  {
    IndexExactlyWhenListed(Render(root), Render(rel) + "/", directories);
    JoinUnderTrailing(root, rel);
    assert AllNames(root + rel);
    assert Last(root + rel) == Last(rel);
    TrailingWithHtml(root + rel);
    ResolvedFrom(Render(root), Render(rel) + "/", directories, Render(root + rel) + "/");
    HtmlKey();
  }

  /** After a trailing slash, ".html" is appended as a dot-file name, which
      itself has no extension. */
  lemma TrailingWithHtml(names: seq<string>)
    requires names != [] && AllNames(names) && ExtOf(Last(names)) == ""
    ensures WithHtml(Render(names) + "/") == Render(names) + "/.html"
    ensures Extname(Render(names) + "/.html") == ""
  {
    var p := Render(names);
    ExtnameTrailing(names);
    ExtnameHtml(p + "/");
    assert Last(p + "/") == '/';
    assert p + "/" + ".html" == p + "/.html";
  }

  /** A "/.." request climbs out of the content root: the target is resolved
      against the root's parent, with no containment check. */
  lemma ClimbingRequest(root: seq<string>, rel: seq<string>, directories: seq<string>)
    requires root != [] && rel != [] && AllNames(root) && AllNames(rel)
    requires "/.." + Render(rel) !in directories
    ensures FileNameBuilder(Render(root), "/.." + Render(rel), directories).path
            == WithHtml(Render(root[..|root| - 1] + rel))
  {
    IndexExactlyWhenListed(Render(root), "/.." + Render(rel), directories);
    JoinClimbsAboveRoot(root, rel);
  }

  /** ".html" is the only thing WithHtml ever adds. */
  lemma WithHtmlSuffix(q: string)
    ensures WithHtml(q) == q + (if Extname(q) == "" then ".html" else "")
  {
  }

  /** A path a/n + s, with no slash in n or s, is not under a/l/. */
  lemma NotBelow(a: string, l: string, n: string, s: string)
    requires '/' !in n && '/' !in s
    ensures !(a + "/" + l + "/" <= a + "/" + n + s)
  {
    var prefix := a + "/" + l + "/";
    var p := a + "/" + n + s;
    var i := |a| + 1 + |l|;
    assert prefix[i] == '/';
    assert i < |p| ==> p[i] in n || p[i] in s;
  }

  /** Render of a list split before its last name. */
  lemma RenderParent(root: seq<string>, n: string)
    requires root != []
    ensures var a := if |root| == 1 then "" else Render(root[..|root| - 1]);
      && Render(root[..|root| - 1] + [n]) == a + "/" + n
      && Render(root) + "/" == a + "/" + Last(root) + "/"
  {
    var k := |root| - 1;
    RenderSnoc(root[..k], n);
    assert root[..k] + [Last(root)] == root;
    RenderSnoc(root[..k], Last(root));
  }

  /** A request "/../n" resolves to a file that is not inside the content
      root directory: nothing in the builder keeps the target under ROOT_PATH. */
  lemma ClimbLeavesRoot(root: seq<string>, n: string, directories: seq<string>)
    requires root != [] && AllNames(root) && IsName(n)
    requires "/.." + Render([n]) !in directories
    ensures !(Render(root) + "/" <= FileNameBuilder(Render(root), "/.." + Render([n]), directories).path)
  {
    ClimbingRequest(root, [n], directories);
    ParentNotBelow(root, n);
  }

  /** The root's sibling `n`, with or without ".html", is not below the root. */
  lemma ParentNotBelow(root: seq<string>, n: string)
    requires root != [] && AllNames(root) && IsName(n)
    ensures !(Render(root) + "/" <= WithHtml(Render(root[..|root| - 1] + [n])))
  {
    var k := |root| - 1;
    var q := Render(root[..k] + [n]);
    var a := if k == 0 then "" else Render(root[..k]);
    RenderParent(root, n);
    WithHtmlSuffix(q);
    NotBelow(a, Last(root), n, if Extname(q) == "" then ".html" else "");
  }

  // ---------------------------------------------------------------------
  // Resolution against the DIRECTORIES list computed at start-up.

  /** Every directory of the content tree is served its own index.html. */
  lemma ServesDirectoryIndex(root: seq<string>, entries: seq<Entry>, p: seq<string>)
    requires root != [] && AllNames(root) && WellFormed(entries)
    requires IsDir(entries, p) && AllNames(p)
    ensures FileNameBuilder(Render(root), Render(p), HostedDirectories(Render(root), entries))
            == Target("html", Render(root + p + ["index.html"]))
  {
    HostedDirectoriesExact(root, entries);
    DirectoryRequest(root, p, HostedDirectories(Render(root), entries));
  }

  /** A canonical request that names no directory is not in DIRECTORIES. */
  lemma NotHosted(root: seq<string>, entries: seq<Entry>, p: seq<string>)
    requires root != [] && AllNames(root) && WellFormed(entries)
    requires !IsDir(entries, p) && AllNames(p)
    ensures Render(p) !in HostedDirectories(Render(root), entries)
  {
    HostedDirectoriesExact(root, entries);
    forall q | IsDir(entries, q) && AllNames(q)
      ensures Render(q) != Render(p)
    {
      RenderInjective(q, p);
    }
  }

  /** A request for a path that is no directory and has no extension is
      served that path with ".html" appended. */
  lemma ServesPageWithoutExtension(root: seq<string>, entries: seq<Entry>, p: seq<string>)
    requires root != [] && AllNames(root) && WellFormed(entries)
    requires p != [] && !IsDir(entries, p) && AllNames(p) && ExtOf(Last(p)) == ""
    ensures FileNameBuilder(Render(root), Render(p), HostedDirectories(Render(root), entries))
            == Target("html", Render(root + p) + ".html")
  {
    NotHosted(root, entries, p);
    ExtensionlessRequest(root, p, HostedDirectories(Render(root), entries));
  }
}
