/** The startup directory index: the recursive walk `getDirectoriesRecursive`
    over the content root, and the loop that turns each absolute directory
    path into a "/"-rooted request path (the DIRECTORIES list).

    The filesystem is an abstract tree: a directory is the sequence of entries
    `readdirSync` lists for it, each a file or a sub-directory with its own
    entries; `statSync(..).isDirectory()` is the `Folder?` test. */
module DirectoryIndex {
  import opened Segments
  import opened PosixPath

  datatype Entry = File(name: string) | Folder(name: string, entries: seq<Entry>)

  /** `getDirectoriesRecursive(src)` for a directory whose listing is
      `entries`: `src` itself, then the walk of each sub-directory in
      listing order. */
  function Walk(src: string, entries: seq<Entry>): (r: seq<string>)
    ensures |r| >= 1 && r[0] == src
    decreases entries, 1
  {
    [src] + WalkChildren(src, entries)
  }

  /** `flatten(getDirectories(src).map(getDirectoriesRecursive))`: each entry
      path is `path.join(src, name)`, files are filtered out, and the walks of
      the remaining sub-directories are concatenated in listing order. */
  function WalkChildren(src: string, entries: seq<Entry>): (r: seq<string>)
    decreases entries, 0
  {
    if entries == [] then []
    else
      (match entries[0]
       case File(_) => []
       case Folder(n, sub) => Walk(Join([src, n]), sub))
      + WalkChildren(src, entries[1..])
  }

  // ---------------------------------------------------------------------
  // The reference: directories as lists of names relative to the root.

  /** Every list of names in `ps`, with `n` put in front. */
  function Under(n: string, ps: seq<seq<string>>): (r: seq<seq<string>>)
    ensures |r| == |ps|
    ensures forall i :: 0 <= i < |ps| ==> r[i] == [n] + ps[i]
  {
    seq(|ps|, i requires 0 <= i < |ps| => [n] + ps[i])
  }

  /** The walk in relative terms: the directory itself ([]), then each
      sub-directory's relative walk under its name. */
  function RelWalk(entries: seq<Entry>): (r: seq<seq<string>>)
    ensures |r| >= 1 && r[0] == []
    decreases entries, 1
  {
    [[]] + RelChildren(entries)
  }

  function RelChildren(entries: seq<Entry>): (r: seq<seq<string>>)
    decreases entries, 0
  {
    if entries == [] then []
    else
      (match entries[0]
       case File(_) => []
       case Folder(n, sub) => Under(n, RelWalk(sub)))
      + RelChildren(entries[1..])
  }

  /** `p` names a directory reachable from a directory listing `entries` by
      following sub-directories of the given names. */
  predicate IsDir(entries: seq<Entry>, p: seq<string>)
    decreases |p|, 1
  {
    p == [] || HasSubdir(entries, p[0], p[1..])
  }

  /** Some sub-directory of the listing is named `n` and has `rest` below it. */
  predicate HasSubdir(entries: seq<Entry>, n: string, rest: seq<string>)
    decreases |rest| + 1, 0
  {
    exists i :: 0 <= i < |entries| && SubdirNamed(entries, i, n) && IsDir(entries[i].entries, rest)
  }

  predicate SubdirNamed(entries: seq<Entry>, i: int, n: string)
  {
    0 <= i < |entries| && entries[i].Folder? && entries[i].name == n
  }

  /** What a real filesystem guarantees of a listing: proper entry names,
      no name twice in one directory, and the same below. */
  predicate WellFormed(entries: seq<Entry>)
    decreases entries
  {
    && (forall i :: 0 <= i < |entries| ==> IsName(entries[i].name))
    && (forall i, j :: 0 <= i < j < |entries| ==> entries[i].name != entries[j].name)
    && (forall i :: 0 <= i < |entries| && entries[i].Folder? ==> WellFormed(entries[i].entries))
  }

  /** Canonical absolute paths of `base` extended by each list in `ps`. */
  function RenderAll(base: seq<string>, ps: seq<seq<string>>): (r: seq<string>)
    ensures |r| == |ps|
    ensures forall i :: 0 <= i < |ps| ==> r[i] == Render(base + ps[i])
  {
    seq(|ps|, i requires 0 <= i < |ps| => Render(base + ps[i]))
  }

  predicate AllNameLists(ps: seq<seq<string>>)
  {
    forall i :: 0 <= i < |ps| ==> AllNames(ps[i])
  }

  // ---------------------------------------------------------------------
  // The walk from a canonical root is the relative walk, rendered.

  lemma RenderAllConcat(base: seq<string>, a: seq<seq<string>>, b: seq<seq<string>>)
    ensures RenderAll(base, a + b) == RenderAll(base, a) + RenderAll(base, b)
  {
  }

  lemma RenderAllUnder(base: seq<string>, n: string, ps: seq<seq<string>>)
    ensures RenderAll(base + [n], ps) == RenderAll(base, Under(n, ps))
  {
    forall i | 0 <= i < |ps|
      ensures base + [n] + ps[i] == base + ([n] + ps[i])
    {
    }
  }

  /** Walking from a canonical root lists exactly the canonical paths of the
      relative walk, in the same order. */
  lemma {:induction false} WalkFromRoot(root: seq<string>, entries: seq<Entry>)
    requires root != [] && AllNames(root) && WellFormed(entries)
    ensures Walk(Render(root), entries) == RenderAll(root, RelWalk(entries))
    decreases entries, 1
  {
    WalkChildrenFromRoot(root, entries);
    RenderAllConcat(root, [[]], RelChildren(entries));
    RenderAllRoot(root);
  }

  lemma RenderAllRoot(root: seq<string>)
    ensures RenderAll(root, [[]]) == [Render(root)]
  {
    assert root + [] == root;
  }

  lemma {:induction false} WalkChildrenFromRoot(root: seq<string>, entries: seq<Entry>)
    requires root != [] && AllNames(root) && WellFormed(entries)
    ensures WalkChildren(Render(root), entries) == RenderAll(root, RelChildren(entries))
    decreases entries, 0
  {
    if entries != [] {
      var rest := entries[1..];
      assert WellFormed(rest);
      WalkChildrenFromRoot(root, rest);
      match entries[0]
      case File(_) =>
      case Folder(n, sub) =>
        assert IsName(n) && WellFormed(sub);
        JoinChild(root, n);
        WalkFromRoot(root + [n], sub);
        RenderAllUnder(root, n, RelWalk(sub));
        RenderAllConcat(root, Under(n, RelWalk(sub)), RelChildren(rest));
    }
  }

  // ---------------------------------------------------------------------
  // The relative walk lists every directory, only directories, once each.

  /** The relative walk lists exactly the directories of the tree. */
  lemma {:induction false} RelWalkIsDirectories(entries: seq<Entry>, p: seq<string>)
    ensures p in RelWalk(entries) <==> IsDir(entries, p)
    decreases entries, 2
  {
    if p != [] {
      RelChildrenAreSubdirectories(entries, p);
      assert p in RelWalk(entries) <==> p in RelChildren(entries);
      assert IsDir(entries, p) <==> HasSubdir(entries, p[0], p[1..]);
    }
  }

  lemma {:induction false} RelChildrenAreSubdirectories(entries: seq<Entry>, p: seq<string>)
    requires p != []
    ensures p in RelChildren(entries) <==> HasSubdir(entries, p[0], p[1..])
    decreases entries, 1
  {
    if entries != [] {
      var rest := entries[1..];
      RelChildrenAreSubdirectories(rest, p);
      HasSubdirSplit(entries, p[0], p[1..]);
      var own := match entries[0] case File(_) => [] case Folder(n, sub) => Under(n, RelWalk(sub));
      assert RelChildren(entries) == own + RelChildren(rest);
      FirstBlock(entries, p);
    }
  }

  /** The block the first entry contributes holds `p` exactly when the first
      entry is a sub-directory named `p[0]` with `p[1..]` below it. */
  lemma {:induction false} FirstBlock(entries: seq<Entry>, p: seq<string>)
    requires entries != [] && p != []
    ensures var own := match entries[0] case File(_) => [] case Folder(n, sub) => Under(n, RelWalk(sub));
      p in own <==> (SubdirNamed(entries, 0, p[0]) && IsDir(entries[0].entries, p[1..]))
    decreases entries, 0
  {
    match entries[0]
    case File(_) =>
    case Folder(n, sub) =>
      var own := Under(n, RelWalk(sub));
      RelWalkIsDirectories(sub, p[1..]);
      if p in own {
        var k :| 0 <= k < |own| && own[k] == p;
        assert p[1..] == RelWalk(sub)[k];
      }
      if SubdirNamed(entries, 0, p[0]) && IsDir(sub, p[1..]) {
        var k :| 0 <= k < |RelWalk(sub)| && RelWalk(sub)[k] == p[1..];
        assert own[k] == [n] + p[1..] == p;
      }
  }

  lemma HasSubdirSplit(entries: seq<Entry>, n: string, rest: seq<string>)
    requires entries != []
    ensures HasSubdir(entries, n, rest) <==>
            (SubdirNamed(entries, 0, n) && IsDir(entries[0].entries, rest)) || HasSubdir(entries[1..], n, rest)
  {
    var tail := entries[1..];
    if HasSubdir(tail, n, rest) {
      var i :| 0 <= i < |tail| && SubdirNamed(tail, i, n) && IsDir(tail[i].entries, rest);
      assert tail[i] == entries[i + 1];
      assert SubdirNamed(entries, i + 1, n);
    }
    if HasSubdir(entries, n, rest) {
      var i :| 0 <= i < |entries| && SubdirNamed(entries, i, n) && IsDir(entries[i].entries, rest);
      if i > 0 {
        assert tail[i - 1] == entries[i];
        assert SubdirNamed(tail, i - 1, n);
      }
    }
  }

  /** Every list the children's walk produces starts with the name of one
      of the sub-directories. */
  lemma {:induction false} RelChildrenHeads(entries: seq<Entry>, p: seq<string>)
    requires p in RelChildren(entries)
    ensures p != [] && exists i :: SubdirNamed(entries, i, p[0])
    decreases entries
  {
    var rest := entries[1..];
    var own := match entries[0] case File(_) => [] case Folder(n, sub) => Under(n, RelWalk(sub));
    assert RelChildren(entries) == own + RelChildren(rest);
    if p in own {
      assert SubdirNamed(entries, 0, p[0]);
    } else {
      RelChildrenHeads(rest, p);
      var i :| SubdirNamed(rest, i, p[0]);
      assert SubdirNamed(entries, i + 1, p[0]);
    }
  }

  lemma UnderDistinct(n: string, ps: seq<seq<string>>)
    requires Distinct(ps)
    ensures Distinct(Under(n, ps))
  {
    forall i, j | 0 <= i < j < |ps|
      ensures Under(n, ps)[i] != Under(n, ps)[j]
    {
      assert Under(n, ps)[i][1..] == ps[i];
      assert Under(n, ps)[j][1..] == ps[j];
    }
  }

  /** In a well-formed tree the relative walk lists no directory twice. */
  lemma {:induction false} RelWalkDistinct(entries: seq<Entry>)
    requires WellFormed(entries)
    ensures Distinct(RelWalk(entries))
    decreases entries, 1
  {
    RelChildrenDistinct(entries);
    forall p | p in RelChildren(entries)
      ensures p != []
    {
      RelChildrenHeads(entries, p);
    }
    DistinctConcat([[]], RelChildren(entries));
  }

  lemma {:induction false} RelChildrenDistinct(entries: seq<Entry>)
    requires WellFormed(entries)
    ensures Distinct(RelChildren(entries))
    decreases entries, 0
  {
    if entries != [] {
      var rest := entries[1..];
      assert WellFormed(rest);
      RelChildrenDistinct(rest);
      match entries[0]
      case File(_) =>
        assert RelChildren(entries) == [] + RelChildren(rest);
      case Folder(n, sub) =>
        RelWalkDistinct(sub);
        UnderDistinct(n, RelWalk(sub));
        var own := Under(n, RelWalk(sub));
        forall p | p in own
          ensures p !in RelChildren(rest)
        {
          if p in RelChildren(rest) {
            RelChildrenHeads(rest, p);
          }
        }
        DistinctConcat(own, RelChildren(rest));
    }
  }

  /** In a well-formed tree every relative directory is a list of names. */
  lemma {:induction false} RelWalkNames(entries: seq<Entry>)
    requires WellFormed(entries)
    ensures AllNameLists(RelWalk(entries))
    decreases entries, 1
  {
    RelChildrenNames(entries);
  }

  lemma {:induction false} RelChildrenNames(entries: seq<Entry>)
    requires WellFormed(entries)
    ensures AllNameLists(RelChildren(entries))
    decreases entries, 0
  {
    if entries != [] {
      var rest := entries[1..];
      assert WellFormed(rest);
      RelChildrenNames(rest);
      match entries[0]
      case File(_) =>
        assert RelChildren(entries) == [] + RelChildren(rest);
      case Folder(n, sub) =>
        RelWalkNames(sub);
        assert IsName(n);
    }
  }

  // ---------------------------------------------------------------------
  // Relativisation: absolute directory paths to request paths.

  /** `ROOT_PATH.split(path.sep).length` on POSIX. */
  function RootDepth(rootPath: string): (r: nat)
  {
    |Split(rootPath)|
  }

  /** One turn of the DIRECTORIES loop: split the directory path, drop the
      first `depth` pieces (`slice` clamps), and
      `path.posix.join(path.posix.sep, ...rest)`. */
  function Relativise(dir: string, depth: nat): (r: string)
    ensures r != "" && r[0] == '/'
  {
    var posixPath := SlashJoin(Split(dir));
    var full := Split(posixPath);
    var rest := if depth <= |full| then full[depth..] else [];
    Join(["/"] + rest)
  }

  /** The DIRECTORIES list built from the walked directory paths, in walk
      order: entry i is the i-th walked path with the root's segments
      dropped, and every entry is a "/"-rooted path. */
  function RelativeDirectories(rootPath: string, dirs: seq<string>): (r: seq<string>)
    ensures |r| == |dirs|
    ensures forall i :: 0 <= i < |r| ==> r[i] != "" && r[i][0] == '/'
    ensures forall i :: 0 <= i < |dirs| ==> r[i] == Relativise(dirs[i], RootDepth(rootPath))
  {
    seq(|dirs|, i requires 0 <= i < |dirs| => Relativise(dirs[i], RootDepth(rootPath)))
  }

  /** The whole startup sequence: walk the root, then relativise. */
  function HostedDirectories(rootPath: string, entries: seq<Entry>): (r: seq<string>)
  {
    RelativeDirectories(rootPath, Walk(rootPath, entries))
  }

  /** Relativisation maps the root to "/" and the canonical path of
      `root + p` to the canonical path of `p`. */
  lemma RelativiseUnderRoot(root: seq<string>, p: seq<string>)
    requires root != [] && AllNames(root) && AllNames(p)
    ensures Relativise(Render(root + p), RootDepth(Render(root))) == Render(p)
  {
    var dir := Render(root + p);
    JoinSplit(dir);
    SplitRender(root + p);
    SplitRender(root);
    assert RootDepth(Render(root)) == 1 + |root|;
    assert Split(dir) == [""] + root + p;
    assert Split(dir)[1 + |root|..] == p;
    JoinFromSlash(p);
  }

  /** The DIRECTORIES list of a canonical root is the relative walk, rendered:
      the root itself first as "/", then every sub-directory as its
      "/"-rooted path. */
  lemma HostedAreRelativeWalk(root: seq<string>, entries: seq<Entry>)
    requires root != [] && AllNames(root) && WellFormed(entries)
    ensures HostedDirectories(Render(root), entries) == RenderAll([], RelWalk(entries))
  {
    WalkFromRoot(root, entries);
    RelWalkNames(entries);
    var rel := RelWalk(entries);
    var walked := Walk(Render(root), entries);
    var hosted := HostedDirectories(Render(root), entries);
    assert hosted == RelativeDirectories(Render(root), walked);
    assert |hosted| == |rel|;
    forall i | 0 <= i < |rel|
      ensures hosted[i] == Render([] + rel[i])
    {
      assert walked[i] == Render(root + rel[i]);
      assert hosted[i] == Relativise(walked[i], RootDepth(Render(root)));
      RelativiseUnderRoot(root, rel[i]);
      assert [] + rel[i] == rel[i];
    }
  }

  /** Rendering is one-to-one on lists of names. */
  lemma RenderInjective(p: seq<string>, q: seq<string>)
    requires AllNames(p) && AllNames(q)
    ensures Render(p) == Render(q) ==> p == q
  {
    RenderIsRoot(p);
    RenderIsRoot(q);
    if p != [] && q != [] {
      SplitRender(p);
      SplitRender(q);
      assert p == Split(Render(p))[1..];
    }
  }

  lemma RenderIsRoot(p: seq<string>)
    requires AllNames(p)
    ensures Render(p) == "/" <==> p == []
  {
    if p != [] {
      SlashJoinStarts(p);
      assert |Render(p)| > 1;
    }
  }

  /** The startup index of a canonical root and a well-formed tree: "/" comes
      first; an entry is exactly the "/"-rooted path of some directory of the
      tree; every directory of the tree is listed; no entry is listed twice. */
  lemma HostedDirectoriesExact(root: seq<string>, entries: seq<Entry>)
    requires root != [] && AllNames(root) && WellFormed(entries)
    ensures var hosted := HostedDirectories(Render(root), entries);
      && hosted[0] == "/"
      && (forall d :: d in hosted ==> exists p :: IsDir(entries, p) && AllNames(p) && d == Render(p))
      && (forall p :: IsDir(entries, p) ==> Render(p) in hosted)
      && Distinct(hosted)
  {
    var hosted := HostedDirectories(Render(root), entries);
    HostedAreRelativeWalk(root, entries);
    assert hosted[0] == Render([] + []);
    RenderedWalkOnlyDirectories(entries);
    RenderedWalkAllDirectories(entries);
    RenderedWalkDistinct(entries);
  }

  lemma RenderedWalkOnlyDirectories(entries: seq<Entry>)
    requires WellFormed(entries)
    ensures forall d :: d in RenderAll([], RelWalk(entries)) ==>
      exists p :: IsDir(entries, p) && AllNames(p) && d == Render(p)
  {
    var rel := RelWalk(entries);
    var rendered := RenderAll([], rel);
    RelWalkNames(entries);
    forall d | d in rendered
      ensures exists p :: IsDir(entries, p) && AllNames(p) && d == Render(p)
    {
      var i :| 0 <= i < |rendered| && rendered[i] == d;
      RelWalkIsDirectories(entries, rel[i]);
      assert [] + rel[i] == rel[i];
    }
  }

  lemma RenderedWalkAllDirectories(entries: seq<Entry>)
    requires WellFormed(entries)
    ensures forall p :: IsDir(entries, p) ==> Render(p) in RenderAll([], RelWalk(entries))
  {
    var rel := RelWalk(entries);
    var rendered := RenderAll([], rel);
    forall p | IsDir(entries, p)
      ensures Render(p) in rendered
    {
      RelWalkIsDirectories(entries, p);
      var i :| 0 <= i < |rel| && rel[i] == p;
      assert [] + rel[i] == p;
      assert rendered[i] == Render(p);
    }
  }

  lemma RenderedWalkDistinct(entries: seq<Entry>)
    requires WellFormed(entries)
    ensures Distinct(RenderAll([], RelWalk(entries)))
  {
    var rel := RelWalk(entries);
    var rendered := RenderAll([], rel);
    RelWalkNames(entries);
    RelWalkDistinct(entries);
    forall i, j | 0 <= i < j < |rendered|
      ensures rendered[i] != rendered[j]
    {
      assert [] + rel[i] == rel[i] && [] + rel[j] == rel[j];
      RenderInjective(rel[i], rel[j]);
    }
  }

  /** The walk itself from a canonical root: the root first, exactly the
      directories of the tree (files never appear), each once. */
  lemma WalkListsEachDirectoryOnce(root: seq<string>, entries: seq<Entry>)
    requires root != [] && AllNames(root) && WellFormed(entries)
    ensures var walked := Walk(Render(root), entries);
      && walked[0] == Render(root)
      && (forall d :: d in walked ==> exists p :: IsDir(entries, p) && AllNames(p) && d == Render(root + p))
      && (forall p :: IsDir(entries, p) ==> Render(root + p) in walked)
      && Distinct(walked)
  {
    WalkOnlyDirectories(root, entries);
    WalkEveryDirectory(root, entries);
    WalkDistinct(root, entries);
  }

  lemma WalkOnlyDirectories(root: seq<string>, entries: seq<Entry>)
    requires root != [] && AllNames(root) && WellFormed(entries)
    ensures forall d :: d in Walk(Render(root), entries) ==>
              exists p :: IsDir(entries, p) && AllNames(p) && d == Render(root + p)
  {
    var walked := Walk(Render(root), entries);
    var rel := RelWalk(entries);
    WalkFromRoot(root, entries);
    RelWalkNames(entries);
    forall d | d in walked
      ensures exists p :: IsDir(entries, p) && AllNames(p) && d == Render(root + p)
    {
      var i :| 0 <= i < |walked| && walked[i] == d;
      RelWalkIsDirectories(entries, rel[i]);
    }
  }

  lemma WalkEveryDirectory(root: seq<string>, entries: seq<Entry>)
    requires root != [] && AllNames(root) && WellFormed(entries)
    ensures forall p :: IsDir(entries, p) ==> Render(root + p) in Walk(Render(root), entries)
  {
    var walked := Walk(Render(root), entries);
    var rel := RelWalk(entries);
    WalkFromRoot(root, entries);
    forall p | IsDir(entries, p)
      ensures Render(root + p) in walked
    {
      RelWalkIsDirectories(entries, p);
      var i :| 0 <= i < |rel| && rel[i] == p;
      assert walked[i] == Render(root + p);
    }
  }

  lemma WalkDistinct(root: seq<string>, entries: seq<Entry>)
    requires root != [] && AllNames(root) && WellFormed(entries)
    ensures Distinct(Walk(Render(root), entries))
  {
    var walked := Walk(Render(root), entries);
    var rel := RelWalk(entries);
    WalkFromRoot(root, entries);
    RelWalkNames(entries);
    RelWalkDistinct(entries);
    forall i, j | 0 <= i < j < |walked|
      ensures walked[i] != walked[j]
    {
      RenderInjective(root + rel[i], root + rel[j]);
      assert rel[i] == (root + rel[i])[|root|..];
      assert rel[j] == (root + rel[j])[|root|..];
    }
  }
}
