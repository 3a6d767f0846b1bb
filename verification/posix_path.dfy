/** Node's POSIX `path.join`, `path.normalize` and `path.extname`, written
    over the pieces of a path between slashes.

    `normalize` walks the pieces left to right with a stack: empty pieces and
    "." are dropped, ".." removes the previous proper piece (or, for a relative
    path that has nothing left to remove, is kept), anything else is pushed.
    An absolute path keeps its leading slash and a trailing slash survives. */
module PosixPath {
  import opened Segments
  import opened Optional

  /** A proper directory entry name: what `readdir` returns. */
  predicate IsName(x: string)
  {
    x != "" && x != "." && x != ".." && '/' !in x
  }

  predicate AllNames(xs: seq<string>)
  {
    forall i :: 0 <= i < |xs| ==> IsName(xs[i])
  }

  /** A piece of an already tidy absolute path: empty or a proper name. */
  predicate IsPiece(x: string)
  {
    x == "" || IsName(x)
  }

  predicate AllPieces(xs: seq<string>)
  {
    forall i :: 0 <= i < |xs| ==> IsPiece(xs[i])
  }

  predicate NoneEmpty(xs: seq<string>)
  {
    forall i :: 0 <= i < |xs| ==> xs[i] != ""
  }

  /** The non-empty strings of `xs`, in order. */
  function NonEmpty(xs: seq<string>): (r: seq<string>)
    ensures NoneEmpty(r)
    ensures |r| <= |xs|
  {
    if xs == [] then []
    else NonEmpty(xs[..|xs| - 1]) + (if Last(xs) == "" then [] else [Last(xs)])
  }

  /** One step of `normalizeString`: what a single piece does to the stack. */
  function Push(stack: seq<string>, piece: string, aboveRoot: bool): (r: seq<string>)
  {
    if piece == "" || piece == "." then stack
    else if piece == ".." then
      if |stack| > 0 && Last(stack) != ".." then stack[..|stack| - 1]
      else if aboveRoot then stack + [".."]
      else stack
    else stack + [piece]
  }

  /** `normalizeString` over a whole list of pieces, starting from `stack`. */
  function Reduce(stack: seq<string>, pieces: seq<string>, aboveRoot: bool): (r: seq<string>)
    ensures NoneEmpty(stack) ==> NoneEmpty(r)
    ensures NoSlash(stack) && NoSlash(pieces) ==> NoSlash(r)
    ensures AllNames(stack) && NoSlash(pieces) && !aboveRoot ==> AllNames(r)
    decreases |pieces|
  {
    if pieces == [] then stack
    else Push(Reduce(stack, pieces[..|pieces| - 1], aboveRoot), Last(pieces), aboveRoot)
  }

  /** A canonical absolute path spelled from its names: "/" for none. */
  function Render(names: seq<string>): (r: string)
  {
    "/" + SlashJoin(names)
  }

  /** `path.posix.normalize(s)`. */
  function Normalize(s: string): (r: string)
    ensures r != ""
    ensures s != "" && s[0] == '/' ==> r[0] == '/'
  {
    if s == "" then "."
    else
      var absolute := s[0] == '/';
      var trailing := Last(s) == '/';
      var names := Reduce([], Split(s), !absolute);
      if names == [] then
        (if absolute then "/" else if trailing then "./" else ".")
      else
        SlashJoinStarts(names);
        (if absolute then "/" else "") + SlashJoin(names) + (if trailing then "/" else "")
  }

  /** `path.posix.join(...args)`: empty arguments are skipped, the rest glued
      with '/' and normalized; no arguments at all give ".". */
  function Join(args: seq<string>): (r: string)
    ensures r != ""
    ensures |args| > 0 && args[0] != "" && args[0][0] == '/' ==> r[0] == '/'
  {
    var kept := NonEmpty(args);
    NonEmptyHead(args);
    if kept == [] then "."
    else
      SlashJoinStarts(kept);
      Normalize(SlashJoin(kept))
  }

  /** The path with every trailing '/' removed. */
  function TrimTrailingSlashes(s: string): (r: string)
    ensures r <= s
    ensures r == "" || Last(r) != '/'
  {
    if s != [] && Last(s) == '/' then TrimTrailingSlashes(s[..|s| - 1]) else s
  }

  /** The final piece of the path, ignoring trailing slashes. */
  function Basename(p: string): (r: string)
  {
    Last(Split(TrimTrailingSlashes(p)))
  }

  /** The index of the last '.' in `b`, if any. */
  function LastDot(b: string): (r: Option<nat>)
    ensures r.None? <==> '.' !in b
    ensures r.Some? ==> r.value < |b| && b[r.value] == '.' && '.' !in b[r.value + 1..]
  {
    if b == [] then None
    else if Last(b) == '.' then Some(|b| - 1)
    else
      var r := LastDot(b[..|b| - 1]);
      assert b == b[..|b| - 1] + [Last(b)];
      if r.Some? then
        assert b[r.value + 1..] == b[..|b| - 1][r.value + 1..] + [Last(b)];
        r
      else r
  }

  /** The extension of one final piece: from its last '.', unless that dot
      is its first character or the piece is "..". */
  function ExtOf(b: string): (r: string)
  {
    match LastDot(b)
    case None => ""
    case Some(k) => if k == 0 || b == ".." then "" else b[k..]
  }

  /** `path.posix.extname(p)`: empty, or a '.' followed by text with no
      further '.' and no '/'. */
  function Extname(p: string): (e: string)
    ensures e == "" || (e[0] == '.' && '.' !in e[1..] && '/' !in e)
  {
    var b := Basename(p);
    var t := TrimTrailingSlashes(p);
    assert '/' !in b by {
      assert Split(t)[|Split(t)| - 1] == b;
    }
    ExtOf(b)
  }

  // ---------------------------------------------------------------------
  // Helper facts used by the computations below.

  lemma SlashJoinStarts(parts: seq<string>)
    requires |parts| > 0
    ensures parts[0] <= SlashJoin(parts)
  {
  }

  lemma NonEmptyHead(args: seq<string>)
    ensures |args| > 0 && args[0] != "" ==> |NonEmpty(args)| > 0 && NonEmpty(args)[0] == args[0]
  {
    if |args| > 1 {
      NonEmptyHead(args[..|args| - 1]);
    }
  }

  lemma {:induction false} NonEmptyAppend(a: seq<string>, b: seq<string>)
    ensures NonEmpty(a + b) == NonEmpty(a) + NonEmpty(b)
  {
    if b == [] {
      assert a + b == a;
    } else {
      NonEmptyAppend(a, b[..|b| - 1]);
      assert (a + b)[..|a + b| - 1] == a + b[..|b| - 1];
    }
  }

  lemma {:induction false} NonEmptyIdentity(xs: seq<string>)
    requires NoneEmpty(xs)
    ensures NonEmpty(xs) == xs
  {
    if xs != [] {
      NonEmptyIdentity(xs[..|xs| - 1]);
    }
  }

  lemma NamesAreNonEmpty(xs: seq<string>)
    requires AllNames(xs)
    ensures NoneEmpty(xs) && NonEmpty(xs) == xs
  {
    NonEmptyIdentity(xs);
  }

  /** Resolving a concatenation is resolving one part after the other. */
  lemma {:induction false} ReduceAppend(stack: seq<string>, a: seq<string>, b: seq<string>, aboveRoot: bool)
    ensures Reduce(stack, a + b, aboveRoot) == Reduce(Reduce(stack, a, aboveRoot), b, aboveRoot)
  {
    if b == [] {
      assert a + b == a;
    } else {
      ReduceAppend(stack, a, b[..|b| - 1], aboveRoot);
      assert (a + b)[..|a + b| - 1] == a + b[..|b| - 1];
    }
  }

  /** Pieces of a tidy path only push their names. */
  lemma {:induction false} ReducePieces(stack: seq<string>, xs: seq<string>, aboveRoot: bool)
    requires AllPieces(xs)
    ensures Reduce(stack, xs, aboveRoot) == stack + NonEmpty(xs)
  {
    if xs != [] {
      ReducePieces(stack, xs[..|xs| - 1], aboveRoot);
    }
  }

  lemma SplitRender(names: seq<string>)
    requires NoSlash(names)
    ensures Split(Render(names)) == [""] + (if names == [] then [""] else names)
  {
    SplitSlash("", SlashJoin(names));
    assert "" + "/" + SlashJoin(names) == Render(names);
    if names != [] {
      SplitJoin(names);
    }
  }

  /** A rendered path with at least one name does not end in '/'. */
  lemma RenderNoTrailingSlash(names: seq<string>)
    requires names != [] && AllNames(names)
    ensures Last(Render(names)) != '/'
  {
    SplitRender(names);
    SplitLastEmpty(Render(names));
  }

  lemma RenderSnoc(names: seq<string>, x: string)
    ensures Render(names + [x]) == (if names == [] then "" else Render(names)) + "/" + x
  {
    if names != [] {
      SlashJoinSnoc(names, x);
    }
  }

  lemma {:induction false} SlashJoinConcat(a: seq<string>, b: seq<string>)
    requires a != [] && b != []
    ensures SlashJoin(a + b) == SlashJoin(a) + "/" + SlashJoin(b)
  {
    if |a| > 1 {
      SlashJoinConcat(a[1..], b);
      assert (a + b)[1..] == a[1..] + b;
    } else {
      assert (a + b)[1..] == b;
    }
  }

  /** Rendering a longer list appends the extra names to the path. */
  lemma RenderConcat(a: seq<string>, b: seq<string>)
    requires a != [] && b != []
    ensures Render(a + b) == Render(a) + Render(b)
  {
    SlashJoinConcat(a, b);
  }

  /** Normalizing an absolute path whose pieces are all tidy keeps its names. */
  lemma NormalizeTidy(s: string)
    requires s != "" && s[0] == '/' && AllPieces(Split(s))
    ensures var names := NonEmpty(Split(s));
      Normalize(s) == (if names == [] then "/" else Render(names) + (if Last(s) == '/' then "/" else ""))
  {
    ReducePieces([], Split(s), false);
    assert [] + NonEmpty(Split(s)) == NonEmpty(Split(s));
  }

  lemma JoinAllNonEmpty(args: seq<string>)
    requires |args| > 0 && NoneEmpty(args)
    ensures Join(args) == Normalize(SlashJoin(args))
  {
    NonEmptyIdentity(args);
  }

  lemma NamesArePieces(xs: seq<string>)
    requires AllNames(xs)
    ensures AllPieces(xs)
  {
  }

  // ---------------------------------------------------------------------
  // What `join` computes on the paths the server builds.

  /** `join` of non-empty arguments, the first absolute, whose glued text
      splits into tidy pieces: the names of those pieces, rendered. */
  lemma JoinTidy(args: seq<string>)
    requires |args| > 0 && NoneEmpty(args) && args[0][0] == '/'
    requires AllPieces(Split(SlashJoin(args)))
    ensures var s := SlashJoin(args);
      var names := NonEmpty(Split(s));
      Join(args) == (if names == [] then "/" else Render(names) + (if Last(s) == '/' then "/" else ""))
  {
    JoinAllNonEmpty(args);
    SlashJoinStarts(args);
    NormalizeTidy(SlashJoin(args));
  }

  lemma DropEmptyFront(xs: seq<string>)
    ensures NonEmpty([""] + xs) == NonEmpty(xs)
  {
    NonEmptyAppend([""], xs);
    assert NonEmpty([""]) == [];
  }

  /** The pieces of a canonical root followed by the pieces of a canonical
      request path: the names of both. */
  lemma RootThenRequestNames(root: seq<string>, rel: seq<string>)
    requires AllNames(root) && AllNames(rel)
    ensures var tail := Split(Render(rel));
      AllPieces([""] + root + tail) && NonEmpty([""] + root + tail) == root + rel
  {
    SplitRender(rel);
    var rest := if rel == [] then [""] else rel;
    RootRestTidy(root, rest);
    RootRestNames(root, rel);
  }

  lemma RootRestTidy(root: seq<string>, rest: seq<string>)
    requires AllNames(root) && AllPieces(rest)
    ensures AllPieces([""] + root + ([""] + rest))
  {
    var all := [""] + root + ([""] + rest);
    forall i | 0 <= i < |all| ensures IsPiece(all[i]) {
      if 1 <= i < 1 + |root| {
        assert all[i] == root[i - 1];
      } else if i >= 2 + |root| {
        assert all[i] == rest[i - 2 - |root|];
      }
    }
  }

  lemma RootRestNames(root: seq<string>, rel: seq<string>)
    requires AllNames(root) && AllNames(rel)
    ensures var rest := if rel == [] then [""] else rel;
      NonEmpty([""] + root + ([""] + rest)) == root + rel
  {
    var rest := if rel == [] then [""] else rel;
    NonEmptyAppend([""] + root, [""] + rest);
    DropEmptyFront(root);
    DropEmptyFront(rest);
    NamesAreNonEmpty(root);
    RestNames(rel);
  }

  lemma RestNames(rel: seq<string>)
    requires AllNames(rel)
    ensures NonEmpty(if rel == [] then [""] else rel) == rel
  {
    if rel == [] {
      assert NonEmpty([""]) == [];
    } else {
      NamesAreNonEmpty(rel);
    }
  }

  lemma SlashJoinPair(a: string, b: string)
    ensures SlashJoin([a, b]) == a + "/" + b
  {
    assert [a, b][1..] == [b];
  }

  /** Joining a canonical root with a canonical request path: the names
      concatenate; the bare request "/" leaves a trailing slash. */
  lemma JoinUnder(root: seq<string>, rel: seq<string>)
    requires root != [] && AllNames(root) && AllNames(rel)
    ensures Join([Render(root), Render(rel)]) ==
            (if rel == [] then Render(root) + "/" else Render(root + rel))
  {
    var a, b := Render(root), Render(rel);
    var s := SlashJoin([a, b]);
    SlashJoinPair(a, b);
    SplitSlash(a, b);
    SplitRender(root);
    assert Split(s) == [""] + root + Split(b);
    RootThenRequestNames(root, rel);
    var names := NonEmpty(Split(s));
    assert names == root + rel;
    JoinTidy([a, b]);
    assert Join([a, b]) == Render(names) + (if Last(s) == '/' then "/" else "");
    assert Last(s) == Last(b);
    if rel == [] {
      assert b == "/";
      assert names == root;
    } else {
      RenderNoTrailingSlash(rel);
      assert Last(s) != '/';
    }
  }

  /** Joining a canonical root, a canonical request path and "index". */
  lemma JoinUnderIndex(root: seq<string>, rel: seq<string>)
    requires root != [] && AllNames(root) && AllNames(rel)
    ensures Join([Render(root), Render(rel), "index"]) == Render(root + rel + ["index"])
  {
    var args := [Render(root), Render(rel), "index"];
    IndexNames(root, rel);
    assert NoneEmpty(args);
    JoinTidy(args);
  }

  /** The pieces of root, request path and "index" glued together. */
  lemma IndexNames(root: seq<string>, rel: seq<string>)
    requires root != [] && AllNames(root) && AllNames(rel)
    ensures var s := SlashJoin([Render(root), Render(rel), "index"]);
      && AllPieces(Split(s))
      && NonEmpty(Split(s)) == root + rel + ["index"]
      && Last(s) == 'x'
  {
    var a, b := Render(root), Render(rel);
    IndexPieces(root, rel);
    var front := [""] + root + Split(b);
    RootThenRequestNames(root, rel);
    IndexTidy(front);
    NonEmptyAppend(front, ["index"]);
    assert NonEmpty(["index"]) == ["index"];
    IndexPiecesText(a, b);
  }

  lemma IndexPiecesText(a: string, b: string)
    ensures SlashJoin([a, b, "index"]) == a + "/" + b + "/" + "index"
    ensures Last(SlashJoin([a, b, "index"])) == 'x'
  {
    assert [a, b, "index"][1..] == [b, "index"];
    SlashJoinPair(b, "index");
  }

  lemma IndexPieces(root: seq<string>, rel: seq<string>)
    requires root != [] && AllNames(root)
    ensures var a, b := Render(root), Render(rel);
      Split(SlashJoin([a, b, "index"])) == [""] + root + Split(b) + ["index"]
  {
    var a, b := Render(root), Render(rel);
    IndexPiecesText(a, b);
    SplitSlash(a + "/" + b, "index");
    SplitSlash(a, b);
    SplitNoSlash("index");
    SplitRender(root);
  }

  lemma IndexTidy(front: seq<string>)
    requires AllPieces(front)
    ensures AllPieces(front + ["index"])
  {
    assert IsPiece("index");
  }

  /** Joining a canonical directory with one entry name. */
  lemma JoinChild(dir: seq<string>, name: string)
    requires dir != [] && AllNames(dir) && IsName(name)
    ensures Join([Render(dir), name]) == Render(dir + [name])
  {
    var a := Render(dir);
    var s := SlashJoin([a, name]);
    SlashJoinPair(a, name);
    SplitSlash(a, name);
    SplitNoSlash(name);
    SplitRender(dir);
    assert Split(s) == [""] + dir + [name];
    assert [""] + dir + [name] == [""] + (dir + [name]);
    DropEmptyFront(dir + [name]);
    NamesAreNonEmpty(dir + [name]);
    JoinTidy([a, name]);
    assert Last(s) == Last(name);
  }

  /** `path.posix.join('/', ...names)` is the canonical path of the names. */
  lemma JoinFromSlash(names: seq<string>)
    requires AllNames(names)
    ensures Join(["/"] + names) == Render(names)
  {
    if names == [] {
      JoinSlashAlone();
      assert ["/"] + names == ["/"];
    } else {
      JoinSlashNames(names);
    }
  }

  lemma JoinSlashAlone()
    ensures Join(["/"]) == "/"
  {
    var slash := Render([]);
    assert slash == "/";
    assert NonEmpty([slash]) == [slash];
    assert SlashJoin([slash]) == slash;
    SplitRender([]);
    assert Reduce([], ["", ""], false) == [];
  }

  lemma JoinSlashNames(names: seq<string>)
    requires names != [] && AllNames(names)
    ensures Join(["/"] + names) == Render(names)
  {
    var args := ["/"] + names;
    var s := SlashJoin(args);
    assert s == "/" + Render(names) by {
      assert args[1..] == names;
    }
    assert Split(s) == [""] + ([""] + names) by {
      SplitSlash("", Render(names));
      assert "" + "/" + Render(names) == s;
      SplitRender(names);
    }
    assert AllPieces(Split(s));
    assert NonEmpty(Split(s)) == names by {
      DropEmptyFront([""] + names);
      DropEmptyFront(names);
      NamesAreNonEmpty(names);
    }
    assert Last(s) != '/' by {
      RenderNoTrailingSlash(names);
      assert Last(s) == Last(Render(names));
    }
    NamesAreNonEmpty(names);
    assert NoneEmpty(args);
    JoinTidy(args);
  }

  /** A request path with a trailing slash keeps it through `join`. */
  lemma JoinUnderTrailing(root: seq<string>, rel: seq<string>)
    requires root != [] && rel != [] && AllNames(root) && AllNames(rel)
    ensures Join([Render(root), Render(rel) + "/"]) == Render(root + rel) + "/"
  {
    var a, b := Render(root), Render(rel) + "/";
    var s := SlashJoin([a, b]);
    SlashJoinPair(a, b);
    var all := [""] + root + ([""] + rel + [""]);
    TrailingPieces(root, rel);
    TrailingPiecesTidy(root, rel);
    TrailingNames(root, rel);
    assert Last(s) == '/';
    JoinTidy([a, b]);
  }

  lemma TrailingPieces(root: seq<string>, rel: seq<string>)
    requires root != [] && rel != [] && AllNames(root) && AllNames(rel)
    ensures Split(Render(root) + "/" + (Render(rel) + "/")) == [""] + root + ([""] + rel + [""])
  {
    var a, b := Render(root), Render(rel) + "/";
    assert Split(b) == [""] + rel + [""] by {
      SplitSlash(Render(rel), "");
      assert Render(rel) + "/" + "" == b;
      SplitRender(rel);
    }
    SplitSlash(a, b);
    SplitRender(root);
  }

  lemma TrailingPiecesTidy(root: seq<string>, rel: seq<string>)
    requires AllNames(root) && AllNames(rel)
    ensures AllPieces([""] + root + ([""] + rel + [""]))
  {
    var all := [""] + root + ([""] + rel + [""]);
    forall i | 0 <= i < |all| ensures IsPiece(all[i]) {
      if 1 <= i < 1 + |root| {
        assert all[i] == root[i - 1];
      } else if 2 + |root| <= i < 2 + |root| + |rel| {
        assert all[i] == rel[i - 2 - |root|];
      }
    }
  }

  lemma TrailingNames(root: seq<string>, rel: seq<string>)
    requires AllNames(root) && AllNames(rel)
    ensures NonEmpty([""] + root + ([""] + rel + [""])) == root + rel
  {
    var front, back := [""] + root, [""] + rel;
    assert [""] + root + ([""] + rel + [""]) == front + (back + [""]);
    NonEmptyAppend(front, back + [""]);
    DropEmptyFront(root);
    DropEmptyBack(back);
    DropEmptyFront(rel);
    NamesAreNonEmpty(root);
    NamesAreNonEmpty(rel);
  }

  lemma DropEmptyBack(xs: seq<string>)
    ensures NonEmpty(xs + [""]) == NonEmpty(xs)
  {
    assert (xs + [""])[..|xs|] == xs;
  }

  /** A ".." right after the root climbs out of it: `join` resolves it
      lexically against the root's own names, with no containment check. */
  lemma JoinClimbsAboveRoot(root: seq<string>, rel: seq<string>)
    requires root != [] && rel != [] && AllNames(root) && AllNames(rel)
    ensures Join([Render(root), "/.." + Render(rel)]) == Render(root[..|root| - 1] + rel)
  {
    var a, b := Render(root), "/.." + Render(rel);
    var s := SlashJoin([a, b]);
    assert [a, b][1..] == [b];
    assert SlashJoin([b]) == b;
    assert s == a + "/" + b;
    ClimbPieces(root, rel);
    ClimbReduces(root, rel);
    assert Last(s) != '/' by {
      RenderNoTrailingSlash(rel);
      assert Last(s) == Last(Render(rel));
    }
    assert NonEmpty([a, b]) == [a, b] by {
      NonEmptyIdentity([a, b]);
    }
  }

  lemma ClimbPieces(root: seq<string>, rel: seq<string>)
    requires root != [] && rel != [] && AllNames(root) && AllNames(rel)
    ensures Split(Render(root) + "/" + ("/.." + Render(rel))) == [""] + root + ["", ".."] + rel
  {
    var b := "/.." + Render(rel);
    assert Split(b) == ["", ".."] + rel by {
      SplitSlash("/..", SlashJoin(rel));
      assert "/.." + "/" + SlashJoin(rel) == b;
      SplitJoin(rel);
      SplitSlash("", "..");
      assert "" + "/" + ".." == "/..";
      SplitNoSlash("..");
    }
    SplitSlash(Render(root), b);
    SplitRender(root);
  }

  lemma ClimbReduces(root: seq<string>, rel: seq<string>)
    requires root != [] && AllNames(root) && AllNames(rel)
    ensures Reduce([], [""] + root + ["", ".."] + rel, false) == root[..|root| - 1] + rel
  {
    var front := [""] + root;
    ReduceAppend([], front + ["", ".."], rel, false);
    ReduceAppend([], front, ["", ".."], false);
    ReduceRoot(root);
    ReduceClimb(root);
    ReducePieces(root[..|root| - 1], rel, false);
    NamesAreNonEmpty(rel);
  }

  /** The pieces of a canonical root resolve to its names. */
  lemma ReduceRoot(root: seq<string>)
    requires AllNames(root)
    ensures Reduce([], [""] + root, false) == root
  {
    var front := [""] + root;
    assert AllPieces(front) by {
      forall i | 0 <= i < |front| ensures IsPiece(front[i]) {
        if i > 0 {
          assert front[i] == root[i - 1];
        }
      }
    }
    ReducePieces([], front, false);
    DropEmptyFront(root);
    NamesAreNonEmpty(root);
  }

  /** An empty piece and then ".." drop the last name. */
  lemma ReduceClimb(stack: seq<string>)
    requires stack != [] && Last(stack) != ".."
    ensures Reduce(stack, ["", ".."], false) == stack[..|stack| - 1]
  {
    var pieces := ["", ".."];
    assert pieces[..1] == [""] && Last(pieces) == "..";
    assert [""][..0] == [] && Last([""]) == "";
    assert Reduce(stack, [""], false) == stack;
  }

  // ---------------------------------------------------------------------
  // What `extname` computes on the paths the server builds.

  /** The extension of a canonical path is that of its last name. */
  lemma ExtnameRender(names: seq<string>)
    requires names != [] && AllNames(names)
    ensures Extname(Render(names)) == ExtOf(Last(names))
  {
    var p := Render(names);
    RenderNoTrailingSlash(names);
    assert TrimTrailingSlashes(p) == p;
    SplitRender(names);
    assert Last([""] + names) == Last(names);
    assert Basename(p) == Last(names);
  }

  /** The extension after appending ".html": ".html" itself, unless the path
      ended in '/', when the new last piece ".html" is a dot-file without one. */
  lemma ExtnameHtml(p: string)
    requires p != ""
    ensures Extname(p + ".html") == (if Last(p) == '/' then "" else ".html")
  {
    var q := p + ".html";
    assert TrimTrailingSlashes(q) == q;
    SplitAppend(p, ".html");
    var b := Last(Split(p));
    assert Basename(q) == b + ".html";
    SplitLastEmpty(p);
    LastDotBeforeSuffix(b, "html");
    assert b + ".html" == b + "." + "html";
  }

  lemma LastDotBeforeSuffix(b: string, x: string)
    requires '.' !in x
    ensures LastDot(b + "." + x) == Some(|b|)
  {
    var s := b + "." + x;
    assert s[|b|] == '.';
    assert s[|b| + 1..] == x;
  }

  /** Appending ".html" to a rendered path is renaming its last name. */
  lemma RenderExtendLast(names: seq<string>, x: string, y: string)
    ensures Render(names + [x]) + y == Render(names + [x + y])
  {
    SlashJoinExtendLast(names, x, y);
  }
}
