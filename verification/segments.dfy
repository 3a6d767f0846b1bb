/** Splitting a string on '/' and gluing pieces back together with '/', as
    JavaScript's `s.split('/')` and `parts.join('/')` do, plus the ASCII
    case mapping used for file extensions. */
module Segments {

  /** `s.split('/')`: the pieces between slashes, in order, empty ones kept. */
  function Split(s: string): (r: seq<string>)
    ensures |r| >= 1 && NoSlash(r)
  {
    SplitFrom(s, "")
  }

  /** Splitting `s` when `piece` has been read since the last slash. */
  function SplitFrom(s: string, piece: string): (r: seq<string>)
    requires '/' !in piece
    ensures |r| >= 1 && NoSlash(r)
  {
    if s == [] then [piece]
    else if s[0] == '/' then [piece] + SplitFrom(s[1..], "")
    else SplitFrom(s[1..], piece + [s[0]])
  }

  /** `parts.join('/')`. */
  function SlashJoin(parts: seq<string>): (r: string)
  {
    if |parts| == 0 then ""
    else if |parts| == 1 then parts[0]
    else parts[0] + "/" + SlashJoin(parts[1..])
  }

  predicate NoSlash(parts: seq<string>)
  {
    forall i :: 0 <= i < |parts| ==> '/' !in parts[i]
  }

  function Last<T>(xs: seq<T>): (r: T)
    requires |xs| > 0
  {
    xs[|xs| - 1]
  }

  /** No element occurs twice. */
  predicate Distinct<T(==)>(xs: seq<T>)
  {
    forall i, j :: 0 <= i < j < |xs| ==> xs[i] != xs[j]
  }

  lemma DistinctConcat<T>(a: seq<T>, b: seq<T>)
    requires Distinct(a) && Distinct(b)
    requires forall x :: x in a ==> x !in b
    ensures Distinct(a + b)
  {
    forall i, j | 0 <= i < j < |a + b|
      ensures (a + b)[i] != (a + b)[j]
    {
      if j >= |a| && i < |a| {
        assert (a + b)[i] in a;
        assert (a + b)[j] in b;
      }
    }
  }

  /** A slash ends the current piece. */
  lemma {:induction false} SplitFromSlash(a: string, b: string, piece: string)
    requires '/' !in piece
    ensures SplitFrom(a + "/" + b, piece) == SplitFrom(a, piece) + Split(b)
  {
    var s := a + "/" + b;
    if a == [] {
      assert s[0] == '/' && s[1..] == b;
    } else {
      assert s[0] == a[0] && s[1..] == a[1..] + "/" + b;
      if a[0] == '/' {
        SplitFromSlash(a[1..], b, "");
      } else {
        SplitFromSlash(a[1..], b, piece + [a[0]]);
      }
    }
  }

  /** A slash splits the string exactly at that slash. */
  lemma SplitSlash(a: string, b: string)
    ensures Split(a + "/" + b) == Split(a) + Split(b)
  {
    SplitFromSlash(a, b, "");
  }

  /** Slash-free text only extends the current piece. */
  lemma {:induction false} SplitFromNoSlash(x: string, piece: string)
    requires '/' !in piece && '/' !in x
    ensures SplitFrom(x, piece) == [piece + x]
  {
    if x != [] {
      assert x[0] in x && x[0] != '/';
      assert '/' !in piece + [x[0]];
      SplitFromNoSlash(x[1..], piece + [x[0]]);
      assert piece + [x[0]] + x[1..] == piece + x;
    } else {
      assert piece + x == piece;
    }
  }

  /** A string without a slash is a single piece. */
  lemma SplitNoSlash(x: string)
    requires '/' !in x
    ensures Split(x) == [x]
  {
    SplitFromNoSlash(x, "");
    assert "" + x == x;
  }

  lemma {:induction false} SplitFromAppend(a: string, x: string, piece: string)
    requires '/' !in piece && '/' !in x
    ensures var p := SplitFrom(a, piece);
      SplitFrom(a + x, piece) == p[..|p| - 1] + [Last(p) + x]
  {
    if a == [] {
      SplitFromNoSlash(x, piece);
      assert a + x == x;
    } else {
      assert (a + x)[0] == a[0] && (a + x)[1..] == a[1..] + x;
      if a[0] == '/' {
        SplitFromAppend(a[1..], x, "");
        var q := SplitFrom(a[1..], "");
        assert ([piece] + q)[..|q|] == [piece] + q[..|q| - 1];
      } else {
        SplitFromAppend(a[1..], x, piece + [a[0]]);
      }
    }
  }

  /** Appending slash-free text only extends the last piece. */
  lemma SplitAppend(a: string, x: string)
    requires '/' !in x
    ensures var p := Split(a);
      Split(a + x) == p[..|p| - 1] + [Last(p) + x]
  {
    SplitFromAppend(a, x, "");
  }

  /** Joining slash-free pieces and splitting again gives the pieces back. */
  lemma {:induction false} SplitJoin(parts: seq<string>)
    requires |parts| >= 1 && NoSlash(parts)
    ensures Split(SlashJoin(parts)) == parts
  {
    SplitNoSlash(parts[0]);
    if |parts| > 1 {
      SplitJoin(parts[1..]);
      SplitSlash(parts[0], SlashJoin(parts[1..]));
      assert [parts[0]] + parts[1..] == parts;
    }
  }

  lemma {:induction false} JoinSplitFrom(s: string, piece: string)
    requires '/' !in piece
    ensures SlashJoin(SplitFrom(s, piece)) == piece + s
  {
    if s != [] {
      if s[0] == '/' {
        JoinSplitFrom(s[1..], "");
        var rest := SplitFrom(s[1..], "");
        assert ([piece] + rest)[1..] == rest;
        assert piece + s == piece + "/" + ("" + s[1..]);
      } else {
        JoinSplitFrom(s[1..], piece + [s[0]]);
        assert piece + [s[0]] + s[1..] == piece + s;
      }
    } else {
      assert piece + s == piece;
    }
  }

  /** Splitting and joining again gives the string back: on POSIX,
      `directory.split(path.sep).join(path.posix.sep)` is the identity. */
  lemma JoinSplit(s: string)
    ensures SlashJoin(Split(s)) == s
  {
    JoinSplitFrom(s, "");
    assert "" + s == s;
  }

  lemma {:induction false} SplitFromLastEmpty(s: string, piece: string)
    requires '/' !in piece
    ensures Last(SplitFrom(s, piece)) == "" <==>
      (if s == "" then piece == "" else s[|s| - 1] == '/')
  {
    if s != [] {
      var next := if s[0] == '/' then "" else piece + [s[0]];
      SplitFromLastEmpty(s[1..], next);
      if s[0] == '/' {
        var rest := SplitFrom(s[1..], "");
        assert Last([piece] + rest) == Last(rest);
      }
      if |s| > 1 {
        assert s[1..][|s| - 2] == s[|s| - 1];
      }
    }
  }

  /** The last piece is empty exactly when the string is empty or ends in '/'. */
  lemma SplitLastEmpty(s: string)
    ensures Last(Split(s)) == "" <==> (s == "" || s[|s| - 1] == '/')
  {
    SplitFromLastEmpty(s, "");
  }

  /** Gluing one more piece onto a non-empty list. */
  lemma {:induction false} SlashJoinSnoc(parts: seq<string>, x: string)
    requires |parts| >= 1
    ensures SlashJoin(parts + [x]) == SlashJoin(parts) + "/" + x
  {
    if |parts| > 1 {
      SlashJoinSnoc(parts[1..], x);
      assert (parts + [x])[1..] == parts[1..] + [x];
    }
  }

  /** Gluing a list whose last piece is extended extends the result. */
  lemma SlashJoinExtendLast(parts: seq<string>, x: string, y: string)
    ensures SlashJoin(parts + [x + y]) == SlashJoin(parts + [x]) + y
  {
    if |parts| > 0 {
      SlashJoinSnoc(parts, x + y);
      SlashJoinSnoc(parts, x);
    }
  }

  /** ASCII `toLowerCase` of one character. */
  function LowerChar(c: char): (r: char)
  {
    if 'A' <= c <= 'Z' then (c as int - 'A' as int + 'a' as int) as char else c
  }

  /** `s.toLowerCase()` on ASCII letters; every other character is kept. */
  function Lower(s: string): (r: string)
    ensures |r| == |s|
    ensures forall i :: 0 <= i < |s| ==> r[i] == LowerChar(s[i])
  {
    seq(|s|, i requires 0 <= i < |s| => LowerChar(s[i]))
  }

  predicate HasNoUpper(s: string)
  {
    forall i :: 0 <= i < |s| ==> !('A' <= s[i] <= 'Z')
  }

  /** Lower-casing leaves no upper-case letter and is idempotent. */
  lemma LowerIsLower(s: string)
    ensures HasNoUpper(Lower(s))
    ensures Lower(Lower(s)) == Lower(s)
  {
  }
}
