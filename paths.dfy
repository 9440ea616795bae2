/**
  POSIX path strings as Python's `posixpath` treats them: `join`, `normpath`,
  `realpath` (without symbolic links) and `str.startswith`.  Paths are strings;
  a path is split into segments at every '/'.
*/
module Paths {

  /** The POSIX path separator. */
  const Sep: char := '/'

  /** `posixpath.isabs`: the path starts with a separator. */
  predicate IsAbsolute(p: string) {
    |p| > 0 && p[0] == Sep
  }

  /** `str.startswith`: a plain character prefix, with no separator boundary. */
  predicate StartsWith(s: string, prefix: string): (b: bool)
    ensures b <==> |prefix| <= |s| && s[..|prefix|] == prefix
  {
    prefix <= s
  }

  /** `p.split('/')`: the pieces between separators, empty pieces included. */
  function Split(p: string): (parts: seq<string>)
    ensures |parts| >= 1
    ensures forall i :: 0 <= i < |parts| ==> Sep !in parts[i]
    decreases |p|
  {
    if p == [] then [[]]
    else if p[0] == Sep then [[]] + Split(p[1..])
    else
      var rest := Split(p[1..]);
      [[p[0]] + rest[0]] + rest[1..]
  }

  /** `'/'.join(parts)`. */
  function JoinSegs(parts: seq<string>): string
  {
    if |parts| == 0 then []
    else if |parts| == 1 then parts[0]
    else parts[0] + [Sep] + JoinSegs(parts[1..])
  }

  /**
    `posixpath.join(a, b)`: an absolute `b` replaces `a`; otherwise a separator
    is put between them unless `a` is empty or already ends with one.
  */
  function Join(a: string, b: string): (r: string)
    ensures IsAbsolute(b) ==> r == b
    ensures !IsAbsolute(b) ==> a <= r && |b| <= |r| && r[|r| - |b|..] == b
    ensures !IsAbsolute(b) ==> (|r| == |a| + |b| + 1 <==> a != [] && a[|a| - 1] != Sep)
    ensures !IsAbsolute(b) && |r| == |a| + |b| + 1 ==> r[|a|] == Sep
    ensures !IsAbsolute(b) && |r| != |a| + |b| + 1 ==> |r| == |a| + |b|
  {
    if IsAbsolute(b) then b
    else if a == [] || a[|a| - 1] == Sep then a + b
    else a + [Sep] + b
  }

  /** Segments left by normalisation: none empty, none `.` or `..`, none holding a separator. */
  predicate Clean(parts: seq<string>) {
    forall i :: 0 <= i < |parts| ==>
      parts[i] != [] && parts[i] != "." && parts[i] != ".." && Sep !in parts[i]
  }

  /** The path named by segments that are Clean, written with one leading separator. */
  function Rooted(parts: seq<string>): string {
    [Sep] + JoinSegs(parts)
  }

  /**
    One turn of the loop in `posixpath.normpath`: empty and `.` pieces are
    dropped; `..` is kept when nothing can be cancelled (a relative path with no
    segment yet, or after another kept `..`), removes the last segment when there
    is one, and is dropped at the root.
  */
  function Step(acc: seq<string>, comp: string, rooted: bool): seq<string>
  {
    if comp == [] || comp == "." then acc
    else if comp != ".." || (!rooted && acc == []) || (acc != [] && acc[|acc| - 1] == "..") then acc + [comp]
    else if acc != [] then acc[..|acc| - 1]
    else acc
  }

  /** The normalisation loop of `posixpath.normpath` over all pieces, from left to right. */
  function Collapse(comps: seq<string>, acc: seq<string>, rooted: bool): seq<string>
    decreases |comps|
  {
    if comps == [] then acc
    else Collapse(comps[1..], Step(acc, comps[0], rooted), rooted)
  }

  /**
    `posixpath.normpath`: one leading separator is kept as one, exactly two are
    kept as two, three or more become one; an empty result is ".".
  */
  function NormPath(p: string): (r: string)
    ensures r != []
    ensures IsAbsolute(r) <==> IsAbsolute(p)
  {
    if p == [] then "."
    else
      var slashes := if StartsWith(p, "//") && !StartsWith(p, "///") then "//"
                     else if StartsWith(p, "/") then "/"
                     else "";
      var segs := Collapse(Split(p), [], slashes != "");
      CollapsePieces(Split(p), [], slashes != "");
      JoinSegsHead(segs);
      var body := slashes + JoinSegs(segs);
      if body == [] then "." else body
  }

  /** The segments of a path read as a rooted path: `..` at the root stays at the root. */
  function Resolve(p: string): (parts: seq<string>)
    ensures Clean(parts)
  {
    CollapseRootedClean(Split(p), []);
    Collapse(Split(p), [], true)
  }

  /**
    `posixpath.realpath(p)` in a directory `cwd`, symbolic links aside: a
    relative path is first joined onto the working directory, and the result
    always has exactly one leading separator.
  */
  function RealPath(p: string, cwd: string): (r: string)
    ensures IsAbsolute(r) && NormPath(r) == r
  {
    var parts := Resolve(Join(cwd, p));
    NormPathRooted(parts);
    [Sep] + JoinSegs(parts)
  }

  /** The pieces that the normalisation loop keeps when no `..` occurs. */
  function Kept(comps: seq<string>): (r: seq<string>)
    ensures forall i :: 0 <= i < |r| ==> r[i] != [] && r[i] != "." && r[i] in comps
  {
    if comps == [] then []
    else if comps[0] == [] || comps[0] == "." then Kept(comps[1..])
    else [comps[0]] + Kept(comps[1..])
  }

  // ---------------------------------------------------------------------
  // split and join are inverse to each other

  lemma {:induction false} SplitNoSep(s: string)
    requires Sep !in s
    ensures Split(s) == [s]
    decreases |s|
  {
    if s != [] {
      assert s[0] in s;
      SplitNoSep(s[1..]);
      assert [s[0]] + s[1..] == s;
    }
  }

  /** Splitting at a separator splits the two sides independently. */
  lemma {:induction false} SplitAtSep(a: string, b: string)
    ensures Split(a + [Sep] + b) == Split(a) + Split(b)
    decreases |a|
  {
    if a == [] {
      assert a + [Sep] + b == [Sep] + b;
      assert ([Sep] + b)[1..] == b;
    } else {
      var s := a + [Sep] + b;
      assert s[0] == a[0];
      assert s[1..] == a[1..] + [Sep] + b;
      SplitAtSep(a[1..], b);
    }
  }

  /** `'/'.join(parts).split('/') == parts` when no part holds a separator. */
  lemma {:induction false} SplitJoin(parts: seq<string>)
    requires |parts| >= 1
    requires forall i :: 0 <= i < |parts| ==> Sep !in parts[i]
    ensures Split(JoinSegs(parts)) == parts
    decreases |parts|
  {
    if |parts| == 1 {
      SplitNoSep(parts[0]);
    } else {
      SplitAtSep(parts[0], JoinSegs(parts[1..]));
      SplitNoSep(parts[0]);
      SplitJoin(parts[1..]);
    }
  }

  lemma {:induction false} JoinSegsAppend(xs: seq<string>, ys: seq<string>)
    requires |xs| >= 1 && |ys| >= 1
    ensures JoinSegs(xs + ys) == JoinSegs(xs) + [Sep] + JoinSegs(ys)
    decreases |xs|
  {
    if |xs| > 1 {
      assert (xs + ys)[1..] == xs[1..] + ys;
      JoinSegsAppend(xs[1..], ys);
    } else {
      assert (xs + ys)[1..] == ys;
    }
  }

  /** A path built from Clean segments never ends with a separator. */
  lemma {:induction false} JoinSegsLast(parts: seq<string>)
    requires |parts| >= 1 && Clean(parts)
    ensures |JoinSegs(parts)| > 0 && JoinSegs(parts)[|JoinSegs(parts)| - 1] != Sep
    decreases |parts|
  {
    if |parts| > 1 {
      JoinSegsLast(parts[1..]);
    } else {
      assert parts[0][|parts[0]| - 1] in parts[0];
    }
  }

  /** A path built from Clean segments starts with its first segment. */
  lemma JoinSegsFirst(parts: seq<string>)
    requires |parts| >= 1 && Clean(parts)
    ensures |JoinSegs(parts)| > 0 && JoinSegs(parts)[0] == parts[0][0] && JoinSegs(parts)[0] != Sep
  {
    assert parts[0][0] in parts[0];
  }

  // ---------------------------------------------------------------------
  // the normalisation loop

  lemma {:induction false} CollapseAppend(xs: seq<string>, ys: seq<string>, acc: seq<string>, rooted: bool)
    ensures Collapse(xs + ys, acc, rooted) == Collapse(ys, Collapse(xs, acc, rooted), rooted)
    decreases |xs|
  {
    if xs != [] {
      assert (xs + ys)[0] == xs[0];
      assert (xs + ys)[1..] == xs[1..] + ys;
      CollapseAppend(xs[1..], ys, Step(acc, xs[0], rooted), rooted);
    } else {
      assert xs + ys == ys;
    }
  }

  /** Without `..`, normalisation only drops the empty and `.` pieces. */
  lemma {:induction false} CollapseNoParent(comps: seq<string>, acc: seq<string>, rooted: bool)
    requires forall i :: 0 <= i < |comps| ==> comps[i] != ".."
    ensures Collapse(comps, acc, rooted) == acc + Kept(comps)
    decreases |comps|
  {
    if comps != [] {
      CollapseNoParent(comps[1..], Step(acc, comps[0], rooted), rooted);
    }
  }

  lemma {:induction false} KeptClean(comps: seq<string>)
    requires Clean(comps)
    ensures Kept(comps) == comps
    decreases |comps|
  {
    if comps != [] {
      KeptClean(comps[1..]);
    }
  }

  /** Pieces without separators normalise to non-empty pieces without separators. */
  lemma {:induction false} CollapsePieces(comps: seq<string>, acc: seq<string>, rooted: bool)
    requires forall i :: 0 <= i < |acc| ==> acc[i] != [] && Sep !in acc[i]
    requires forall i :: 0 <= i < |comps| ==> Sep !in comps[i]
    ensures forall i :: 0 <= i < |Collapse(comps, acc, rooted)| ==>
      Collapse(comps, acc, rooted)[i] != [] && Sep !in Collapse(comps, acc, rooted)[i]
    decreases |comps|
  {
    if comps != [] {
      CollapsePieces(comps[1..], Step(acc, comps[0], rooted), rooted);
    }
  }

  /** A path joined from pieces whose first is non-empty and has no separator does not start with one. */
  lemma JoinSegsHead(parts: seq<string>)
    requires forall i :: 0 <= i < |parts| ==> parts[i] != [] && Sep !in parts[i]
    ensures parts != [] ==> JoinSegs(parts) != [] && JoinSegs(parts)[0] != Sep
  {
    if parts != [] {
      assert parts[0][0] in parts[0];
    }
  }

  /** Normalising a rooted path only ever produces Clean segments. */
  lemma {:induction false} CollapseRootedClean(comps: seq<string>, acc: seq<string>)
    requires Clean(acc)
    requires forall i :: 0 <= i < |comps| ==> Sep !in comps[i]
    ensures Clean(Collapse(comps, acc, true))
    decreases |comps|
  {
    if comps != [] {
      var next := Step(acc, comps[0], true);
      assert Clean(next) by {
        if comps[0] == ".." && acc != [] {
          assert acc[|acc| - 1] != "..";
        }
      }
      CollapseRootedClean(comps[1..], next);
    }
  }

  /** Splitting the rooted form of Clean segments gives back the segments after one empty piece. */
  lemma SplitRooted(parts: seq<string>)
    requires Clean(parts)
    ensures Split(Rooted(parts)) == [[]] + (if parts == [] then [[]] else parts)
  {
    assert Rooted(parts) == [] + [Sep] + JoinSegs(parts);
    SplitAtSep([], JoinSegs(parts));
    if parts != [] {
      SplitJoin(parts);
    }
  }

  /** `normpath` leaves a path made of Clean segments as it is. */
  lemma NormPathRooted(parts: seq<string>)
    requires Clean(parts)
    ensures NormPath(Rooted(parts)) == Rooted(parts)
  {
    var p := Rooted(parts);
    SplitRooted(parts);
    if parts != [] {
      JoinSegsFirst(parts);
      assert p[1] == parts[0][0];
      assert !StartsWith(p, "//") && StartsWith(p, "/");
      assert ([[]] + parts)[1..] == parts;
      CollapseNoParent(parts, [], true);
      KeptClean(parts);
      assert Collapse(Split(p), [], true) == parts;
    } else {
      assert p == "/";
      assert !StartsWith(p, "//");
    }
  }

  /** Joining a relative path onto the rooted form of Clean segments appends its pieces. */
  lemma SplitJoinRooted(parts: seq<string>, name: string)
    requires Clean(parts) && !IsAbsolute(name)
    ensures Split(Join(Rooted(parts), name)) == [[]] + parts + Split(name)
  {
    var t := Rooted(parts);
    SplitRooted(parts);
    if parts == [] {
      assert t == "/";
      assert Join(t, name) == [] + [Sep] + name;
      SplitAtSep([], name);
    } else {
      JoinSegsLast(parts);
      assert t[|t| - 1] == JoinSegs(parts)[|JoinSegs(parts)| - 1];
      assert Join(t, name) == t + [Sep] + name;
      SplitAtSep(t, name);
    }
  }
}
