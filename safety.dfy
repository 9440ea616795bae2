/**
  The path test of `Archive.check_files`: a member is accepted when the
  normalised real path of `join(target, member)` starts with the target string.
*/
module Safety {
  import opened Paths

  /**
    `target_path`: the normalised real path of `to_path`, or the working
    directory as it is when `to_path` is empty (or None).
  */
  function TargetPath(toPath: string, cwd: string): (r: string)
    ensures toPath != [] ==> r == RealPath(toPath, cwd) && IsAbsolute(r) && NormPath(r) == r
    ensures toPath == [] ==> r == cwd
  {
    if toPath != [] then NormPath(RealPath(toPath, cwd)) else cwd
  }

  /** `extract_path`: where the member would be written. */
  function ExtractPath(target: string, name: string, cwd: string): (r: string)
    ensures r == RealPath(Join(target, name), cwd) && IsAbsolute(r) && NormPath(r) == r
    ensures IsAbsolute(name) ==> r == RealPath(name, cwd)
  {
    NormPath(RealPath(Join(target, name), cwd))
  }

  /** The test `check_files` applies to each member: a plain string prefix. */
  predicate IsSafeMember(target: string, name: string, cwd: string): (b: bool)
    ensures IsAbsolute(name) ==> (b <==> StartsWith(RealPath(name, cwd), target))
  {
    StartsWith(ExtractPath(target, name, cwd), target)
  }

  /** The verdict of the test on each member, in archive order. */
  function Verdicts(target: string, names: seq<string>, cwd: string): (ok: seq<bool>)
    ensures |ok| == |names|
    ensures forall j :: 0 <= j < |names| ==> ok[j] == IsSafeMember(target, names[j], cwd)
  {
    seq(|names|, j requires 0 <= j < |names| => IsSafeMember(target, names[j], cwd))
  }

  /** The first false verdict at or after index `i`, or `|ok|` when there is none. */
  function FirstFailing(ok: seq<bool>, i: nat): (k: nat)
    requires i <= |ok|
    ensures i <= k <= |ok|
    ensures forall j :: i <= j < k ==> ok[j]
    ensures k < |ok| ==> !ok[k]
    decreases |ok| - i
  {
    if i == |ok| || !ok[i] then i else FirstFailing(ok, i + 1)
  }

  /** The index of the first member that fails the test, or `|names|` when none does. */
  function FirstUnsafe(target: string, names: seq<string>, cwd: string): (k: nat)
    ensures k <= |names|
    ensures forall j :: 0 <= j < k ==> IsSafeMember(target, names[j], cwd)
    ensures k < |names| ==> !IsSafeMember(target, names[k], cwd)
  {
    FirstFailing(Verdicts(target, names, cwd), 0)
  }

  /** The first failing member is the one after a run of passing ones. */
  lemma FirstUnsafeAt(target: string, names: seq<string>, cwd: string, i: nat)
    requires i <= |names|
    requires forall j :: 0 <= j < i ==> IsSafeMember(target, names[j], cwd)
    requires i < |names| ==> !IsSafeMember(target, names[i], cwd)
    ensures FirstUnsafe(target, names, cwd) == i
  {
    var k := FirstUnsafe(target, names, cwd);
    assert k <= i;
    assert k >= i;
  }

  /** One more passing member extends the run of passing ones. */
  lemma SafeRunExtends(target: string, names: seq<string>, cwd: string, i: nat)
    requires i < |names|
    requires forall j :: 0 <= j < i ==> IsSafeMember(target, names[j], cwd)
    requires StartsWith(ExtractPath(target, names[i], cwd), target)
    ensures forall j :: 0 <= j < i + 1 ==> IsSafeMember(target, names[j], cwd)
  {
  }

  // ---------------------------------------------------------------------
  // what the test computes

  /** The target taken from a non-empty `to_path` is already normal: `normpath` changes nothing. */
  lemma TargetIsRooted(toPath: string, cwd: string)
    requires toPath != []
    ensures TargetPath(toPath, cwd) == Rooted(Resolve(Join(cwd, toPath)))
  {
  }

  /**
    Under a normal target, the member's path is the target's segments with the
    member's pieces normalised onto them; the working directory plays no part.
  */
  lemma ExtractUnderRooted(ts: seq<string>, name: string, cwd: string)
    requires Clean(ts) && !IsAbsolute(name)
    ensures ExtractPath(Rooted(ts), name, cwd) == Rooted(Collapse(Split(name), ts, true))
  {
    var joined := Join(Rooted(ts), name);
    JoinRootedIsAbsolute(ts, name);
    assert ExtractPath(Rooted(ts), name, cwd) == Rooted(Resolve(joined));
    SplitJoinRooted(ts, name);
    CollapseAfterRoot(ts, Split(name));
  }

  lemma JoinRootedIsAbsolute(ts: seq<string>, name: string)
    ensures IsAbsolute(Join(Rooted(ts), name))
  {
  }

  /** Normalising the root's empty piece and normal segments, then more pieces, starts from those segments. */
  lemma CollapseAfterRoot(ts: seq<string>, pieces: seq<string>)
    requires Clean(ts)
    ensures Collapse([[]] + ts + pieces, [], true) == Collapse(pieces, ts, true)
  {
    var comps := [[]] + ts + pieces;
    assert comps[0] == [] && comps[1..] == ts + pieces;
    assert Step([], [], true) == [];
    assert Collapse(comps, [], true) == Collapse(ts + pieces, [], true);
    CollapseAppend(ts, pieces, [], true);
    CollapseNoParent(ts, [], true);
    KeptClean(ts);
    assert Collapse(ts, [], true) == ts;
  }

  /** A `..` right below a single segment cancels it; normal segments after it stay as they are. */
  lemma ParentThenClean(seg: string, rest: seq<string>)
    requires Clean([seg]) && Clean(rest)
    ensures Collapse([".."] + rest, [seg], true) == rest
  {
    var comps := [".."] + rest;
    assert comps[0] == ".." && comps[1..] == rest;
    assert Step([seg], "..", true) == [];
    CollapseNoParent(rest, [], true);
    KeptClean(rest);
  }

  /** A rooted absolute member of normal segments is where it points. */
  lemma AbsoluteCleanMember(target: string, parts: seq<string>, cwd: string)
    requires Clean(parts) && parts != []
    ensures ExtractPath(target, Rooted(parts), cwd) == Rooted(parts)
  {
    AbsoluteMemberIgnoresTarget(target, Rooted(parts), cwd);
    ResolveRooted(parts);
  }

  lemma ResolveRooted(parts: seq<string>)
    requires Clean(parts) && parts != []
    ensures Resolve(Rooted(parts)) == parts
  {
    SplitRooted(parts);
    assert Split(Rooted(parts)) == [[]] + [] + parts;
    CollapseAfterRoot([], parts);
    CollapseNoParent(parts, [], true);
    KeptClean(parts);
  }

  /** An absolute member replaces the target in `join`: only where it points counts. */
  lemma AbsoluteMemberIgnoresTarget(target: string, name: string, cwd: string)
    requires IsAbsolute(name)
    ensures ExtractPath(target, name, cwd) == Rooted(Resolve(name))
  {
  }

  /** A relative member without `..` pieces is always accepted under a normal target. */
  lemma BenignMemberAccepted(ts: seq<string>, name: string, cwd: string)
    requires Clean(ts) && !IsAbsolute(name)
    requires forall i :: 0 <= i < |Split(name)| ==> Split(name)[i] != ".."
    ensures IsSafeMember(Rooted(ts), name, cwd)
  {
    ExtractUnderRooted(ts, name, cwd);
    CollapseNoParent(Split(name), ts, true);
    RootedExtends(ts, Kept(Split(name)));
  }

  /** An archive whose members are all relative and free of `..` passes the whole check. */
  lemma BenignArchiveAccepted(ts: seq<string>, names: seq<string>, cwd: string)
    requires Clean(ts)
    requires forall k :: 0 <= k < |names| ==> !IsAbsolute(names[k])
    requires forall k, i :: 0 <= k < |names| && 0 <= i < |Split(names[k])| ==> Split(names[k])[i] != ".."
    ensures FirstUnsafe(Rooted(ts), names, cwd) == |names|
  {
    forall k | 0 <= k < |names| ensures IsSafeMember(Rooted(ts), names[k], cwd) {
      BenignMemberAccepted(ts, names[k], cwd);
    }
    FirstUnsafeAt(Rooted(ts), names, cwd, |names|);
  }

  /** A path extended by more segments starts with the path. */
  lemma RootedExtends(ts: seq<string>, more: seq<string>)
    ensures StartsWith(Rooted(ts + more), Rooted(ts))
  {
    var t, r := Rooted(ts), Rooted(ts + more);
    if more == [] {
      assert ts + more == ts;
    } else if ts == [] {
      assert t == [Sep];
      assert ts + more == more;
      assert r[..1] == t;
    } else {
      JoinSegsAppend(ts, more);
      assert r == t + [Sep] + JoinSegs(more);
    }
  }

  /** The member `..` names the target's parent, which is shorter than the target: rejected. */
  lemma ParentMemberRejected(ts: seq<string>, cwd: string)
    requires Clean(ts) && ts != []
    ensures !IsSafeMember(Rooted(ts), "..", cwd)
  {
    var n := |ts|;
    ParentPath(ts, cwd);
    if n > 1 {
      JoinSegsAppend(ts[..n - 1], [ts[n - 1]]);
      assert ts[..n - 1] + [ts[n - 1]] == ts;
    }
    assert |JoinSegs(ts[..n - 1])| < |JoinSegs(ts)|;
  }

  /** The member `..` lands in the target's parent directory. */
  lemma ParentPath(ts: seq<string>, cwd: string)
    requires Clean(ts) && ts != []
    ensures ExtractPath(Rooted(ts), "..", cwd) == Rooted(ts[..|ts| - 1])
  {
    ExtractUnderRooted(ts, "..", cwd);
    SplitNoSep("..");
    assert ts[|ts| - 1] != "..";
    assert Collapse([".."], ts, true) == Collapse([], Step(ts, "..", true), true);
  }

  // ---------------------------------------------------------------------
  // what the prefix test guarantees, for every member

  /** The segments a member lands at under a normal target: `join` keeps an absolute member alone. */
  function Landing(ts: seq<string>, name: string): (rs: seq<string>)
    requires Clean(ts)
    ensures Clean(rs)
  {
    if IsAbsolute(name) then Resolve(name)
    else
      CollapseRootedClean(Split(name), ts);
      Collapse(Split(name), ts, true)
  }

  /** Under a normal target every member's path is the rooted form of its landing segments. */
  lemma LandingPath(ts: seq<string>, name: string, cwd: string)
    requires Clean(ts)
    ensures ExtractPath(Rooted(ts), name, cwd) == Rooted(Landing(ts, name))
  {
    if IsAbsolute(name) {
      AbsoluteMemberIgnoresTarget(Rooted(ts), name, cwd);
    } else {
      ExtractUnderRooted(ts, name, cwd);
    }
  }

  /**
    A normal path that starts with a normal target string lies within the
    target's parent directory: all target segments but the last are its own.
  */
  lemma PrefixSegs(ts: seq<string>, rs: seq<string>)
    requires Clean(ts) && Clean(rs) && ts != []
    requires StartsWith(Rooted(rs), Rooted(ts))
    ensures ts[..|ts| - 1] <= rs
  {
    var n := |ts|;
    var p := ts[..n - 1];
    if p != [] {
      assert Clean(p);
      assert p + [ts[n - 1]] == ts;
      JoinSegsAppend(p, [ts[n - 1]]);
      var t := Rooted(p);
      assert Rooted(ts) == t + [Sep] + ts[n - 1];
      assert t + [Sep] <= Rooted(ts);
      JoinSegsLast(p);
      assert t[|t| - 1] != Sep;
      assert IsWithin(t, Rooted(rs));
      WithinIsDescendant(p, rs);
    }
  }

  /**
    An accepted member never leaves the target's parent directory (the sibling
    case shows it may leave the target).
  */
  lemma AcceptedStaysInParent(ts: seq<string>, name: string, cwd: string)
    requires Clean(ts) && ts != []
    requires IsSafeMember(Rooted(ts), name, cwd)
    ensures ts[..|ts| - 1] <= Landing(ts, name)
  {
    LandingPath(ts, name, cwd);
    PrefixSegs(ts, Landing(ts, name));
  }

  /** The rooted form of a proper prefix of segments is a shorter string. */
  lemma RootedShorter(rs: seq<string>, ts: seq<string>)
    requires Clean(ts) && rs < ts
    ensures |Rooted(rs)| < |Rooted(ts)|
  {
    var u := ts[|rs|..];
    assert ts == rs + u && u != [];
    if rs == [] {
      JoinSegsFirst(ts);
    } else {
      JoinSegsAppend(rs, u);
    }
  }

  /** What precedes segment `|p|` of a rooted path whose first segments are `p`. */
  function Lead(p: seq<string>): string {
    if p == [] then [Sep] else Rooted(p) + [Sep]
  }

  /** What follows a segment of a rooted path when the segments `q` come after it. */
  function Trail(q: seq<string>): string {
    if q == [] then [] else [Sep] + JoinSegs(q)
  }

  /** The segments `[x] + q` joined: `x`, then the rest behind a separator. */
  lemma JoinSegsCons(x: string, q: seq<string>)
    ensures JoinSegs([x] + q) == x + Trail(q)
  {
    if q != [] {
      assert ([x] + q)[1..] == q;
    }
  }

  /** A rooted path read around its segment `k`. */
  lemma RootedAround(rs: seq<string>, k: nat)
    requires k < |rs|
    ensures Rooted(rs) == Lead(rs[..k]) + rs[k] + Trail(rs[k + 1..])
  {
    var p, q := rs[..k], rs[k + 1..];
    var mq := [rs[k]] + q;
    JoinSegsCons(rs[k], q);
    if p == [] {
      assert rs == mq;
    } else {
      assert rs == p + mq;
      JoinSegsAppend(p, mq);
      assert JoinSegs(rs) == JoinSegs(p) + [Sep] + (rs[k] + Trail(q));
    }
  }

  /** A name without separators starts a name followed by a separator or by nothing only by starting the name. */
  lemma NoSepPrefix(a: string, b: string, tail: string)
    requires Sep !in a
    requires tail == [] || tail[0] == Sep
    ensures a <= b + tail <==> a <= b
  {
    if |a| <= |b| {
      assert (b + tail)[..|a|] == b[..|a|];
    } else if |a| <= |b| + |tail| {
      assert a[|b|] in a;
      assert (b + tail)[|b|] == Sep;
    }
  }

  /** A common leading part does not change which string starts which. */
  lemma CommonLead(lead: string, a: string, c: string)
    ensures lead + a <= lead + c <==> a <= c
  {
    if lead + a <= lead + c {
      assert a == (lead + a)[|lead|..] == (lead + c)[|lead|..|lead| + |a|] == c[..|a|];
    }
  }

  /**
    The prefix test on normal paths, exactly: a path starts with a target string
    when it keeps every target segment but the last, reaches the target's depth,
    and its segment there begins with the target's last segment.
  */
  lemma PrefixIff(ts: seq<string>, rs: seq<string>)
    requires Clean(ts) && Clean(rs) && ts != []
    ensures StartsWith(Rooted(rs), Rooted(ts)) <==>
      ts[..|ts| - 1] <= rs && |rs| >= |ts| && StartsWith(rs[|ts| - 1], ts[|ts| - 1])
  {
    if ts[..|ts| - 1] <= rs && |rs| >= |ts| {
      PrefixAtDepth(ts, rs);
    } else {
      PrefixTooShallow(ts, rs);
    }
  }

  /** Down to the target's depth along its parent, the test compares the last segments. */
  lemma PrefixAtDepth(ts: seq<string>, rs: seq<string>)
    requires Clean(ts) && Clean(rs) && ts != []
    requires ts[..|ts| - 1] <= rs && |rs| >= |ts|
    ensures StartsWith(Rooted(rs), Rooted(ts)) <==> StartsWith(rs[|ts| - 1], ts[|ts| - 1])
  {
    var n := |ts|;
    AroundTarget(ts);
    AroundPath(ts, rs);
    PrefixPieces(Rooted(ts), Rooted(rs), Lead(ts[..n - 1]), ts[n - 1], rs[n - 1], Trail(rs[n..]));
  }

  /** A target read as its parent's lead and its last segment. */
  lemma AroundTarget(ts: seq<string>)
    requires Clean(ts) && ts != []
    ensures Rooted(ts) == Lead(ts[..|ts| - 1]) + ts[|ts| - 1]
    ensures Sep !in ts[|ts| - 1]
  {
    RootedAround(ts, |ts| - 1);
  }

  /** A path along the target's parent, read around the segment at the target's depth. */
  lemma AroundPath(ts: seq<string>, rs: seq<string>)
    requires ts != [] && ts[..|ts| - 1] <= rs && |rs| >= |ts|
    ensures Rooted(rs) == Lead(ts[..|ts| - 1]) + (rs[|ts| - 1] + Trail(rs[|ts|..]))
    ensures Trail(rs[|ts|..]) == [] || Trail(rs[|ts|..])[0] == Sep
  {
    RootedAround(rs, |ts| - 1);
    assert rs[..|ts| - 1] == ts[..|ts| - 1];
  }

  /** The string step of the test: after a common lead, a separator-free name against a name and its tail. */
  lemma PrefixPieces(t: string, r: string, lead: string, a: string, b: string, tail: string)
    requires t == lead + a && r == lead + (b + tail)
    requires Sep !in a && (tail == [] || tail[0] == Sep)
    ensures StartsWith(r, t) <==> StartsWith(b, a)
  {
    CommonLead(lead, a, b + tail);
    NoSepPrefix(a, b, tail);
  }

  /** A path that leaves the target's parent, or stops above the target's depth, fails the test. */
  lemma PrefixTooShallow(ts: seq<string>, rs: seq<string>)
    requires Clean(ts) && Clean(rs) && ts != []
    requires !(ts[..|ts| - 1] <= rs && |rs| >= |ts|)
    ensures !StartsWith(Rooted(rs), Rooted(ts))
  {
    if StartsWith(Rooted(rs), Rooted(ts)) {
      PrefixSegs(ts, rs);
      assert rs == ts[..|ts| - 1];
      RootedShorter(rs, ts);
      assert false;
    }
  }

  /**
    Which members the bare prefix test accepts, for every member and every
    normal target below the root: those that land in the target's parent
    directory, at least as deep as the target, on a segment that begins with the
    target's name.  So it accepts the target and what lies below it, and also a
    sibling whose name extends the target's; it rejects everything else.
  */
  lemma PrefixTestIff(ts: seq<string>, name: string, cwd: string)
    requires Clean(ts) && ts != []
    ensures IsSafeMember(Rooted(ts), name, cwd) <==>
      ts[..|ts| - 1] <= Landing(ts, name) && |Landing(ts, name)| >= |ts| &&
      StartsWith(Landing(ts, name)[|ts| - 1], ts[|ts| - 1])
  {
    LandingPath(ts, name, cwd);
    PrefixIff(ts, Landing(ts, name));
  }

  /** A member landing at the target's parent or any other ancestor is rejected. */
  lemma AncestorRejected(ts: seq<string>, name: string, cwd: string)
    requires Clean(ts)
    requires Landing(ts, name) < ts
    ensures !IsSafeMember(Rooted(ts), name, cwd)
  {
    LandingPath(ts, name, cwd);
    RootedShorter(Landing(ts, name), ts);
  }

  // ---------------------------------------------------------------------
  // the cases of the test suite, and one it does not have

  lemma SplitEscape()
    ensures Split("../escape.txt") == ["..", "escape.txt"]
  {
    var parts := ["..", "escape.txt"];
    assert JoinSegs(parts) == "../escape.txt";
    SplitJoin(parts);
  }

  lemma SplitSibling()
    ensures Split("../out2/evil") == ["..", "out2", "evil"]
  {
    var parts := ["..", "out2", "evil"];
    assert JoinSegs(parts) == "../out2/evil";
    SplitJoin(parts);
  }

  lemma CleanNames()
    ensures Clean(["out"]) && Clean(["escape.txt"]) && Clean(["out2", "evil"])
  {
  }

  /** The target `/out` of the cases below. */
  function Out(): string {
    Rooted(["out"])
  }

  /** `to_path` `/out` names the target `/out`, wherever the working directory is. */
  lemma TargetOut(cwd: string)
    ensures TargetPath("/out", cwd) == Out()
  {
    assert Out() == "/out";
    TargetIsRooted(Out(), cwd);
    assert Join(cwd, Out()) == Out();
    ResolveRooted(["out"]);
  }

  lemma PasswdIsRooted()
    ensures Rooted(["etc", "passwd"]) == "/etc/passwd"
  {
  }

  /** `/etc/passwd` is rejected for the target `/out`: `join` discards the target. */
  lemma AbsoluteEscapeRejected(cwd: string)
    ensures ExtractPath(Out(), "/etc/passwd", cwd) == Rooted(["etc", "passwd"])
    ensures !IsSafeMember(Out(), "/etc/passwd", cwd)
  {
    AbsoluteCleanMember(Out(), ["etc", "passwd"], cwd);
    PasswdIsRooted();
    assert Rooted(["etc", "passwd"])[1] != Out()[1];
  }

  lemma EscapePath(cwd: string)
    ensures ExtractPath(Out(), "../escape.txt", cwd) == Rooted(["escape.txt"])
  {
    ExtractUnderRooted(["out"], "../escape.txt", cwd);
    SplitEscape();
    CleanNames();
    ParentThenClean("out", ["escape.txt"]);
  }

  /** `../escape.txt` is rejected for the target `/out`: it lands in `/escape.txt`. */
  lemma RelativeEscapeRejected(cwd: string)
    ensures ExtractPath(Out(), "../escape.txt", cwd) == Rooted(["escape.txt"])
    ensures !IsSafeMember(Out(), "../escape.txt", cwd)
  {
    EscapePath(cwd);
    assert Rooted(["escape.txt"])[1] != Out()[1];
  }

  /**
    `../out2/evil` is accepted for the target `/out`: it lands in the sibling
    directory `/out2`, whose name merely begins with the target's.
  */
  lemma SiblingDirectoryAccepted(cwd: string)
    ensures ExtractPath(Out(), "../out2/evil", cwd) == Rooted(["out2", "evil"])
    ensures IsSafeMember(Out(), "../out2/evil", cwd)
    ensures !IsWithin(Out(), ExtractPath(Out(), "../out2/evil", cwd))
  {
    SiblingPath(cwd);
    SiblingStartsWithOut();
    SiblingNotWithin();
  }

  lemma SiblingNotWithin()
    ensures !IsWithin(Out(), Rooted(["out2", "evil"]))
  {
    WithinIffDescendant(["out"], ["out2", "evil"]);
    assert ["out"][0] != ["out2", "evil"][0];
  }

  lemma SiblingPath(cwd: string)
    ensures ExtractPath(Out(), "../out2/evil", cwd) == Rooted(["out2", "evil"])
  {
    ExtractUnderRooted(["out"], "../out2/evil", cwd);
    SplitSibling();
    CleanNames();
    ParentThenClean("out", ["out2", "evil"]);
  }

  lemma SiblingStartsWithOut()
    ensures StartsWith(Rooted(["out2", "evil"]), Out())
  {
    var r := Rooted(["out2", "evil"]);
    assert r == [Sep] + "out2" + [Sep] + "evil";
    assert r[..4] == Out();
  }

  // ---------------------------------------------------------------------
  // the test with a separator boundary

  /** Being the target itself or lying below it: a prefix that ends at a separator. */
  predicate IsWithin(target: string, path: string) {
    path == target ||
    StartsWith(path, if target != [] && target[|target| - 1] == Sep then target else target + [Sep])
  }

  /** The member test with a separator boundary. */
  predicate IsContainedMember(target: string, name: string, cwd: string) {
    IsWithin(target, ExtractPath(target, name, cwd))
  }

  /** Between normal paths, IsWithin holds exactly when the segments of one extend the other's. */
  lemma WithinIffDescendant(ts: seq<string>, rs: seq<string>)
    requires Clean(ts) && Clean(rs)
    ensures IsWithin(Rooted(ts), Rooted(rs)) <==> ts <= rs
  {
    if ts == [] {
      assert Rooted(ts) == [Sep];
      assert Rooted(rs)[..1] == [Sep];
    } else {
      if ts <= rs {
        DescendantIsWithin(ts, rs);
      }
      if IsWithin(Rooted(ts), Rooted(rs)) {
        WithinIsDescendant(ts, rs);
      }
    }
  }

  lemma DescendantIsWithin(ts: seq<string>, rs: seq<string>)
    requires Clean(ts) && Clean(rs) && ts != [] && ts <= rs
    ensures IsWithin(Rooted(ts), Rooted(rs))
  {
    var t, r := Rooted(ts), Rooted(rs);
    JoinSegsLast(ts);
    assert t[|t| - 1] != Sep;
    var u := rs[|ts|..];
    assert rs == ts + u;
    if u != [] {
      JoinSegsAppend(ts, u);
      assert r == t + [Sep] + JoinSegs(u);
      assert r[..|t| + 1] == t + [Sep];
    } else {
      assert rs == ts;
    }
  }

  lemma WithinIsDescendant(ts: seq<string>, rs: seq<string>)
    requires Clean(ts) && Clean(rs) && ts != []
    requires IsWithin(Rooted(ts), Rooted(rs))
    ensures ts <= rs
  {
    var t, r := Rooted(ts), Rooted(rs);
    var i, j := JoinSegs(ts), JoinSegs(rs);
    JoinSegsLast(ts);
    JoinSegsFirst(ts);
    SplitJoin(ts);
    assert t[|t| - 1] != Sep;
    assert j == r[1..] && i == t[1..];
    if r == t {
      assert j == i;
      assert rs != [];
      SplitJoin(rs);
    } else {
      assert t + [Sep] <= r;
      var k := |i| + 1;
      assert j[..k] == i + [Sep];
      var u := j[k..];
      assert j == i + [Sep] + u;
      assert rs != [];
      SplitAtSep(i, u);
      SplitJoin(rs);
      assert rs == ts + Split(u);
    }
  }

  /** The boundary test only ever rejects more than the prefix test. */
  lemma ContainedIsSafe(target: string, name: string, cwd: string)
    requires IsContainedMember(target, name, cwd)
    ensures IsSafeMember(target, name, cwd)
  {
  }

  /** A member below a normal target passes the boundary test exactly when its segments extend the target's. */
  lemma ContainedIffBelow(ts: seq<string>, name: string, cwd: string)
    requires Clean(ts) && !IsAbsolute(name)
    ensures IsContainedMember(Rooted(ts), name, cwd) <==> ts <= Collapse(Split(name), ts, true)
  {
    ExtractUnderRooted(ts, name, cwd);
    CollapseRootedClean(Split(name), ts);
    WithinIffDescendant(ts, Collapse(Split(name), ts, true));
  }
}
