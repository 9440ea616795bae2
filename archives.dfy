/**
  Multi-file archives: `Archive` picks the first of its subclasses (`TarArchive`,
  `ZipArchive`, `SevenZipArchive`) whose library detector accepts the file, and
  `extract` guards extraction with the path test of `check_files`.
*/
module Archives {
  import opened Errors
  import opened Streams
  import opened Formats
  import opened Paths
  import opened Safety

  /** `Archive.__subclasses__()`, in declaration order. */
  const ArchiveCandidates: seq<ArchiveFormat> := [Tar, Zip, SevenZip]

  /**
    `is_archive` of each subclass: `tarfile.is_tarfile` for tar; both zip and
    7z ask `zipfile.is_zipfile`.
  */
  predicate Accepts(f: ArchiveFormat, bytes: seq<byte>, libs: Libraries): (b: bool)
    ensures f == Tar ==> (b <==> libs.isTarfile(bytes))
    ensures f != Tar ==> (b <==> libs.isZipfile(bytes))
  {
    match f
    case Tar => libs.isTarfile(bytes)
    case Zip => libs.isZipfile(bytes)
    case SevenZip => libs.isZipfile(bytes)
  }

  /** The for/else loop of `Archive.__new__`: the first candidate that accepts, if any. */
  function FirstArchive(cands: seq<ArchiveFormat>, bytes: seq<byte>, libs: Libraries): (r: Option<ArchiveFormat>)
    ensures r.Some? ==> r.value in cands && Accepts(r.value, bytes, libs)
    ensures r.None? <==> forall i :: 0 <= i < |cands| ==> !Accepts(cands[i], bytes, libs)
    decreases |cands|
  {
    if cands == [] then None
    else if Accepts(cands[0], bytes, libs) then Some(cands[0])
    else
      var r := FirstArchive(cands[1..], bytes, libs);
      assert forall i :: 1 <= i < |cands| ==> cands[i] == cands[1..][i - 1];
      r
  }

  /** What is picked is accepted, and every candidate before it was refused. */
  lemma {:induction false} FirstArchiveIsFirst(cands: seq<ArchiveFormat>, bytes: seq<byte>, libs: Libraries)
    requires FirstArchive(cands, bytes, libs).Some?
    ensures exists i :: (0 <= i < |cands| && cands[i] == FirstArchive(cands, bytes, libs).value &&
      forall j :: 0 <= j < i ==> !Accepts(cands[j], bytes, libs))
    decreases |cands|
  {
    if !Accepts(cands[0], bytes, libs) {
      var v := FirstArchive(cands, bytes, libs).value;
      FirstArchiveIsFirst(cands[1..], bytes, libs);
      var i :| 0 <= i < |cands[1..]| && cands[1..][i] == v &&
        forall j :: 0 <= j < i ==> !Accepts(cands[1..][j], bytes, libs);
      assert cands[i + 1] == v;
      forall j | 0 <= j < i + 1 ensures !Accepts(cands[j], bytes, libs) {
        if j > 0 { assert cands[j] == cands[1..][j - 1]; }
      }
    } else {
      assert cands[0] == FirstArchive(cands, bytes, libs).value;
    }
  }

  /**
    The whole dispatch: tar whenever `is_tarfile` says so, zip when only
    `is_zipfile` does, and 7z never, because its detector is zip's and zip is
    tried first.
  */
  lemma ArchiveDispatch(bytes: seq<byte>, libs: Libraries)
    ensures FirstArchive(ArchiveCandidates, bytes, libs) == Some(Tar) <==> libs.isTarfile(bytes)
    ensures FirstArchive(ArchiveCandidates, bytes, libs) == Some(Zip) <==> !libs.isTarfile(bytes) && libs.isZipfile(bytes)
    ensures FirstArchive(ArchiveCandidates, bytes, libs) != Some(SevenZip)
    ensures FirstArchive(ArchiveCandidates, bytes, libs) == None <==> !libs.isTarfile(bytes) && !libs.isZipfile(bytes)
  {
    var rest := ArchiveCandidates[1..];
    assert rest == [Zip, SevenZip] && rest[1..] == [SevenZip] && rest[1..][1..] == [];
  }

  /** `Archive.__new__`'s loop over the detectors; `None` stands for `UnrecognizedArchiveFormat`. */
  method DetectArchive(src: Source, libs: Libraries) returns (r: Option<ArchiveFormat>)
    ensures r == FirstArchive(ArchiveCandidates, Visible(src), libs)
  {
    var bytes := Visible(src);
    for i := 0 to |ArchiveCandidates|
      invariant FirstArchive(ArchiveCandidates, bytes, libs) == FirstArchive(ArchiveCandidates[i..], bytes, libs)
    {
      var rest := ArchiveCandidates[i..];
      assert rest[0] == ArchiveCandidates[i] && rest[1..] == ArchiveCandidates[i + 1..];
      if Accepts(ArchiveCandidates[i], bytes, libs) {
        return Some(ArchiveCandidates[i]);
      }
    }
    return None;
  }

  /** What `read_file(name)` hands back: the library's reader for that member. */
  datatype MemberReader = MemberReader(format: ArchiveFormat, name: string)

  /** An instance of `TarArchive`, `ZipArchive` or `SevenZipArchive`. */
  class Archive {
    const format: ArchiveFormat
    /** `filenames()`: the member names the library lists, in archive order. */
    const members: seq<string>
    /** The `to_path` of every `_extract` call so far: `extractall` writes to disk. */
    ghost var extractions: seq<string>

    /** `__init__` of the chosen subclass: the library opens the file. */
    constructor (format: ArchiveFormat, src: Source, libs: Libraries)
      ensures this.format == format
      ensures members == libs.memberNames(format, Visible(src))
      ensures extractions == []
    {
      this.format := format;
      members := libs.memberNames(format, Visible(src));
      extractions := [];
    }

    /**
      `read_file(name)`: the library's reader for the member (`extractfile` for
      tar, `open` for zip and 7z); `None` stands for the `KeyError` both raise
      for a name the archive does not hold.
    */
    function ReadFile(name: string): (r: Option<MemberReader>)
      ensures r.Some? <==> name in members
      ensures r.Some? ==> r.value.format == format && r.value.name == name
    {
      if name in members then Some(MemberReader(format, name)) else None
    }

    /**
      `check_files(to_path=None)`: every member, in order, is joined onto the
      target and normalised; the first whose path does not start with the target
      string raises `UnsafeArchive` naming it.  `cwd` is `os.getcwd()`; the
      default `None` is the empty string here, and both fall back on `cwd`.
    */
    method CheckFiles(cwd: string, toPath: string := "") returns (r: Outcome<Error>)
      ensures r.Pass? <==> forall i :: 0 <= i < |members| ==> IsSafeMember(TargetPath(toPath, cwd), members[i], cwd)
      ensures r.Pass? <==> FirstUnsafe(TargetPath(toPath, cwd), members, cwd) == |members|
      ensures r.Fail? ==> r.error == UnsafeArchive(members[FirstUnsafe(TargetPath(toPath, cwd), members, cwd)])
    {
      var target: string;
      if toPath != [] {
        target := NormPath(RealPath(toPath, cwd));
      } else {
        target := cwd;
      }
      for i := 0 to |members|
        invariant forall j :: 0 <= j < i ==> IsSafeMember(target, members[j], cwd)
      {
        var extractPath := Join(target, members[i]);
        extractPath := NormPath(RealPath(extractPath, cwd));
        if !StartsWith(extractPath, target) {
          FirstUnsafeAt(target, members, cwd, i);
          return Fail(UnsafeArchive(members[i]));
        }
        SafeRunExtends(target, members, cwd, i);
      }
      FirstUnsafeAt(target, members, cwd, |members|);
      return Pass;
    }

    /**
      `extract(to_path='', method='safe')`: `'safe'` runs `check_files` first and extracts
      only when it passes; `'insecure'` extracts at once; any other method raises
      `ValueError` and extracts nothing.
    */
    method Extract(cwd: string, toPath: string := "", mode: string := "safe") returns (r: Outcome<Error>)
      modifies this
      ensures mode == "safe" ==>
        (r.Pass? <==> FirstUnsafe(TargetPath(toPath, cwd), members, cwd) == |members|) &&
        (r.Fail? ==> r.error == UnsafeArchive(members[FirstUnsafe(TargetPath(toPath, cwd), members, cwd)]))
      ensures mode == "insecure" ==> r == Pass
      ensures mode != "safe" && mode != "insecure" ==> r == Fail(InvalidMethodOption)
      ensures extractions == if r.Pass? then old(extractions) + [toPath] else old(extractions)
    {
      if mode == "safe" {
        r := CheckFiles(cwd, toPath);
        if r.Fail? {
          return;
        }
      } else if mode == "insecure" {
        r := Pass;
      } else {
        return Fail(InvalidMethodOption);
      }
      extractions := extractions + [toPath];
    }
  }

  /** `Archive(src)`: `__new__` picks the subclass, then its `__init__` opens the file. */
  method OpenArchive(src: Source, libs: Libraries) returns (r: Result<Archive, Error>)
    ensures r.Failure? <==> FirstArchive(ArchiveCandidates, Visible(src), libs).None?
    ensures r.Failure? ==> r.error == UnrecognizedArchiveFormat
    ensures r.Success? ==> fresh(r.value) && Some(r.value.format) == FirstArchive(ArchiveCandidates, Visible(src), libs)
    ensures r.Success? ==> r.value.members == libs.memberNames(r.value.format, Visible(src)) && r.value.extractions == []
  {
    var found := DetectArchive(src, libs);
    match found
    case None =>
      r := Failure(UnrecognizedArchiveFormat);
    case Some(f) =>
      var a := new Archive(f, src, libs);
      r := Success(a);
  }

  // ---------------------------------------------------------------------
  // extraction outcomes

  /** An archive holding `/etc/passwd`, extracted safely into `/out`, raises `UnsafeArchive` and writes nothing. */
  lemma AbsoluteMemberStopsExtraction(names: seq<string>, i: nat, cwd: string)
    requires i < |names| && names[i] == "/etc/passwd"
    ensures FirstUnsafe(TargetPath("/out", cwd), names, cwd) <= i
  {
    TargetOut(cwd);
    AbsoluteEscapeRejected(cwd);
  }
}
