/**
  `files_in_bundle(file)`: the readable files of a bundle — each member of an
  archive, or else the one decompressed file, or else nothing.
*/
module Bundle {
  import opened Errors
  import opened Streams
  import opened Formats
  import opened Compression
  import opened Archives

  /** The first item of a yielded pair: a member name, or the `file` argument itself. */
  datatype EntryName =
    | MemberName(name: string)
    | WholeSource(src: Source)

  /** The second item: an archive member's reader, or the `CompressedFile`. */
  datatype Reader =
    | FromArchive(member: MemberReader)
    | FromCompressed(file: CompressedFile)

  datatype Entry = Entry(name: EntryName, reader: Reader)

  /** The pair yielded for member `name` of an archive of format `f`. */
  function MemberEntry(f: ArchiveFormat, name: string): Entry {
    Entry(MemberName(name), FromArchive(MemberReader(f, name)))
  }

  /**
    The generator, run to the end: when `Archive(file)` succeeds, one pair per
    name of `filenames()`, in order, and compression is never tried (even for
    an archive without members); when it raises, one pair `(file, f)` if
    `CompressedFile(file)` succeeds; otherwise nothing.
  */
  method FilesInBundle(src: Source, libs: Libraries) returns (entries: seq<Entry>)
    modifies StreamsOf(src)
    ensures old(FirstArchive(ArchiveCandidates, Visible(src), libs)).Some? ==>
      var f := old(FirstArchive(ArchiveCandidates, Visible(src), libs)).value;
      var names := old(libs.memberNames(f, Visible(src)));
      |entries| == |names| &&
      (forall i :: 0 <= i < |names| ==> entries[i] == MemberEntry(f, names[i])) &&
      SourcePos(src) == old(SourcePos(src))
    ensures old(FirstArchive(ArchiveCandidates, Visible(src), libs)).None? ==>
      SourcePos(src) == old(DetectEndOf(src))
    ensures old(FirstArchive(ArchiveCandidates, Visible(src), libs)).None? && old(DetectOf(src)).Some? ==>
      |entries| == 1 && entries[0].name == WholeSource(src) &&
      entries[0].reader.FromCompressed? && Some(entries[0].reader.file.format) == old(DetectOf(src)) &&
      fresh(entries[0].reader.file)
    ensures (old(FirstArchive(ArchiveCandidates, Visible(src), libs)).None? && old(DetectOf(src)).Some? &&
      src.PathSource?) ==>
      var f := entries[0].reader.file;
      fresh(f.file) && f.file.data == libs.decompress(f.format, src.content) && f.file.pos == 0
    ensures (old(FirstArchive(ArchiveCandidates, Visible(src), libs)).None? && old(DetectOf(src)).Some? &&
      src.StreamSource?) ==>
      entries[0].reader.file.file == src.stream
    ensures old(FirstArchive(ArchiveCandidates, Visible(src), libs)).None? && old(DetectOf(src)).None? ==>
      entries == []
  {
    var archive := OpenArchive(src, libs);
    match archive
    case Success(a) =>
      entries := [];
      for i := 0 to |a.members|
        invariant |entries| == i
        invariant forall j :: 0 <= j < i ==> entries[j] == MemberEntry(a.format, a.members[j])
      {
        // every name `filenames()` lists has a reader
        var reader := a.ReadFile(a.members[i]);
        entries := entries + [Entry(MemberName(a.members[i]), FromArchive(reader.value))];
      }
    case Failure(e) =>
      // `except ArchiveException: pass`
      assert IsArchiveException(e);
      var compressed := NewCompressedFile(src, libs);
      match compressed
      case Success(f) =>
        entries := [Entry(WholeSource(src), FromCompressed(f))];
      case Failure(e') =>
        // `except CompressionException: pass`
        assert IsCompressionException(e');
        entries := [];
  }
}
