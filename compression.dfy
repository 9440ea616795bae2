/**
  Single-file compression: `CompressedFile` picks the first of its subclasses
  (`BzFile`, then `GzFile`) whose magic bytes the file starts with, reading the
  signature with `is_compressed`.
*/
module Compression {
  import opened Errors
  import opened Streams
  import opened Formats

  /** `BzFile.MAGIC_BYTES`, b'BZh'. */
  const BzMagic: seq<byte> := [0x42, 0x5A, 0x68]

  /** `GzFile.MAGIC_BYTES`, b'\x1f\x8b'. */
  const GzMagic: seq<byte> := [0x1F, 0x8B]

  function Magic(c: CompressionFormat): seq<byte> {
    match c
    case Bzip2 => BzMagic
    case Gzip => GzMagic
  }

  /** `CompressedFile.__subclasses__()`, in declaration order. */
  const Candidates: seq<CompressionFormat> := [Bzip2, Gzip]

  /**
    `is_compressed` of a stream at `pos`: the `len(MAGIC_BYTES)` bytes read
    equal the magic, so a stream with fewer bytes left never matches.
  */
  predicate MatchesAt(c: CompressionFormat, data: seq<byte>, pos: nat): (b: bool)
    ensures b <==> pos + |Magic(c)| <= |data| && data[pos..pos + |Magic(c)|] == Magic(c)
  {
    Chunk(data, pos, |Magic(c)|) == Magic(c)
  }

  /** Where the stream is after `is_compressed` has read its header. */
  function ProbeEnd(c: CompressionFormat, data: seq<byte>, pos: nat): nat {
    pos + |Chunk(data, pos, |Magic(c)|)|
  }

  /**
    The loop of `CompressedFile.__new__`: the first candidate whose probe
    succeeds.  With `rewinds` every probe starts at `pos` (a path is opened
    afresh for each probe); otherwise each failed probe leaves the stream after
    the bytes it read, where the next probe starts.
  */
  function Detect(cands: seq<CompressionFormat>, data: seq<byte>, pos: nat, rewinds: bool): (r: Option<CompressionFormat>)
    ensures r.Some? ==> r.value in cands
    ensures rewinds && r.Some? ==> MatchesAt(r.value, data, pos)
    ensures cands == [] ==> r.None?
    decreases |cands|
  {
    if cands == [] then None
    else if MatchesAt(cands[0], data, pos) then Some(cands[0])
    else Detect(cands[1..], data, if rewinds then pos else ProbeEnd(cands[0], data, pos), rewinds)
  }

  /** The stream position after the loop of `CompressedFile.__new__` (for a stream). */
  function DetectEnd(cands: seq<CompressionFormat>, data: seq<byte>, pos: nat, rewinds: bool): nat
    decreases |cands|
  {
    if cands == [] then pos
    else if MatchesAt(cands[0], data, pos) then (if rewinds then pos else ProbeEnd(cands[0], data, pos))
    else DetectEnd(cands[1..], data, if rewinds then pos else ProbeEnd(cands[0], data, pos), rewinds)
  }

  /** The bytes of the source: the file's for a path, the stream's for a file object. */
  function SourceData(src: Source): seq<byte> {
    match src
    case PathSource(_, content) => content
    case StreamSource(s) => s.data
  }

  /** Where a probe of the source starts reading: 0 for a path. */
  function SourcePos(src: Source): nat
    reads StreamsOf(src)
  {
    match src
    case PathSource(_, _) => 0
    case StreamSource(s) => s.pos
  }

  /** The subclass `CompressedFile(src)` picks, if any. */
  function DetectOf(src: Source): Option<CompressionFormat>
    reads StreamsOf(src)
  {
    Detect(Candidates, SourceData(src), SourcePos(src), src.PathSource?)
  }

  function DetectEndOf(src: Source): nat
    reads StreamsOf(src)
  {
    DetectEnd(Candidates, SourceData(src), SourcePos(src), src.PathSource?)
  }

  /**
    `CompressedFile.is_compressed`: a path is opened afresh and read from its
    start; a file object is read from where it is and is not rewound.
  */
  method IsCompressed(c: CompressionFormat, src: Source) returns (b: bool)
    modifies StreamsOf(src)
    ensures b == MatchesAt(c, SourceData(src), old(SourcePos(src)))
    ensures SourcePos(src) == if src.PathSource? then 0 else ProbeEnd(c, SourceData(src), old(SourcePos(src)))
  {
    var f: ByteStream;
    if src.PathSource? {
      f := new ByteStream(src.content);
    } else {
      f := src.stream;
    }
    var header := f.Read(|Magic(c)|);
    b := header == Magic(c);
  }

  /** The for/else loop of `CompressedFile.__new__`; `None` stands for `UnrecognizedCompressionFormat`. */
  method DetectCompression(src: Source) returns (r: Option<CompressionFormat>)
    modifies StreamsOf(src)
    ensures r == old(DetectOf(src))
    ensures SourcePos(src) == old(DetectEndOf(src))
  {
    ghost var data := SourceData(src);
    ghost var rewinds := src.PathSource?;
    for i := 0 to |Candidates|
      invariant old(DetectOf(src)) == Detect(Candidates[i..], data, SourcePos(src), rewinds)
      invariant old(DetectEndOf(src)) == DetectEnd(Candidates[i..], data, SourcePos(src), rewinds)
    {
      ghost var rest := Candidates[i..];
      assert rest[0] == Candidates[i] && rest[1..] == Candidates[i + 1..];
      var found := IsCompressed(Candidates[i], src);
      if found {
        return Some(Candidates[i]);
      }
    }
    return None;
  }

  /** An instance of `BzFile` or `GzFile`. */
  class CompressedFile {
    const format: CompressionFormat
    /** `_file`: a decoder over the path's file, or the caller's own file object. */
    var file: ByteStream

    /**
      `CompressedFile.__init__`: a path is opened through the format's decoder
      (`_open`); a file object is kept as it is, at whatever position the probes
      left it, and is not decoded.
    */
    constructor (src: Source, format: CompressionFormat, libs: Libraries)
      ensures this.format == format
      ensures src.PathSource? ==> fresh(file) && file.data == libs.decompress(format, src.content) && file.pos == 0
      ensures src.StreamSource? ==> file == src.stream
    {
      this.format := format;
      if src.PathSource? {
        file := new ByteStream(libs.decompress(format, src.content));
      } else {
        file := src.stream;
      }
    }

    /** `read(size)`: passed straight to `_file`. */
    method Read(size: int) returns (chunk: seq<byte>)
      modifies file
      ensures chunk == Chunk(file.data, old(file.pos), size)
      ensures file.pos == old(file.pos) + |chunk|
    {
      chunk := file.Read(size);
    }
  }

  /** `CompressedFile(src)`: `__new__` picks the subclass, then `__init__` runs. */
  method NewCompressedFile(src: Source, libs: Libraries) returns (r: Result<CompressedFile, Error>)
    modifies StreamsOf(src)
    ensures r.Failure? <==> old(DetectOf(src)).None?
    ensures r.Failure? ==> r.error == UnrecognizedCompressionFormat
    ensures r.Success? ==> fresh(r.value) && Some(r.value.format) == old(DetectOf(src))
    ensures r.Success? && src.PathSource? ==>
      fresh(r.value.file) && r.value.file.data == libs.decompress(r.value.format, src.content) && r.value.file.pos == 0
    ensures r.Success? && src.StreamSource? ==> r.value.file == src.stream
    ensures SourcePos(src) == old(DetectEndOf(src))
  {
    var found := DetectCompression(src);
    match found
    case None =>
      r := Failure(UnrecognizedCompressionFormat);
    case Some(c) =>
      var f := new CompressedFile(src, c, libs);
      r := Success(f);
  }

  // ---------------------------------------------------------------------
  // properties of the sniffing

  /** With rewinding probes the first candidate, in order, whose magic is at `pos` wins. */
  lemma {:induction false} DetectFirstMatch(cands: seq<CompressionFormat>, data: seq<byte>, pos: nat, i: nat)
    requires i < |cands| && MatchesAt(cands[i], data, pos)
    requires forall j :: 0 <= j < i ==> !MatchesAt(cands[j], data, pos)
    ensures Detect(cands, data, pos, true) == Some(cands[i])
    decreases i
  {
    if i > 0 {
      assert !MatchesAt(cands[0], data, pos);
      DetectFirstMatch(cands[1..], data, pos, i - 1);
    }
  }

  /** With rewinding probes, what is picked is the first candidate whose magic is at `pos`. */
  lemma {:induction false} DetectPicksFirst(cands: seq<CompressionFormat>, data: seq<byte>, pos: nat)
    requires Detect(cands, data, pos, true).Some?
    ensures exists i :: (0 <= i < |cands| && cands[i] == Detect(cands, data, pos, true).value &&
      forall j :: 0 <= j < i ==> !MatchesAt(cands[j], data, pos))
    decreases |cands|
  {
    if !MatchesAt(cands[0], data, pos) {
      DetectPicksFirst(cands[1..], data, pos);
      var v := Detect(cands, data, pos, true).value;
      var i :| 0 <= i < |cands[1..]| && cands[1..][i] == v &&
        forall j :: 0 <= j < i ==> !MatchesAt(cands[1..][j], data, pos);
      assert cands[i + 1] == v;
      NoMatchBefore(cands, data, pos, i);
    } else {
      assert cands[0] == Detect(cands, data, pos, true).value;
    }
  }

  /** A failed first probe followed by `i` failed probes of the rest: `i + 1` failed probes. */
  lemma NoMatchBefore(cands: seq<CompressionFormat>, data: seq<byte>, pos: nat, i: nat)
    requires i < |cands| && !MatchesAt(cands[0], data, pos)
    requires forall j :: 0 <= j < i ==> !MatchesAt(cands[1..][j], data, pos)
    ensures forall j :: 0 <= j < i + 1 ==> !MatchesAt(cands[j], data, pos)
  {
    forall j | 0 < j < i + 1 ensures cands[j] == cands[1..][j - 1] { }
  }

  /** With rewinding probes, nothing is picked exactly when no candidate's magic is at `pos`. */
  lemma {:induction false} DetectNoneIff(cands: seq<CompressionFormat>, data: seq<byte>, pos: nat)
    ensures Detect(cands, data, pos, true).None? <==> forall i :: 0 <= i < |cands| ==> !MatchesAt(cands[i], data, pos)
    decreases |cands|
  {
    if cands != [] && !MatchesAt(cands[0], data, pos) {
      DetectNoneIff(cands[1..], data, pos);
      forall i | 0 < i < |cands| ensures cands[i] == cands[1..][i - 1] { }
    }
  }

  /**
    On a file object the gzip probe starts where the bzip2 probe stopped: it
    recognises gzip only when the two bytes after the first three are 1f 8b.
  */
  lemma StreamProbeOffsets(data: seq<byte>, pos: nat)
    ensures Detect(Candidates, data, pos, false) == Some(Bzip2) <==> MatchesAt(Bzip2, data, pos)
    ensures Detect(Candidates, data, pos, false) == Some(Gzip) <==>
      !MatchesAt(Bzip2, data, pos) && MatchesAt(Gzip, data, pos + 3)
    ensures Detect(Candidates, data, pos, false) == None <==>
      !MatchesAt(Bzip2, data, pos) && !MatchesAt(Gzip, data, pos + 3)
  {
    assert Candidates[1..] == [Gzip] && [Gzip][1..] == [];
    if !MatchesAt(Bzip2, data, pos) && pos + 3 > |data| {
      var q := ProbeEnd(Bzip2, data, pos);
      assert q + 2 > |data|;
    }
  }

  /** The two signatures differ in their first byte, so no data carries both at once. */
  lemma MagicsExclusive(data: seq<byte>, pos: nat)
    ensures !(MatchesAt(Bzip2, data, pos) && MatchesAt(Gzip, data, pos))
  {
    if MatchesAt(Bzip2, data, pos) {
      assert data[pos] == BzMagic[0];
    }
  }

  /**
    What the sniffing is for: data carrying a signature at `pos` is recognised
    as that format when every probe starts at `pos`, as happens for a path.
  */
  lemma SignatureRecognised(c: CompressionFormat, data: seq<byte>, pos: nat)
    requires MatchesAt(c, data, pos)
    ensures Detect(Candidates, data, pos, true) == Some(c)
  {
    MagicsExclusive(data, pos);
    if c == Bzip2 {
      DetectFirstMatch(Candidates, data, pos, 0);
    } else {
      DetectFirstMatch(Candidates, data, pos, 1);
    }
  }

  /** The first ten bytes of a gzip file: magic, deflate method, no flags, zero time, Unix. */
  const GzipHeader: seq<byte> := [0x1F, 0x8B, 0x08, 0x00, 0x00, 0x00, 0x00, 0x00, 0x00, 0x03]

  /**
    A gzip file passed as a file object is not recognised (the gzip probe reads
    bytes 3 and 4), while the same file passed by path is.
  */
  lemma GzipStreamUnrecognised()
    ensures Detect(Candidates, GzipHeader, 0, false) == None
    ensures Detect(Candidates, GzipHeader, 0, true) == Some(Gzip)
  {
    StreamProbeOffsets(GzipHeader, 0);
    assert GzipHeader[0..3] != BzMagic;
    assert GzipHeader[3..5] != GzMagic;
    assert GzipHeader[0..2] == GzMagic;
    SignatureRecognised(Gzip, GzipHeader, 0);
  }
}
