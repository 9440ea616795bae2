# python-archive, modelled in Dafny

The `archive` package turns a file into the readable files it bundles. `Archive(file)`
asks the tar and zip libraries, in a fixed order, whether they recognise the file.
`CompressedFile(file)` sniffs the bzip2 and gzip magic bytes. `files_in_bundle(file)` tries
an archive first, then a compressed file, then gives up. `Archive.extract` guards
`extractall` with `check_files`, the zip-slip defence. That test joins every member name
onto the target directory, normalises the result, and requires it to start with the
target string.

The model has one module per concern:

- `Errors`: the exception classes and the `Option`/`Result`/`Outcome` wrappers that stand for raising.
- `Paths`: POSIX `os.path.join`, `os.path.normpath`, `os.path.realpath` (without symbolic links) and `str.startswith` as string functions, with the split/join lemmas they need.
- `Streams`: binary streams as a class with a read position; a source is a path (opened afresh, at offset 0, by each `open`) or a caller's file object (read on from wherever it is).
- `Formats`: the formats, and the foreign library answers as total functions of the bytes.
- `Compression`: `is_compressed`, the `CompressedFile.__new__` loop, `__init__` and `read`.
- `Safety`: the path test of `check_files` and what it accepts and rejects.
- `Archives`: the `Archive.__new__` loop, `check_files`, `extract`, and the archive object.
- `Bundle`: `files_in_bundle`, run to the end.

The package's own documentation states more than its code does. `check_files` is
documented to make sure every member lies within the target directory
(archive/__init__.py:160-163), and `UnsafeArchive` is documented as the error for a member
that would be extracted outside it (archive/__init__.py:119-123). The test itself is a bare
`startswith` with no separator boundary, so it also accepts a sibling directory whose name
begins with the target's name. `CompressedFile.__new__` documents that a path and a
file-like object are both accepted (archive/__init__.py:52-54). The probes, however, read a
file object on from where the previous probe stopped, so a gzip stream passed as a file
object is not recognised. The model follows the code and gives the documented behaviour
beside it (see Findings).

## Model

| member | source | states |
|---|---|---|
| Paths.StartsWith | archive/__init__.py:171 | `str.startswith`: true exactly when the prefix is no longer than the string and the string begins with it; there is no separator boundary |
| Paths.Join | archive/__init__.py:169 | `os.path.join`: an absolute second part replaces the first; otherwise the result begins with the first part and ends with the second, with one separator between them exactly when the first is non-empty and does not end in one |
| Paths.NormPath | archive/__init__.py:170 | `normpath` never returns the empty string (an empty path becomes `.`) and returns an absolute path exactly when it is given one |
| Paths.NormPathRooted | archive/__init__.py:170 | `normpath` leaves a path made of normal segments (none empty, `.` or `..`) unchanged |
| Paths.RealPath | archive/__init__.py:165 | `realpath` (without symbolic links) returns an absolute path that `normpath` leaves unchanged, so the outer `normpath` in `check_files` changes nothing |
| Streams.Chunk | archive/__init__.py:77 | `read(n)` returns a prefix of the remaining bytes: `n` of them, or fewer at the end, or none past the end |
| Streams.ByteStream.Read | archive/__init__.py:77 | a read returns that chunk and moves the position past exactly the bytes returned |
| Compression.IsCompressed | archive/__init__.py:69-81 | the probe is true exactly when the `len(MAGIC_BYTES)` bytes read equal the magic; a path probe leaves no stream moved, a file-object probe leaves it after the bytes read |
| Compression.MatchesAt | archive/__init__.py:76-78 | a probe matches exactly when at least `len(MAGIC_BYTES)` bytes remain and they are the magic; a shorter stream never matches |
| Compression.DetectCompression | archive/__init__.py:57-61 | the for/else loop returns the format the first-match rule picks (None standing for `UnrecognizedCompressionFormat`) and leaves the stream where that rule says |
| Compression.Detect | archive/__init__.py:57-61 | the chosen format is one of the candidates and nothing is chosen from no candidates; when every probe starts at the same offset, the chosen format's magic is present there |
| Compression.DetectFirstMatch | archive/__init__.py:57-59 | with probes that start at the same offset, the first candidate in declaration order whose magic is present is chosen |
| Compression.DetectPicksFirst | archive/__init__.py:57-61 | with such probes, every candidate before the chosen one failed its probe |
| Compression.DetectNoneIff | archive/__init__.py:57-61 | with such probes, nothing is chosen exactly when no candidate's magic is present |
| Compression.StreamProbeOffsets | archive/__init__.py:71-77 | on a file object, bzip2 is chosen iff `BZh` is at the position; gzip iff it is not and `1f 8b` sits three bytes later; otherwise nothing |
| Compression.MagicsExclusive | archive/__init__.py:91 | the bzip2 and gzip signatures cannot both be present at one offset |
| Compression.SignatureRecognised | archive/__init__.py:99 | a path whose bytes start with either signature is recognised as that format |
| Compression.GzipStreamUnrecognised | archive/__init__.py:71-77 | a gzip header passed as a file object is not recognised, while the same bytes passed as a path are recognised as gzip |
| Compression.CompressedFile.constructor | archive/__init__.py:63-67 | a path is opened through the format's decoder at offset 0; a file object is kept as it is, where the probes left it |
| Compression.CompressedFile.Read | archive/__init__.py:86-87 | `read` is the underlying file's read |
| Compression.NewCompressedFile | archive/__init__.py:51-61 | raises `UnrecognizedCompressionFormat` exactly when no probe matches; otherwise returns a new object of the first matching format |
| Safety.TargetPath | archive/__init__.py:164-167 | a non-empty `to_path` gives its real path, absolute and already normal; an empty one gives the working directory |
| Safety.ExtractPath | archive/__init__.py:169-170 | a member's destination is the real path of the member joined onto the target, absolute and normal; an absolute member's destination is its own real path, whatever the target |
| Safety.IsSafeMember | archive/__init__.py:169-171 | an absolute member passes exactly when its own real path starts with the target string |
| Safety.FirstUnsafe | archive/__init__.py:168-174 | the index of the first member whose joined, normalised path does not start with the target; every member before it passes |
| Safety.FirstFailing | archive/__init__.py:168-171 | the loop over the verdicts stops at the first false one: every verdict before it is true, and it is false unless it is the end |
| Safety.FirstUnsafeAt | archive/__init__.py:168-174 | a run of passing members followed by a failing one (or the end) fixes the first failing index |
| Safety.SafeRunExtends | archive/__init__.py:171 | a member whose path starts with the target extends the run of passing members |
| Safety.TargetIsRooted | archive/__init__.py:164-165 | a non-empty `to_path` gives the normal rooted path of `join(cwd, to_path)` |
| Safety.TargetOut | archive/__init__.py:165 | `to_path` `/out` gives the target `/out` whatever the working directory |
| Safety.ExtractUnderRooted | archive/__init__.py:169-170 | under a normal target, a relative member lands at the target's segments with the member's pieces normalised onto them |
| Safety.AbsoluteMemberIgnoresTarget | archive/__init__.py:169 | an absolute member replaces the target in `join`: its destination does not depend on the target |
| Safety.AbsoluteCleanMember | archive/__init__.py:169-170 | an absolute member of normal segments lands exactly where it names |
| Safety.BenignMemberAccepted | archive/__init__.py:169-171 | a relative member without `..` pieces always passes under a normal target |
| Safety.BenignArchiveAccepted | archive/__init__.py:168-171 | an archive whose members are all relative and free of `..` passes the whole check |
| Safety.RootedExtends | archive/__init__.py:171 | a path extended by more segments starts with the path |
| Safety.ParentPath | archive/__init__.py:169-170 | the member `..` lands in the target's parent directory |
| Safety.ParentMemberRejected | archive/__init__.py:169-171 | the member `..` is rejected under any target below the root |
| Safety.LandingPath | archive/__init__.py:169-170 | under a normal target, every member's destination is the rooted path of its landing segments: an absolute member's own segments, or a relative member's pieces normalised onto the target's |
| Safety.PrefixSegs | archive/__init__.py:171 | a normal path that starts with a normal target string keeps every segment of the target but the last |
| Safety.AcceptedStaysInParent | archive/__init__.py:169-171 | every member accepted under a normal target below the root lands within the target's parent directory |
| Safety.PrefixIff | archive/__init__.py:171 | a normal path starts with a normal target string exactly when it keeps the target's parent segments, reaches the target's depth, and its segment there begins with the target's last segment |
| Safety.PrefixTestIff | archive/__init__.py:169-171 | for every member and every normal target below the root, the test accepts exactly the members that land along the target's parent, at least as deep as the target, on a segment beginning with the target's name; it rejects every other member |
| Safety.AncestorRejected | archive/__init__.py:169-171 | every member that lands at the target's parent or at any other ancestor of the target is rejected |
| Safety.AbsoluteEscapeRejected | tests/test_archive.py:183-185 | `/etc/passwd` lands in `/etc/passwd` and is rejected for the target `/out` |
| Safety.RelativeEscapeRejected | tests/test_archive.py:178-180 | `../escape.txt` lands in `/escape.txt` and is rejected for the target `/out` |
| Safety.SiblingDirectoryAccepted | archive/__init__.py:171 | `../out2/evil` lands in the sibling `/out2/evil`, passes the prefix test for the target `/out`, and is not within `/out` |
| Safety.WithinIffDescendant | archive/__init__.py:171 | with a separator boundary, a normal path is within a normal target exactly when its segments extend the target's |
| Safety.DescendantIsWithin | archive/__init__.py:171 | a path whose segments extend the target's is within the target |
| Safety.WithinIsDescendant | archive/__init__.py:171 | a path within the target has segments that extend the target's |
| Safety.ContainedIsSafe | archive/__init__.py:171 | the boundary test only ever rejects more members than the prefix test |
| Safety.ContainedIffBelow | archive/__init__.py:169-171 | a relative member passes the boundary test exactly when its normalised segments extend the target's |
| Archives.Accepts | archive/__init__.py:204-245 | the tar detector answers `is_tarfile`; the zip and 7z detectors both answer `is_zipfile` |
| Archives.FirstArchive | archive/__init__.py:136-140 | the chosen format is one of the candidates and is accepted; nothing is chosen exactly when every detector refuses |
| Archives.FirstArchiveIsFirst | archive/__init__.py:136-138 | every candidate before the chosen one was refused |
| Archives.ArchiveDispatch | archive/__init__.py:243-245 | tar iff `is_tarfile`; zip iff not tar and `is_zipfile`; 7z never, because its detector is zip's and zip comes first; nothing iff both refuse |
| Archives.DetectArchive | archive/__init__.py:136-140 | the detector loop returns the first accepting format, or None for `UnrecognizedArchiveFormat` |
| Archives.OpenArchive | archive/__init__.py:130-140 | raises `UnrecognizedArchiveFormat` exactly when no detector accepts; otherwise a new archive of the first accepting format with the library's member list |
| Archives.Archive.constructor | archive/__init__.py:196-201 | the archive lists the members the library reads from the file, and nothing has been extracted yet |
| Archives.Archive.ReadFile | archive/__init__.py:213-234 | `read_file(name)` gives a reader exactly when the archive lists the name, and it is that member's reader in the archive's format; any other name raises `KeyError` |
| Archives.Archive.CheckFiles | archive/__init__.py:159-174 | with `to_path` defaulting to empty, passes exactly when every member's path starts with the target (the cwd when `to_path` is empty); otherwise raises `UnsafeArchive` naming the first failing member |
| Archives.Archive.Extract | archive/__init__.py:150-157 | with `to_path` defaulting to empty and `method` to `'safe'`: `'safe'` extracts only when the check passes and otherwise raises its `UnsafeArchive`; `'insecure'` extracts at once; any other method raises `ValueError`; extraction happens exactly when no exception is raised |
| Archives.AbsoluteMemberStopsExtraction | archive/__init__.py:164-174 | an archive holding `/etc/passwd`, checked against `to_path` `/out`, fails at or before that member |
| Bundle.FilesInBundle | archive/__init__.py:15-30 | a recognised archive yields one pair per member in order and compression is never tried; otherwise the stream is left where the compression probes left it, and a recognised compressed file yields exactly one pair `(file, f)` with a new `f`, reading a path's decompressed bytes from offset 0 or the caller's own file object; otherwise nothing |

## Left out

- The tar, zip, 7z, bz2 and gzip libraries: their answers (`is_tarfile`, `is_zipfile`, member lists, decompressed bytes) are functions of the bytes they are shown, and their readers are opaque handles.
- `is_tarfile` and `is_zipfile` on a file object: the model lets them see the bytes from the current position and leaves the position where it was. The libraries' own seeking is not modelled.
- Bundle.FilesInBundle: for a compressed file object, its one-pair result holds only under that abstraction. `zipfile.is_zipfile` on a file object seeks to the end to look for the end-of-central-directory record and does not seek back, and `Archive.__new__` calls it for both the zip and the 7z candidate before `files_in_bundle` falls back to `CompressedFile`. In the program the compression probes then most likely read nothing, `UnrecognizedCompressionFormat` is raised, and no pair is yielded. The model promises that the probes start at the caller's position.
- Archives.Archive.ReadFile: the reader is an opaque token for the format and the member name. `extractfile` returning `None` for a tar member that is not a regular file is not modelled.
- Opening an archive does not move a file object in the model, and errors the libraries raise while opening or reading are not modelled.
- Symbolic links in `realpath`, and `os.getcwd()`: the working directory is a parameter, taken to be an absolute normal path.
- Files that cannot be opened: a path source carries its bytes.
- `_extract` / `extractall` writing to disk: recorded as the ghost log `extractions` of the `to_path` values passed.
- `list` / `printdir`: diagnostic printing.
- The laziness of `files_in_bundle`: the generator is run to the end and its pairs returned as a sequence.
- `to_path=None`, the default of `check_files`, is the default empty string in the model; both are false in Python and fall back on the working directory. The working directory comes first among the parameters of `CheckFiles` and `Extract`, ahead of the defaulted ones.
- `setup.py` and `test.py` hold packaging metadata and a printing demo.

## Findings

| source | as written | input that shows it | evidently intended | confidence | as-written member | corrected member |
|---|---|---|---|---|---|---|
| archive/__init__.py:71-77 | each `is_compressed` probe reads a file object from where the previous probe stopped and never seeks back | a gzip file passed as a file object (bytes `1f 8b 08 00 00 …`): the bzip2 probe reads bytes 0-2, the gzip probe reads bytes 3-4, and `UnrecognizedCompressionFormat` is raised | every probe reads the header from the stream's starting position, as it does for a path | not executed; high | Compression.GzipStreamUnrecognised | Compression.SignatureRecognised |
| archive/__init__.py:171 | the member's path must only start with the target string, with no separator boundary | target `/out`, member `../out2/evil`: the destination `/out2/evil` starts with `/out` and the member is accepted | a member must land in the target or below it | not executed; high | Safety.SiblingDirectoryAccepted | Safety.WithinIffDescendant |
