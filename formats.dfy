/**
  The formats the package knows and the library calls it makes about them.
  tarfile, zipfile, py7zr, bz2 and gzip are not part of this model: what they
  answer is given as total functions of the bytes they are shown.
*/
module Formats {
  import opened Streams

  /** The subclasses of `Archive`. */
  datatype ArchiveFormat = Tar | Zip | SevenZip

  /** The subclasses of `CompressedFile`. */
  datatype CompressionFormat = Bzip2 | Gzip

  /** Answers of the foreign libraries the package calls. */
  datatype Libraries = Libraries(
    /** `tarfile.is_tarfile` */
    isTarfile: seq<byte> -> bool,
    /** `zipfile.is_zipfile` */
    isZipfile: seq<byte> -> bool,
    /** `getnames()` / `namelist()` of the opened archive, in archive order */
    memberNames: (ArchiveFormat, seq<byte>) -> seq<string>,
    /** the bytes `bz2.BZ2File` / `gzip.GzipFile` decode from a file */
    decompress: (CompressionFormat, seq<byte>) -> seq<byte>
  )
}
