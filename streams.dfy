/**
  Binary files as the archive package reads them: a source is either a path
  (each `open(path, 'rb')` gives a new stream at offset 0) or a file-like object
  the caller passed in, whose read position moves with every read.
*/
module Streams {

  type byte = x: int | 0 <= x < 256

  /**
    What `f.read(size)` returns from a stream at `pos`: the next `size` bytes, or
    all the remaining ones when `size` is negative or fewer remain; nothing at
    or past the end.
  */
  function Chunk(data: seq<byte>, pos: nat, size: int): (r: seq<byte>)
    ensures pos <= |data| ==> r <= data[pos..]
    ensures pos <= |data| && size >= 0 ==> |r| == if pos + size <= |data| then size else |data| - pos
    ensures pos <= |data| && size < 0 ==> r == data[pos..]
    ensures pos >= |data| ==> r == []
  {
    if pos >= |data| then []
    else if size < 0 || pos + size > |data| then data[pos..]
    else data[pos..pos + size]
  }

  /** An open binary stream: fixed contents and a read position. */
  class ByteStream {
    const data: seq<byte>
    var pos: nat

    constructor (content: seq<byte>)
      ensures data == content && pos == 0
    {
      data := content;
      pos := 0;
    }

    /** `read(size)`: returns the next bytes and moves past them. */
    method Read(size: int) returns (chunk: seq<byte>)
      modifies this
      ensures chunk == Chunk(data, old(pos), size)
      ensures pos == old(pos) + |chunk|
    {
      chunk := Chunk(data, pos, size);
      pos := pos + |chunk|;
    }
  }

  /** The `file` argument: a string path (with the file's bytes) or a file-like object. */
  datatype Source =
    | PathSource(path: string, content: seq<byte>)
    | StreamSource(stream: ByteStream)

  /** The objects a probe of the source may move: the caller's stream, if any. */
  function StreamsOf(src: Source): set<object> {
    if src.StreamSource? then {src.stream} else {}
  }

  /** The bytes a reader of the source sees next: the whole file for a path. */
  function Visible(src: Source): seq<byte>
    reads StreamsOf(src)
  {
    match src
    case PathSource(_, content) => content
    case StreamSource(s) => if s.pos <= |s.data| then s.data[s.pos..] else []
  }
}
