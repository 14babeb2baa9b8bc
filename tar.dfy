/** What the extractor sees of Go's `archive/tar` reader: a cursor over the headers of
    the archive, in order, followed by either the end of the archive or a failure. */
module Tar {
  import opened GoIo

  /** The type flag of a regular file ('0'). */
  const TypeReg: byte := 0x30

  /** The two header fields the extractor consults. */
  datatype Header = Header(name: string, typeflag: byte)

  /** How a walk over the archive ends: `io.EOF`, or a malformed-archive error. */
  datatype End = EOF | Malformed(err: Error)

  /** Everything a walk over one byte stream yields. */
  datatype Stream = Stream(headers: seq<Header>, end: End)

  /** The outcome of one call of `Next`. */
  datatype Step = Got(hdr: Header) | EndOfArchive | Failed(err: Error)

  /** `tar.Reader`: a forward-only cursor over one stream. */
  class Reader {
    const headers: seq<Header>
    const end: End
    var pos: nat

    ghost predicate Valid()
      reads this
    {
      pos <= |headers|
    }

    /** `tar.NewReader`: positioned before the first header. */
    constructor (s: Stream)
      ensures Valid()
      ensures headers == s.headers && end == s.end && pos == 0
    {
      headers := s.headers;
      end := s.end;
      pos := 0;
    }

    /** `Reader.Next`: the next header, or the end of the stream, which repeats. */
    method Next() returns (step: Step)
      requires Valid()
      modifies this
      ensures Valid()
      ensures old(pos) < |headers| ==> step == Got(headers[old(pos)]) && pos == old(pos) + 1
      ensures old(pos) == |headers| ==> pos == old(pos)
      ensures old(pos) == |headers| ==>
        step == (match end case EOF => EndOfArchive case Malformed(e) => Failed(e))
    {
      if pos < |headers| {
        step := Got(headers[pos]);
        pos := pos + 1;
      } else {
        match end
        case EOF => step := EndOfArchive;
        case Malformed(e) => step := Failed(e);
      }
    }
  }
}
