/** A binary input stream (std::ifstream opened with std::ios::binary) over
    the bytes of a file. A read that comes up short delivers what is left
    and puts the stream in the failed state; a failed stream delivers
    nothing and ignores seekg. */
module Streams {
  import opened BmpFormat

  datatype IStream = IStream(data: seq<byte>, pos: nat, good: bool)

  function Open(data: seq<byte>): IStream {
    IStream(data, 0, true)
  }

  function Available(s: IStream): nat {
    if s.pos <= |s.data| then |s.data| - s.pos else 0
  }

  /** read(buf, n): the bytes delivered and the stream after the read. */
  function Read(s: IStream, n: nat): (r: (seq<byte>, IStream))
    ensures |r.0| <= n && r.1.data == s.data
    ensures r.1.good <==> s.good && |r.0| == n
    ensures s.good && s.pos <= |s.data| ==> s.pos + |r.0| <= |s.data| && r.0 == s.data[s.pos..s.pos + |r.0|]
    ensures s.good && s.pos <= |s.data| ==> r.1.pos == s.pos + |r.0|
    ensures s.good && s.pos > |s.data| ==> r.0 == []
    ensures s.good && s.pos + n <= |s.data| ==> |r.0| == n
    ensures !s.good ==> r.0 == []
  {
    if !s.good then ([], s)
    else if s.pos > |s.data| then ([], IStream(s.data, s.pos, n == 0))
    else
      var k := if n <= Available(s) then n else Available(s);
      (s.data[s.pos..s.pos + k], IStream(s.data, s.pos + k, k == n))
  }

  /** What a buffer holds after a read delivered `got` into it: the
      delivered bytes overwrite a prefix, the rest keeps its old content. */
  function Overlay(buf: seq<byte>, got: seq<byte>): (r: seq<byte>)
    requires |got| <= |buf|
    ensures |r| == |buf| && r[..|got|] == got && r[|got|..] == buf[|got|..]
  {
    got + buf[|got|..]
  }

  /** seekg(off) from the beginning. */
  function Seek(s: IStream, off: nat): (r: IStream)
    ensures r.data == s.data && r.good == s.good
    ensures s.good ==> r.pos == off
  {
    if s.good then IStream(s.data, off, true) else s
  }
}
