/** Readers and writers as the engine sees them. A reader is the sequence of
    byte chunks its successive `Read` calls return, followed by how it ends:
    `io.EOF` or another error. A writer is described by which of its
    successive `Write` calls succeed. */
module Io {
  import opened Bytes

  datatype End = Eof | Fail

  datatype Reader = Reader(chunks: seq<seq<byte>>, end: End)

  /** Whether the `k`-th write call (from 0) succeeds. */
  type Sink = nat -> bool

  /** Everything a reader delivers before it ends. */
  function Contents(r: Reader): seq<byte>
  {
    Flatten(r.chunks)
  }

  /** The chunks left once the first `n` bytes have been consumed; a chunk
      straddling the cut keeps its tail. */
  function DropPrefix(chunks: seq<seq<byte>>, n: nat): (rest: seq<seq<byte>>)
    requires n <= |Flatten(chunks)|
    ensures Flatten(rest) == Flatten(chunks)[n..]
    decreases |chunks|
  {
    if n == 0 then chunks
    else if n < |chunks[0]| then [chunks[0][n..]] + chunks[1..]
    else
      assert Flatten(chunks) == chunks[0] + Flatten(chunks[1..]);
      DropPrefix(chunks[1..], n - |chunks[0]|)
  }
}
