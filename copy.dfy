/**
 * The stream helpers of the file utilities: copying everything an input
 * stream still holds into an output stream, in chunks of at most 1024
 * bytes, and draining an input stream into a byte sequence.
 */
module StreamCopy {
  import opened FileSystem
  import opened ByteStreams

  const ChunkSize := 1024

  /**
   * copy(from, to): read chunks until the end of the input, writing each
   * chunk read; neither stream is closed. The output receives exactly the
   * bytes the input had left, in order.
   */
  method Copy(from: ByteInputStream, to: ByteOutputStream)
    requires from.Valid()
    modifies from, to
    ensures from.Valid() && from.Remaining() == []
    ensures to.bytes == old(to.bytes) + old(from.Remaining())
  {
    CopyChunks(from, to, ChunkSize);
  }

  /** The copy loop, with chunks of `size` bytes. */
  method CopyChunks(from: ByteInputStream, to: ByteOutputStream, size: nat)
    requires from.Valid() && size > 0
    modifies from, to
    ensures from.Valid() && from.Remaining() == []
    ensures to.bytes == old(to.bytes) + old(from.Remaining())
  {
    var chunk := new byte[size];
    ghost var total := to.bytes + from.Remaining();
    while true
      invariant from.Valid() && to.bytes + from.Remaining() == total
      invariant chunk.Length == size && fresh(chunk)
      decreases |from.Remaining()|
    {
      ghost var before := from.Remaining();
      var n := ReadChunk(from, chunk);
      if n == -1 {
        break;
      }
      var _ := to.WriteRange(chunk, 0, n);
      assert before == before[..n] + before[n..];
    }
  }

  /** One read of the loop: a full array's worth at most, to the front of `chunk`. */
  method ReadChunk(from: ByteInputStream, chunk: array<byte>) returns (n: int)
    requires from.Valid() && chunk.Length > 0
    modifies from, chunk
    ensures from.Valid()
    ensures old(from.Remaining()) == [] ==> n == -1 && from.Remaining() == []
    ensures old(from.Remaining()) != [] ==>
      0 < n <= chunk.Length && n <= |old(from.Remaining())| &&
      chunk[0..n] == old(from.Remaining())[..n] && from.Remaining() == old(from.Remaining())[n..]
  {
    ghost var cells := chunk[..];
    ghost var before := from.Remaining();
    var r := from.ReadRange(chunk, 0, chunk.Length);
    n := r.value;
    if n != -1 {
      SplicedFront(cells, before[..n]);
      assert chunk[0..n] == chunk[..][..n];
    }
  }

  /** A chunk read to the front of the array fills exactly its first cells. */
  lemma SplicedFront(before: seq<byte>, read: seq<byte>)
    requires |read| <= |before|
    ensures Spliced(before, 0, read)[..|read|] == read
  {
  }

  /** toBytes: every byte the stream still holds, leaving it at its end. */
  method ToBytes(input: ByteInputStream) returns (bytes: seq<byte>)
    requires input.Valid()
    modifies input
    ensures input.Valid() && input.Remaining() == []
    ensures bytes == old(input.Remaining())
  {
    var sink := new ByteOutputStream();
    Copy(input, sink);
    bytes := sink.bytes;
  }
}
