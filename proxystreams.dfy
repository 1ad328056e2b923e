/**
 * Streams that transform content in one piece. The output proxy buffers
 * everything written and hands transform(buffer) to the wrapped stream of a
 * store when closed; the input proxy fetches the whole wrapped stream on
 * its first read, transforms it once, and serves the result.
 */
module ProxyStreams {
  import opened FileSystem
  import opened ByteStreams
  import opened StreamCopy
  import opened RamStore

  /** The default transform of the output proxy: the contents unchanged. */
  function Same(contents: seq<byte>): seq<byte>
  {
    contents
  }

  /** The default transform of the input proxy: the contents unchanged, never failing. */
  function SameOk(contents: seq<byte>): Result<seq<byte>>
  {
    Ok(contents)
  }

  class ProxyOutputStream {
    const output: RamOutputStream
    const transform: seq<byte> -> seq<byte>
    const buffer: ByteOutputStream

    /** The buffer is the proxy's own, never the wrapped stream's. */
    predicate Valid()
    {
      buffer != output.buffer
    }

    constructor (output: RamOutputStream, transform: seq<byte> -> seq<byte>)
      ensures Valid() && this.output == output && this.transform == transform
      ensures fresh(buffer) && buffer.bytes == []
    {
      this.output := output;
      this.transform := transform;
      buffer := new ByteOutputStream();
    }

    /** write(int): buffered; nothing reaches the wrapped stream. */
    method Write(b: int)
      modifies buffer
      ensures buffer.bytes == old(buffer.bytes) + [LowByte(b)]
    {
      buffer.Write(b);
    }

    /** write(b, off, len): buffered; nothing reaches the wrapped stream. */
    method WriteRange(b: array<byte>, off: int, len: int) returns (o: Outcome)
      modifies buffer
      ensures RangeOk(b.Length, off, len) ==> o == Pass && buffer.bytes == old(buffer.bytes) + b[off..off + len]
      ensures !RangeOk(b.Length, off, len) ==> o == Fail(IndexOutOfBounds) && buffer.bytes == old(buffer.bytes)
    {
      o := buffer.WriteRange(b, off, len);
    }

    /**
     * close: the transformed buffer goes to the wrapped stream in one
     * write, and the wrapped stream is closed. Nothing guards against a
     * second close, which writes the transformed buffer once more.
     */
    method Close() returns (o: Outcome)
      requires Valid() && output.disk.Valid()
      modifies output.buffer, output.disk
      ensures output.buffer.bytes == old(output.buffer.bytes) + transform(buffer.bytes)
      ensures output.disk.Valid()
      ensures (o, output.disk.Model()) == CommitSpec(old(output.disk.Model()), output.target, output.buffer.bytes)
    {
      var altered := transform(buffer.bytes);
      var contents := new byte[|altered|](i requires 0 <= i < |altered| => altered[i]);
      assert contents[0..contents.Length] == altered;
      var _ := output.WriteRange(contents, 0, contents.Length);
      o := output.Close();
    }
  }

  class ProxyInputStream {
    const input: ByteInputStream
    const transform: seq<byte> -> Result<seq<byte>>
    /** The transformed contents once fetched; null until the first read. */
    var buffer: ByteInputStream?

    predicate Valid()
      reads this, input, buffer
    {
      input.Valid() && (buffer != null ==> buffer.Valid() && buffer != input)
    }

    /**
     * What the reads still have to serve: the rest of the buffer once
     * fetched, and before that the transform of everything the wrapped
     * stream holds.
     */
    function Pending(): Result<seq<byte>>
      reads this, input, buffer
      requires Valid()
    {
      if buffer == null then transform(input.Remaining()) else Ok(buffer.Remaining())
    }

    constructor (input: ByteInputStream, transform: seq<byte> -> Result<seq<byte>>)
      requires input.Valid()
      ensures Valid() && this.input == input && this.transform == transform && buffer == null
      ensures Pending() == transform(input.Remaining())
    {
      this.input := input;
      this.transform := transform;
      buffer := null;
    }

    /**
     * checkState: on the first call, drain the wrapped stream, transform
     * its contents and buffer the result; later calls do nothing. A failing
     * transform leaves the buffer unset.
     */
    method CheckState() returns (o: Outcome)
      requires Valid()
      modifies this, input
      ensures Valid()
      ensures old(buffer) != null ==> o == Pass && buffer == old(buffer) && input.Remaining() == old(input.Remaining())
      ensures old(buffer) == null ==> (
        input.Remaining() == [] &&
        match transform(old(input.Remaining()))
        case Ok(t) => o == Pass && buffer != null && fresh(buffer) && buffer.Remaining() == t
        case Err(e) => o == Fail(e) && buffer == null)
    {
      if buffer != null {
        return Pass;
      }
      var original := ToBytes(input);
      match transform(original)
      case Ok(t) =>
        buffer := new ByteInputStream(t);
        o := Pass;
      case Err(e) =>
        o := Fail(e);
    }

    /** read(): the next pending byte, or -1 at the end; a failed fetch fails the read. */
    method Read() returns (r: Result<int>)
      requires Valid()
      modifies this, input, buffer
      ensures Valid()
      ensures old(Pending()).Err? ==> r == Err(old(Pending()).error) && buffer == null
      ensures old(Pending()).Err? ==> input.Remaining() == [] && Pending() == transform([])
      ensures old(Pending()).Ok? ==> (
        buffer != null && Pending().Ok? &&
        var p := old(Pending()).value;
        if p == [] then r == Ok(-1) && Pending().value == []
        else r == Ok(p[0] as int) && Pending().value == p[1..])
    {
      var o := CheckState();
      if o.Fail? {
        return Err(o.error);
      }
      var b := buffer.Read();
      r := Ok(b);
    }

    /** read(b, off, len): up to len pending bytes into the array, after the fetch. */
    method ReadRange(b: array<byte>, off: int, len: int) returns (r: Result<int>)
      requires Valid()
      modifies this, input, buffer, b
      ensures Valid()
      ensures old(Pending()).Err? ==> r == Err(old(Pending()).error) && buffer == null && b[..] == old(b[..])
      ensures old(Pending()).Err? ==> input.Remaining() == [] && Pending() == transform([])
      ensures old(Pending()).Ok? ==> (
        buffer != null && Pending().Ok? &&
        var p := old(Pending()).value;
        var n := if len < |p| then len else |p|;
        if !RangeOk(b.Length, off, len) then
          r == Err(IndexOutOfBounds) && b[..] == old(b[..]) && Pending().value == p
        else if p == [] then r == Ok(-1) && b[..] == old(b[..]) && Pending().value == []
        else r == Ok(n) && b[..] == Spliced(old(b[..]), off, p[..n]) && Pending().value == p[n..])
    {
      var o := CheckState();
      if o.Fail? {
        return Err(o.error);
      }
      r := buffer.ReadRange(b, off, len);
    }

    /** close: closes the buffer, which is unset (a null dereference) before the first read. */
    method Close() returns (o: Outcome)
      ensures o == if buffer == null then Fail(NullReference) else Pass
    {
      if buffer == null {
        return Fail(NullReference);
      }
      o := Pass;
    }
  }
}
