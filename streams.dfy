/**
 * The in-memory byte streams of the standard library that the stores hand
 * out and buffer into: an input stream reading from fixed contents and an
 * output stream accumulating what is written to it. The array overloads of
 * the streams read or write a range of a caller's array.
 */
module ByteStreams {
  import opened FileSystem

  /** What a byte stream keeps of an int written to it: its eight low-order bits. */
  function LowByte(b: int): (r: byte)
    ensures (r as int - b) % 256 == 0
    ensures 0 <= b < 256 ==> r as int == b
  {
    (b % 256) as byte
  }

  /** The bounds check of the array overloads: `off` and `len` select a range of the array. */
  predicate RangeOk(length: int, off: int, len: int)
  {
    0 <= off && 0 <= len && len <= length - off
  }

  /** `b` after its range [off, off + |chunk|) was overwritten with `chunk`. */
  function Spliced(before: seq<byte>, off: nat, chunk: seq<byte>): (r: seq<byte>)
    requires off + |chunk| <= |before|
    ensures |r| == |before|
    ensures forall i :: 0 <= i < |r| ==>
      r[i] == if off <= i < off + |chunk| then chunk[i - off] else before[i]
  {
    before[..off] + chunk + before[off + |chunk|..]
  }

  /** ByteArrayInputStream: a cursor over contents fixed at construction. */
  class ByteInputStream {
    const data: seq<byte>
    var pos: nat

    predicate Valid()
      reads this
    {
      pos <= |data|
    }

    /** The bytes not read yet. */
    function Remaining(): seq<byte>
      reads this
      requires Valid()
    {
      data[pos..]
    }

    constructor (contents: seq<byte>)
      ensures Valid() && data == contents && Remaining() == contents
    {
      data := contents;
      pos := 0;
    }

    /** read(): the next byte, as a value from 0 to 255, or -1 once every byte was read. */
    method Read() returns (r: int)
      requires Valid()
      modifies this
      ensures Valid()
      ensures old(Remaining()) == [] ==> r == -1 && Remaining() == []
      ensures old(Remaining()) != [] ==>
        r == old(Remaining())[0] as int && Remaining() == old(Remaining())[1..]
    {
      if pos < |data| {
        r := data[pos] as int;
        pos := pos + 1;
      } else {
        r := -1;
      }
    }

    /**
     * read(b, off, len): copies up to `len` of the remaining bytes into the
     * range of `b` starting at `off`; returns their number, 0 when `len` is 0,
     * or -1 when no byte remains. A range outside the array fails.
     */
    method ReadRange(b: array<byte>, off: int, len: int) returns (r: Result<int>)
      requires Valid()
      modifies this, b
      ensures Valid()
      ensures !RangeOk(b.Length, off, len) ==>
        r == Err(IndexOutOfBounds) && b[..] == old(b[..]) && Remaining() == old(Remaining())
      ensures RangeOk(b.Length, off, len) && old(Remaining()) == [] ==>
        r == Ok(-1) && b[..] == old(b[..]) && Remaining() == []
      ensures RangeOk(b.Length, off, len) && old(Remaining()) != [] ==>
        var n := if len < |old(Remaining())| then len else |old(Remaining())|;
        r == Ok(n) && b[..] == Spliced(old(b[..]), off, old(Remaining())[..n]) &&
        Remaining() == old(Remaining())[n..]
    {
      if !(0 <= off && 0 <= len && len <= b.Length - off) {
        return Err(IndexOutOfBounds);
      }
      if pos >= |data| {
        return Ok(-1);
      }
      var p := pos;
      var n := |data| - p;
      if len < n {
        n := len;
      }
      ghost var before := b[..];
      var i := 0;
      while i < n
        invariant 0 <= i <= n && p + n <= |data| && off + n <= b.Length
        invariant forall k :: 0 <= k < b.Length ==>
          b[k] == if off <= k < off + i then data[p + k - off] else before[k]
      {
        b[off + i] := data[p + i];
        i := i + 1;
      }
      assert b[..] == Spliced(before, off, data[p..][..n]);
      pos := p + n;
      r := Ok(n);
    }
  }

  /** ByteArrayOutputStream: a growing buffer of everything written to it. */
  class ByteOutputStream {
    var bytes: seq<byte>

    constructor ()
      ensures bytes == []
    {
      bytes := [];
    }

    /** write(int): appends the low-order byte of `b`. */
    method Write(b: int)
      modifies this
      ensures bytes == old(bytes) + [LowByte(b)]
    {
      bytes := bytes + [LowByte(b)];
    }

    /** write(b, off, len): appends that range of the array; a range outside the array fails. */
    method WriteRange(b: array<byte>, off: int, len: int) returns (o: Outcome)
      modifies this
      ensures RangeOk(b.Length, off, len) ==> o == Pass && bytes == old(bytes) + b[off..off + len]
      ensures !RangeOk(b.Length, off, len) ==> o == Fail(IndexOutOfBounds) && bytes == old(bytes)
    {
      if !(0 <= off && 0 <= len && len <= b.Length - off) {
        return Fail(IndexOutOfBounds);
      }
      bytes := bytes + b[off..off + len];
      o := Pass;
    }
  }
}
