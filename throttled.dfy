/**
 * Throttling: the two streams that count the bytes they carry and compute,
 * before each transfer, how long to sleep so that the average rate stays at
 * the maximum, the output stream's cap on the number of bytes written, and
 * the store that caps its capacity and keeps a running total of its size.
 *
 * The clock is a parameter: each transfer takes the milliseconds elapsed
 * since the stream was created. The sleep itself is not modelled, only the
 * time computed for it and the running total of those times.
 */
module Throttle {
  import opened FileSystem
  import opened ByteStreams
  import opened RamTree
  import opened RamStore
  import opened TreeSizes
  import opened Filters
  import Listing

  /** Long.MAX_VALUE, what an unset limit reads as. */
  const LongMax: int := 0x7FFF_FFFF_FFFF_FFFF

  // ---------------------------------------------------------------------
  // The sleep time

  /** The (long) cast of a double: truncation toward zero. */
  function TruncReal(x: real): (r: int)
    ensures x >= 0.0 ==> r as real <= x < r as real + 1.0
    ensures x < 0.0 ==> r as real - 1.0 < x <= r as real
  {
    if x >= 0.0 then x.Floor else -((-x).Floor)
  }

  /**
   * calSleepTimeMs of the output stream: nothing at the start (no time
   * elapsed), before any byte, or without a positive rate; otherwise the
   * time the bytes should have taken at the rate, in milliseconds, minus
   * the time elapsed, truncated, and never negative.
   */
  function SleepTime(bytes: int, rate: int, elapsed: int): (t: int)
    ensures t >= 0
  {
    if elapsed == 0 then 0
    else if bytes <= 0 || rate <= 0 then 0
    else
      var rval := TruncReal((bytes as real / rate as real) * 1000.0 - elapsed as real);
      if rval <= 0 then 0 else rval
  }

  /**
   * calSleepTimeMs of the input stream: the same computation, but with no
   * test for zero elapsed time. The positive elapsed time it asserts is a
   * Java assertion, off unless the JVM enables it, so any elapsed time is
   * accepted here.
   */
  function ReadSleepTime(bytes: int, rate: int, elapsed: int): (t: int)
    ensures t >= 0
  {
    if bytes <= 0 || rate <= 0 then 0
    else
      var rval := TruncReal((bytes as real / rate as real) * 1000.0 - elapsed as real);
      if rval <= 0 then 0 else rval
  }

  /** The exact value behind the floating-point expression: the quotient plus a fraction below one. */
  lemma Quotient(bytes: int, rate: int, elapsed: int)
    requires bytes > 0 && rate > 0
    ensures var x := (bytes as real / rate as real) * 1000.0 - elapsed as real;
      var k := (bytes * 1000) / rate - elapsed;
      k as real <= x < k as real + 1.0
  {
    var q := (bytes * 1000) / rate;
    var m := (bytes * 1000) % rate;
    assert bytes * 1000 == q * rate + m;
    var f := m as real / rate as real;
    assert 0.0 <= f < 1.0 by {
      assert f * rate as real == m as real;
    }
    calc {
      (bytes as real / rate as real) * 1000.0;
      (bytes * 1000) as real / rate as real;
      (q * rate + m) as real / rate as real;
      { assert (q * rate + m) as real == q as real * rate as real + m as real; }
      (q as real * rate as real + m as real) / rate as real;
      q as real + f;
    }
  }

  /**
   * With bytes sent, a positive rate and some time elapsed, the sleep is the
   * whole milliseconds the bytes are ahead of the rate, or 0 when they are not.
   */
  lemma SleepTimeExact(bytes: int, rate: int, elapsed: int)
    requires bytes > 0 && rate > 0 && elapsed != 0
    ensures var k := (bytes * 1000) / rate - elapsed;
      SleepTime(bytes, rate, elapsed) == if k > 0 then k else 0
  {
    Quotient(bytes, rate, elapsed);
  }

  /**
   * Sleeping that long brings the average rate back to the maximum: after
   * the sleep, one more millisecond would be enough for the bytes at the
   * rate, and a positive sleep is no longer than needed.
   */
  lemma SleepRestoresRate(bytes: int, rate: int, elapsed: int)
    requires bytes > 0 && rate > 0 && elapsed != 0
    ensures var t := SleepTime(bytes, rate, elapsed);
      bytes * 1000 < (elapsed + t + 1) * rate &&
      (t > 0 ==> (elapsed + t) * rate <= bytes * 1000)
  {
    SleepTimeExact(bytes, rate, elapsed);
    var q := (bytes * 1000) / rate;
    assert q * rate <= bytes * 1000 < (q + 1) * rate;
    var t := SleepTime(bytes, rate, elapsed);
    if t == 0 {
      assert q <= elapsed;
      assert (q + 1) * rate <= (elapsed + 1) * rate;
    } else {
      assert elapsed + t == q;
    }
  }

  /** The two variants agree whenever some time has elapsed, in either direction. */
  lemma ReadSleepTimeAgrees(bytes: int, rate: int, elapsed: int)
    requires elapsed != 0
    ensures ReadSleepTime(bytes, rate, elapsed) == SleepTime(bytes, rate, elapsed)
  {
  }

  /**
   * They differ at the start: in the same millisecond as its creation, the
   * input stream sleeps for the whole time the bytes take at the rate,
   * where the output stream does not sleep at all.
   */
  lemma ReadSleepTimeAtStart(bytes: int, rate: int)
    requires bytes > 0 && rate > 0
    ensures ReadSleepTime(bytes, rate, 0) == (bytes * 1000) / rate
    ensures SleepTime(bytes, rate, 0) == 0
  {
    Quotient(bytes, rate, 0);
  }

  /** Nothing to wait for before any byte, without a rate, or at the start. */
  lemma NoSleep(bytes: int, rate: int, elapsed: int)
    requires bytes <= 0 || rate <= 0 || elapsed == 0
    ensures SleepTime(bytes, rate, elapsed) == 0
  {
  }

  /**
   * getBytesPerSec: the count divided by the whole seconds elapsed, or the
   * count itself before the first whole second.
   */
  function BytesPerSec(count: nat, elapsedMs: nat): (r: nat)
    ensures var secs := elapsedMs / 1000;
      (secs == 0 ==> r == count) && (secs > 0 ==> r * secs <= count < (r + 1) * secs)
  {
    var secs := elapsedMs / 1000;
    if secs == 0 then count else count / secs
  }

  // ---------------------------------------------------------------------
  // The streams

  /** The cap check after a write: a negative cap means no cap; otherwise the count must not exceed it. */
  predicate OverCap(cap: int, count: int)
  {
    cap >= 0 && count > cap
  }

  /** A cap is never exceeded by a count up to it, and is by any count past it. */
  lemma CapBoundary(cap: int, count: int)
    ensures cap < 0 ==> !OverCap(cap, count)
    ensures cap >= 0 ==> (OverCap(cap, count) <==> count > cap)
  {
  }

  /**
   * ThrottledOutputStream over an output stream of the in-memory store. Each
   * write first adds the computed sleep to the total, then writes to the raw
   * stream, counts, and only then checks the cap: bytes past the cap are
   * written all the same, and the write fails afterwards.
   */
  class ThrottledOutputStream {
    const raw: RamOutputStream
    const maxBytesPerSec: int
    var bytesWritten: int
    var totalSleepTime: int
    var maxBytesToWrite: int
    /** What the raw stream held when it was wrapped, and what went through since. */
    ghost const before: seq<byte>
    ghost var written: seq<byte>

    /** The counter is the number of bytes that went through to the raw stream, unchanged. */
    ghost predicate Valid()
      reads this, raw.buffer
    {
      raw.buffer.bytes == before + written && bytesWritten == |written|
    }

    constructor (raw: RamOutputStream, maxBytesPerSec: int)
      ensures Valid() && this.raw == raw && this.maxBytesPerSec == maxBytesPerSec
      ensures bytesWritten == 0 && totalSleepTime == 0 && maxBytesToWrite == -1 && written == []
    {
      this.raw := raw;
      this.maxBytesPerSec := maxBytesPerSec;
      bytesWritten := 0;
      totalSleepTime := 0;
      maxBytesToWrite := -1;
      before := raw.buffer.bytes;
      written := [];
    }

    method SetMaxBytesToWrite(maxBytes: int)
      modifies this
      ensures maxBytesToWrite == maxBytes
      ensures bytesWritten == old(bytesWritten) && totalSleepTime == old(totalSleepTime) && written == old(written)
    {
      maxBytesToWrite := maxBytes;
    }

    method GetBytesPerSec(elapsedMs: nat) returns (r: nat)
      requires Valid()
      ensures r == BytesPerSec(bytesWritten, elapsedMs)
    {
      r := BytesPerSec(bytesWritten, elapsedMs);
    }

    /** write(int): one byte. */
    method Write(b: int, elapsed: int) returns (o: Outcome)
      requires Valid()
      modifies this, raw.buffer
      ensures Valid() && maxBytesToWrite == old(maxBytesToWrite)
      ensures totalSleepTime == old(totalSleepTime) + SleepTime(old(bytesWritten), maxBytesPerSec, elapsed)
      ensures written == old(written) + [LowByte(b)] && bytesWritten == old(bytesWritten) + 1
      ensures o == if OverCap(maxBytesToWrite, bytesWritten) then Fail(ExceededMaxBytes) else Pass
    {
      totalSleepTime := totalSleepTime + SleepTime(bytesWritten, maxBytesPerSec, elapsed);
      raw.Write(b);
      written := written + [LowByte(b)];
      bytesWritten := bytesWritten + 1;
      if maxBytesToWrite >= 0 && bytesWritten > maxBytesToWrite {
        return Fail(ExceededMaxBytes);
      }
      o := Pass;
    }

    /** write(byte[]): the whole array. */
    method WriteAll(b: array<byte>, elapsed: int) returns (o: Outcome)
      requires Valid()
      modifies this, raw.buffer
      ensures Valid() && maxBytesToWrite == old(maxBytesToWrite)
      ensures totalSleepTime == old(totalSleepTime) + SleepTime(old(bytesWritten), maxBytesPerSec, elapsed)
      ensures written == old(written) + b[..] && bytesWritten == old(bytesWritten) + b.Length
      ensures o == if OverCap(maxBytesToWrite, bytesWritten) then Fail(ExceededMaxBytes) else Pass
    {
      totalSleepTime := totalSleepTime + SleepTime(bytesWritten, maxBytesPerSec, elapsed);
      var _ := raw.WriteRange(b, 0, b.Length);
      assert b[0..b.Length] == b[..];
      written := written + b[..];
      bytesWritten := bytesWritten + b.Length;
      if maxBytesToWrite >= 0 && bytesWritten > maxBytesToWrite {
        return Fail(ExceededMaxBytes);
      }
      o := Pass;
    }

    /** write(b, off, len): a range of the array; a range outside it fails before anything is counted. */
    method WriteRange(b: array<byte>, off: int, len: int, elapsed: int) returns (o: Outcome)
      requires Valid()
      modifies this, raw.buffer
      ensures Valid() && maxBytesToWrite == old(maxBytesToWrite)
      ensures totalSleepTime == old(totalSleepTime) + SleepTime(old(bytesWritten), maxBytesPerSec, elapsed)
      ensures !RangeOk(b.Length, off, len) ==>
        o == Fail(IndexOutOfBounds) && written == old(written) && bytesWritten == old(bytesWritten)
      ensures RangeOk(b.Length, off, len) ==>
        written == old(written) + b[off..off + len] && bytesWritten == old(bytesWritten) + len &&
        o == if OverCap(maxBytesToWrite, bytesWritten) then Fail(ExceededMaxBytes) else Pass
    {
      totalSleepTime := totalSleepTime + SleepTime(bytesWritten, maxBytesPerSec, elapsed);
      o := raw.WriteRange(b, off, len);
      if o.Fail? {
        return;
      }
      written := written + b[off..off + len];
      bytesWritten := bytesWritten + len;
      if maxBytesToWrite >= 0 && bytesWritten > maxBytesToWrite {
        return Fail(ExceededMaxBytes);
      }
    }

    /** close: closes the raw stream, which commits its bytes to the file node. */
    method Close() returns (o: Outcome)
      requires raw.disk.Valid()
      modifies raw.disk
      ensures raw.disk.Valid()
      ensures (o, raw.disk.Model()) == CommitSpec(old(raw.disk.Model()), raw.target, raw.buffer.bytes)
    {
      o := raw.Close();
    }
  }

  /**
   * ThrottledInputStream over an input stream of the in-memory store. Each
   * read first adds the computed sleep to the total, then reads from the raw
   * stream and counts what it returned; the end of the stream counts nothing.
   */
  class ThrottledInputStream {
    const raw: ByteInputStream
    const maxBytesPerSec: int
    var bytesRead: int
    var totalSleepTime: int
    /** The position of the raw stream when it was wrapped. */
    ghost const start: nat

    /** The counter is the number of bytes consumed from the raw stream since it was wrapped. */
    ghost predicate Valid()
      reads this, raw
    {
      raw.Valid() && start <= raw.pos && bytesRead == raw.pos - start
    }

    constructor (raw: ByteInputStream, maxBytesPerSec: int)
      requires raw.Valid()
      ensures Valid() && this.raw == raw && this.maxBytesPerSec == maxBytesPerSec
      ensures bytesRead == 0 && totalSleepTime == 0
    {
      this.raw := raw;
      this.maxBytesPerSec := maxBytesPerSec;
      bytesRead := 0;
      totalSleepTime := 0;
      start := raw.pos;
    }

    method GetBytesPerSec(elapsedMs: nat) returns (r: nat)
      requires Valid()
      ensures r == BytesPerSec(bytesRead, elapsedMs)
    {
      r := BytesPerSec(bytesRead, elapsedMs);
    }

    /** read(): the raw stream's next byte, or -1 at its end. */
    method Read(elapsed: int) returns (r: int)
      requires Valid()
      modifies this, raw
      ensures Valid()
      ensures totalSleepTime == old(totalSleepTime) + ReadSleepTime(old(bytesRead), maxBytesPerSec, elapsed)
      ensures old(raw.Remaining()) == [] ==> r == -1 && bytesRead == old(bytesRead) && raw.Remaining() == []
      ensures old(raw.Remaining()) != [] ==>
        r == old(raw.Remaining())[0] as int && bytesRead == old(bytesRead) + 1 &&
        raw.Remaining() == old(raw.Remaining())[1..]
    {
      totalSleepTime := totalSleepTime + ReadSleepTime(bytesRead, maxBytesPerSec, elapsed);
      r := raw.Read();
      if r != -1 {
        bytesRead := bytesRead + 1;
      }
    }

    /** read(b, off, len): what the raw stream copied into the range, counted unless it is -1. */
    method ReadRange(b: array<byte>, off: int, len: int, elapsed: int) returns (r: Result<int>)
      requires Valid()
      modifies this, raw, b
      ensures Valid()
      ensures totalSleepTime == old(totalSleepTime) + ReadSleepTime(old(bytesRead), maxBytesPerSec, elapsed)
      ensures !RangeOk(b.Length, off, len) ==>
        r == Err(IndexOutOfBounds) && b[..] == old(b[..]) && bytesRead == old(bytesRead)
      ensures RangeOk(b.Length, off, len) && old(raw.Remaining()) == [] ==>
        r == Ok(-1) && b[..] == old(b[..]) && bytesRead == old(bytesRead)
      ensures RangeOk(b.Length, off, len) && old(raw.Remaining()) != [] ==>
        var n := if len < |old(raw.Remaining())| then len else |old(raw.Remaining())|;
        r == Ok(n) && b[..] == Spliced(old(b[..]), off, old(raw.Remaining())[..n]) &&
        raw.Remaining() == old(raw.Remaining())[n..] && bytesRead == old(bytesRead) + n
    {
      totalSleepTime := totalSleepTime + ReadSleepTime(bytesRead, maxBytesPerSec, elapsed);
      r := raw.ReadRange(b, off, len);
      if r.Ok? && r.value != -1 {
        bytesRead := bytesRead + r.value;
      }
    }

    /** read(byte[]): into the whole array. */
    method ReadAll(b: array<byte>, elapsed: int) returns (r: Result<int>)
      requires Valid()
      modifies this, raw, b
      ensures Valid()
      ensures totalSleepTime == old(totalSleepTime) + ReadSleepTime(old(bytesRead), maxBytesPerSec, elapsed)
      ensures old(raw.Remaining()) == [] ==> r == Ok(-1) && b[..] == old(b[..]) && bytesRead == old(bytesRead)
      ensures old(raw.Remaining()) != [] ==>
        var n := if b.Length < |old(raw.Remaining())| then b.Length else |old(raw.Remaining())|;
        r == Ok(n) && b[..] == Spliced(old(b[..]), 0, old(raw.Remaining())[..n]) &&
        raw.Remaining() == old(raw.Remaining())[n..] && bytesRead == old(bytesRead) + n
    {
      r := ReadRange(b, 0, b.Length, elapsed);
    }
  }

  // ---------------------------------------------------------------------
  // The store

  /** getMaxSize and getMaxSpeed: a negative limit reads as no limit, Long.MAX_VALUE. */
  function Limit(setting: int): (r: int)
    ensures r >= 0 && (setting >= 0 ==> r == setting) && (setting < 0 ==> r == LongMax)
  {
    if setting < 0 then LongMax else setting
  }

  /** The size of the file a write replaces: its length if the path is a file, 0 otherwise. */
  function OriginalSize(d: DiskState, path: string): nat
  {
    if IsFileSpec(d, path) then SizeSpec(d, path).value else 0
  }

  /**
   * The cap set on the stream writeTo returns: the room left in the store,
   * counting the bytes of the file being replaced as free.
   */
  function WriteCap(maxSize: int, currentSize: int, originalSize: int): int
  {
    maxSize - currentSize + originalSize
  }

  /**
   * Writing bytes to the stream of a successful writeTo and closing it
   * changes the bytes held by the store by the bytes written minus those of
   * the file replaced, which is what close adds to the running total.
   */
  lemma WriteCloseBytes(d: DiskState, path: string, bytes: seq<byte>)
    requires DiskValid(d) && Resolve(d, path).parts != [] && WriteToSpec(d, path).0.Ok?
    ensures var (r, d1) := WriteToSpec(d, path);
      var (o, d2) := CommitSpec(d1, r.value, bytes);
      o == Pass && TreeBytes(d2.root) == TreeBytes(d.root) - OriginalSize(d, path) + |bytes|
  {
    var parts := Resolve(d, path).parts;
    var (r, d1) := WriteToSpec(d, path);
    WriteToCreates(d, path);
    CreateFileBytes(d.root, parts, d.nextId);
    assert Resolve(d1, path) == Resolve(d, path);
    var f := Locate(d1.root, parts).value;
    WriteContentsBytes(d1.root, parts, f.id, bytes);
    if IsFileSpec(d, path) {
      assert OriginalSize(d, path) == |f.contents|;
    } else {
      assert ReadSpec(d1, path) == Ok(f.contents);
      assert OriginalSize(d, path) == |f.contents|;
    }
  }

  /** A successful delete takes the size getSize reported away from the bytes held by the store. */
  lemma DeleteBytes(d: DiskState, path: string)
    requires DiskValid(d) && SizeSpec(d, path).Ok?
    ensures var (o, after) := DeleteSpec(d, path);
      o == Pass && TreeBytes(after.root) == TreeBytes(d.root) - SizeSpec(d, path).value
  {
    var parts := Resolve(d, path).parts;
    assert parts != [];
    RemoveAtBytes(d.root, parts);
  }

  /**
   * The cap enforces the limit: when the running total is the size of the
   * store and the cap is not negative, the write fails exactly when closing
   * the stream would take the store past its maximum size.
   */
  lemma CapEnforcesLimit(d: DiskState, path: string, bytes: seq<byte>, sizeLimit: int)
    requires DiskValid(d) && Resolve(d, path).parts != [] && WriteToSpec(d, path).0.Ok?
    ensures var (r, d1) := WriteToSpec(d, path);
      var cap := WriteCap(Limit(sizeLimit), TreeBytes(d.root), OriginalSize(d, path));
      cap >= 0 ==> (OverCap(cap, |bytes|) <==> TreeBytes(CommitSpec(d1, r.value, bytes).1.root) > Limit(sizeLimit))
  {
    WriteCloseBytes(d, path, bytes);
  }

  /**
   * The cap is negative, and so no cap at all, exactly when the other files
   * of the store already hold more than the maximum size: any number of
   * bytes may then be written.
   */
  lemma NegativeCapUnlimited(d: DiskState, path: string, sizeLimit: int, count: int)
    requires DiskValid(d)
    ensures var cap := WriteCap(Limit(sizeLimit), TreeBytes(d.root), OriginalSize(d, path));
      (cap < 0 <==> TreeBytes(d.root) - OriginalSize(d, path) > Limit(sizeLimit)) &&
      (cap < 0 ==> !OverCap(cap, count))
  {
  }

  /**
   * ThrottledFileSystem over the in-memory store: the filter with a speed
   * limit, a size limit and a running total of the bytes the store holds.
   */
  class ThrottledFileSystem {
    const filter: FilterFileSystem
    var speedLimit: int
    var sizeLimit: int
    var currentSize: int

    /** The running total is the number of bytes the files of the store hold. */
    ghost predicate Accurate()
      reads this, filter.inner
    {
      currentSize == TreeBytes(filter.inner.root)
    }

    /**
     * The running total starts as the size of the store, which can only be
     * computed when it is open: otherwise it starts at 0. Both limits start
     * unset.
     */
    constructor (inner: RamDisk)
      requires inner.Valid()
      modifies inner
      ensures fresh(filter) && filter.inner == inner && inner.Valid() && inner.Model() == old(inner.Model())
      ensures speedLimit == -1 && sizeLimit == -1
      ensures currentSize == if old(inner.state) == Open then TreeBytes(old(inner.root)) else 0
      ensures old(inner.state) == Open || TreeBytes(old(inner.root)) == 0 ==> Accurate()
    {
      filter := new FilterFileSystem(inner);
      var size := Listing.GetSize(inner, "");
      currentSize := if size.Ok? then size.value else 0;
      sizeLimit := -1;
      speedLimit := -1;
    }

    method SetSpeedLimit(speed: int)
      modifies this
      ensures speedLimit == speed && sizeLimit == old(sizeLimit) && currentSize == old(currentSize)
    {
      speedLimit := speed;
    }

    method SetSizeLimit(size: int)
      modifies this
      ensures sizeLimit == size && speedLimit == old(speedLimit) && currentSize == old(currentSize)
    {
      sizeLimit := size;
    }

    /** getMaxSize: the size limit, or Long.MAX_VALUE when none is set. */
    function GetMaxSize(): (r: int)
      reads this
      ensures r >= 0 && (sizeLimit >= 0 ==> r == sizeLimit) && (sizeLimit < 0 ==> r == LongMax)
    {
      Limit(sizeLimit)
    }

    /** getMaxSpeed: the speed limit, or Long.MAX_VALUE when none is set. */
    function GetMaxSpeed(): (r: int)
      reads this
      ensures r >= 0 && (speedLimit >= 0 ==> r == speedLimit) && (speedLimit < 0 ==> r == LongMax)
    {
      Limit(speedLimit)
    }

    /**
     * writeTo: the size of the file replaced, if any, is read first; the
     * inner stream is wrapped in a capped stream at the maximum speed, with
     * the room left in the store as its cap.
     */
    method WriteTo(path: string) returns (r: Result<CappedOutputStream>)
      requires filter.inner.Valid()
      modifies filter.inner
      ensures filter.inner.Valid()
      ensures var d := old(filter.inner.Model());
        var (res, after) := WriteToSpec(d, path);
        filter.inner.Model() == after && r.Ok? == res.Ok? && (r.Err? ==> r.error == res.error) &&
        (r.Ok? ==> (fresh(r.value) && fresh(r.value.stream) && r.value.owner == this &&
                    r.value.originalSize == OriginalSize(d, path) &&
                    r.value.stream.raw.disk == filter.inner && r.value.stream.raw.target == res.value &&
                    r.value.stream.Valid() && r.value.stream.before == [] && r.value.stream.written == [] &&
                    r.value.stream.maxBytesPerSec == Limit(speedLimit) &&
                    r.value.stream.maxBytesToWrite == WriteCap(Limit(sizeLimit), currentSize, OriginalSize(d, path))))
      ensures old(Accurate()) ==> Accurate()
    {
      ghost var d := filter.inner.Model();
      WriteToValid(d, path);
      var currentFileSize := 0;
      var isFile := filter.IsFile(path);
      if isFile {
        var size := filter.GetSize(path);
        currentFileSize := size.value;
      }
      var os := filter.WriteTo(path);
      if os.Err? {
        return Err(os.error);
      }
      CreateFileBytes(d.root, Resolve(d, path).parts, d.nextId);
      var tos := new CappedOutputStream(os.value, GetMaxSpeed(), currentFileSize, this);
      var maxSize := GetMaxSize() - currentSize + currentFileSize;
      tos.stream.SetMaxBytesToWrite(maxSize);
      r := Ok(tos);
    }

    /** readFrom: the inner stream wrapped in a throttled stream at the maximum speed. */
    method ReadFrom(path: string) returns (r: Result<ThrottledInputStream>)
      ensures ReadSpec(filter.inner.Model(), path).Err? ==> r == Err(ReadSpec(filter.inner.Model(), path).error)
      ensures ReadSpec(filter.inner.Model(), path).Ok? ==>
        r.Ok? && fresh(r.value) && fresh(r.value.raw) && r.value.Valid() && r.value.bytesRead == 0 &&
        r.value.maxBytesPerSec == Limit(speedLimit) &&
        r.value.raw.Remaining() == ReadSpec(filter.inner.Model(), path).value
    {
      var input := filter.ReadFrom(path);
      if input.Err? {
        return Err(input.error);
      }
      var tis := new ThrottledInputStream(input.value, GetMaxSpeed());
      r := Ok(tis);
    }

    /**
     * delete: the size of the file is taken from the running total first; a
     * path that is not a file fails there, before anything changes.
     */
    method Delete(path: string) returns (o: Outcome)
      requires filter.inner.Valid()
      modifies this, filter.inner
      ensures filter.inner.Valid() && speedLimit == old(speedLimit) && sizeLimit == old(sizeLimit)
      ensures var d := old(filter.inner.Model());
        match SizeSpec(d, path)
        case Err(e) => o == Fail(e) && filter.inner.Model() == d && currentSize == old(currentSize)
        case Ok(size) =>
          (o, filter.inner.Model()) == DeleteSpec(d, path) && currentSize == old(currentSize) - size
      ensures old(Accurate()) ==> Accurate()
    {
      ghost var d := filter.inner.Model();
      var size := filter.GetSize(path);
      if size.Err? {
        return Fail(size.error);
      }
      currentSize := currentSize - size.value;
      DeleteBytes(d, path);
      o := filter.Delete(path);
    }
  }

  /**
   * CappedOutputStream: a throttled output stream that, once closed, adds
   * the bytes written minus those of the file it replaced to the running
   * total of the store that created it.
   */
  class CappedOutputStream {
    const stream: ThrottledOutputStream
    const owner: ThrottledFileSystem
    const originalSize: int

    constructor (raw: RamOutputStream, maxBytesPerSec: int, originalSize: int, owner: ThrottledFileSystem)
      ensures fresh(stream) && stream.raw == raw && stream.maxBytesPerSec == maxBytesPerSec
      ensures stream.Valid() && stream.before == raw.buffer.bytes && stream.written == [] && stream.maxBytesToWrite == -1
      ensures this.originalSize == originalSize && this.owner == owner
    {
      stream := new ThrottledOutputStream(raw, maxBytesPerSec);
      this.originalSize := originalSize;
      this.owner := owner;
    }

    /**
     * close: the throttled stream closes, committing its bytes; only when
     * that succeeds is the running total updated.
     */
    method Close() returns (o: Outcome)
      requires stream.raw.disk.Valid()
      modifies stream.raw.disk, owner
      ensures stream.raw.disk.Valid() && owner.speedLimit == old(owner.speedLimit) && owner.sizeLimit == old(owner.sizeLimit)
      ensures (o, stream.raw.disk.Model()) ==
              CommitSpec(old(stream.raw.disk.Model()), stream.raw.target, stream.raw.buffer.bytes)
      ensures owner.currentSize ==
              if o.Pass? then old(owner.currentSize) + stream.bytesWritten - originalSize else old(owner.currentSize)
    {
      o := stream.Close();
      if o.Fail? {
        return;
      }
      owner.currentSize := owner.currentSize + stream.bytesWritten - originalSize;
    }
  }

  /**
   * A write through the throttled store keeps the running total exact:
   * starting from an exact total, writeTo, any writes that go through and
   * a successful close leave the total equal to the bytes the store holds.
   */
  lemma WriteKeepsTotal(d: DiskState, path: string, bytes: seq<byte>, currentSize: int)
    requires DiskValid(d) && Resolve(d, path).parts != [] && WriteToSpec(d, path).0.Ok?
    requires currentSize == TreeBytes(d.root)
    ensures var (r, d1) := WriteToSpec(d, path);
      currentSize + |bytes| - OriginalSize(d, path) == TreeBytes(CommitSpec(d1, r.value, bytes).1.root)
  {
    WriteCloseBytes(d, path, bytes);
  }
}
