/**
 * The decorators that forward to an inner store: the pass-through filter,
 * the read-only store that refuses every mutation, and the two stores whose
 * streams transform content in one piece (buffered and base 64). A
 * subclass of the filter is modelled as a class holding the filter it
 * extends in `filter`; its inherited operations are the filter's.
 */
module Filters {
  import opened FileSystem
  import opened ByteStreams
  import opened RamStore
  import opened ProxyStreams
  import Base64

  /** The pass-through store: every operation is the inner store's, with the same argument. */
  class FilterFileSystem {
    const inner: RamDisk

    constructor (inner: RamDisk)
      ensures this.inner == inner
    {
      this.inner := inner;
    }

    method Open() returns (o: Outcome)
      requires inner.Valid()
      modifies inner
      ensures inner.Valid() && (o, inner.Model()) == OpenSpec(old(inner.Model()))
    {
      o := inner.Open();
    }

    method GetSize(path: string) returns (r: Result<nat>)
      ensures r == SizeSpec(inner.Model(), path)
    {
      r := inner.GetSize(path);
    }

    method Ls() returns (r: Result<seq<string>>)
      ensures r == LsSpec(inner.Model())
    {
      r := inner.Ls();
    }

    method LsPath(path: string) returns (r: Result<seq<string>>)
      ensures r == LsPathSpec(inner.Model(), path)
    {
      r := inner.LsPath(path);
    }

    method IsDirectory(path: string) returns (b: bool)
      ensures b == IsDirSpec(inner.Model(), path)
    {
      b := inner.IsDirectory(path);
    }

    method IsFile(path: string) returns (b: bool)
      ensures b == IsFileSpec(inner.Model(), path)
    {
      b := inner.IsFile(path);
    }

    /** writeTo: the inner store's stream itself, unwrapped. */
    method WriteTo(path: string) returns (r: Result<RamOutputStream>)
      requires inner.Valid()
      modifies inner
      ensures inner.Valid()
      ensures var (res, after) := WriteToSpec(old(inner.Model()), path);
        inner.Model() == after && r.Ok? == res.Ok? && (r.Err? ==> r.error == res.error) &&
        (r.Ok? ==> (fresh(r.value) && r.value.disk == inner && r.value.target == res.value && r.value.buffer.bytes == []))
    {
      r := inner.WriteTo(path);
    }

    /** readFrom: the inner store's stream itself, unwrapped. */
    method ReadFrom(path: string) returns (r: Result<ByteInputStream>)
      ensures ReadSpec(inner.Model(), path).Err? ==> r == Err(ReadSpec(inner.Model(), path).error)
      ensures ReadSpec(inner.Model(), path).Ok? ==>
        r.Ok? && fresh(r.value) && r.value.Valid() && r.value.Remaining() == ReadSpec(inner.Model(), path).value
    {
      r := inner.ReadFrom(path);
    }

    method Chdir(path: string) returns (o: Outcome)
      requires inner.Valid()
      modifies inner
      ensures inner.Valid() && (o, inner.Model()) == ChdirSpec(old(inner.Model()), path)
    {
      o := inner.Chdir(path);
    }

    method Pushd(path: string) returns (o: Outcome)
      requires inner.Valid()
      modifies inner
      ensures inner.Valid() && (o, inner.Model()) == ChdirSpec(old(inner.Model()), path)
    {
      o := inner.Pushd(path);
    }

    method Popd() returns (o: Outcome)
      requires inner.Valid()
      modifies inner
      ensures inner.Valid() && (o, inner.Model()) == PopdSpec(old(inner.Model()))
    {
      o := inner.Popd();
    }

    method Mkdir(path: string) returns (o: Outcome)
      requires inner.Valid()
      modifies inner
      ensures inner.Valid() && (o, inner.Model()) == MkdirSpec(old(inner.Model()), path)
    {
      o := inner.Mkdir(path);
    }

    method Rmdir(path: string) returns (o: Outcome)
      requires inner.Valid()
      modifies inner
      ensures inner.Valid() && (o, inner.Model()) == RmdirSpec(old(inner.Model()), path)
    {
      o := inner.Rmdir(path);
    }

    method Delete(path: string) returns (o: Outcome)
      requires inner.Valid()
      modifies inner
      ensures inner.Valid() && (o, inner.Model()) == DeleteSpec(old(inner.Model()), path)
    {
      o := inner.Delete(path);
    }

    method Pwd() returns (s: string)
      ensures s == PwdSpec(inner.Model())
    {
      s := inner.Pwd();
    }

    method Close()
      requires inner.Valid()
      modifies inner
      ensures inner.Valid() && inner.Model() == CloseSpec(old(inner.Model()))
    {
      inner.Close();
    }
  }

  /** The read-only store: the four mutators fail and never reach the inner store. */
  class ReadOnlyFileSystem {
    const filter: FilterFileSystem

    constructor (inner: RamDisk)
      ensures fresh(filter) && filter.inner == inner
    {
      filter := new FilterFileSystem(inner);
    }

    method Mkdir(path: string) returns (o: Outcome)
      ensures o == Fail(Unauthorized)
    {
      o := Fail(Unauthorized);
    }

    method Rmdir(path: string) returns (o: Outcome)
      ensures o == Fail(Unauthorized)
    {
      o := Fail(Unauthorized);
    }

    method Delete(path: string) returns (o: Outcome)
      ensures o == Fail(Unauthorized)
    {
      o := Fail(Unauthorized);
    }

    method WriteTo(path: string) returns (r: Result<RamOutputStream>)
      ensures r == Err(Unauthorized)
    {
      r := Err(Unauthorized);
    }
  }

  /** The buffered store: its streams are proxies with the identity transform. */
  class BufferedFileSystem {
    const filter: FilterFileSystem

    constructor (inner: RamDisk)
      ensures fresh(filter) && filter.inner == inner
    {
      filter := new FilterFileSystem(inner);
    }

    /** readFrom: a proxy whose reads serve exactly the inner file's bytes. */
    method ReadFrom(path: string) returns (r: Result<ProxyInputStream>)
      ensures ReadSpec(filter.inner.Model(), path).Err? ==> r == Err(ReadSpec(filter.inner.Model(), path).error)
      ensures ReadSpec(filter.inner.Model(), path).Ok? ==>
        r.Ok? && fresh(r.value) && fresh(r.value.input) && r.value.Valid() && r.value.buffer == null &&
        r.value.Pending() == Ok(ReadSpec(filter.inner.Model(), path).value)
    {
      var s := filter.ReadFrom(path);
      if s.Err? {
        return Err(s.error);
      }
      var p := new ProxyInputStream(s.value, SameOk);
      r := Ok(p);
    }

    /** writeTo: a proxy that hands the bytes unchanged to the inner stream at close. */
    method WriteTo(path: string) returns (r: Result<ProxyOutputStream>)
      requires filter.inner.Valid()
      modifies filter.inner
      ensures filter.inner.Valid()
      ensures var (res, after) := WriteToSpec(old(filter.inner.Model()), path);
        filter.inner.Model() == after && r.Ok? == res.Ok? && (r.Err? ==> r.error == res.error) &&
        (r.Ok? ==> (fresh(r.value) && r.value.Valid() && r.value.transform == Same &&
                    r.value.output.disk == filter.inner && r.value.output.target == res.value &&
                    r.value.output.buffer.bytes == [] && r.value.buffer.bytes == []))
    {
      var s := filter.WriteTo(path);
      if s.Err? {
        return Err(s.error);
      }
      var p := new ProxyOutputStream(s.value, Same);
      r := Ok(p);
    }
  }

  /** The base 64 store: files hold the encoding of what is written, and reads decode it. */
  class Base64FileSystem {
    const filter: FilterFileSystem

    constructor (inner: RamDisk)
      ensures fresh(filter) && filter.inner == inner
    {
      filter := new FilterFileSystem(inner);
    }

    /** readFrom: a proxy whose reads serve the decoding of the inner file's bytes. */
    method ReadFrom(path: string) returns (r: Result<ProxyInputStream>)
      ensures ReadSpec(filter.inner.Model(), path).Err? ==> r == Err(ReadSpec(filter.inner.Model(), path).error)
      ensures ReadSpec(filter.inner.Model(), path).Ok? ==>
        r.Ok? && fresh(r.value) && fresh(r.value.input) && r.value.Valid() && r.value.buffer == null &&
        r.value.Pending() == Base64.Decode(ReadSpec(filter.inner.Model(), path).value)
    {
      var s := filter.ReadFrom(path);
      if s.Err? {
        return Err(s.error);
      }
      var p := new ProxyInputStream(s.value, Base64.Decode);
      r := Ok(p);
    }

    /** writeTo: a proxy that hands the encoding of the bytes to the inner stream at close. */
    method WriteTo(path: string) returns (r: Result<ProxyOutputStream>)
      requires filter.inner.Valid()
      modifies filter.inner
      ensures filter.inner.Valid()
      ensures var (res, after) := WriteToSpec(old(filter.inner.Model()), path);
        filter.inner.Model() == after && r.Ok? == res.Ok? && (r.Err? ==> r.error == res.error) &&
        (r.Ok? ==> (fresh(r.value) && r.value.Valid() && r.value.transform == Base64.Encode &&
                    r.value.output.disk == filter.inner && r.value.output.target == res.value &&
                    r.value.output.buffer.bytes == [] && r.value.buffer.bytes == []))
    {
      var s := filter.WriteTo(path);
      if s.Err? {
        return Err(s.error);
      }
      var p := new ProxyOutputStream(s.value, Base64.Encode);
      r := Ok(p);
    }
  }

  /**
   * Writing bytes through the buffered store and reading them back gives
   * the same bytes, and the inner file holds them as they are.
   */
  lemma BufferedWriteThenRead(d: DiskState, path: string, bytes: seq<byte>)
    requires DiskValid(d) && Resolve(d, path).parts != [] && WriteToSpec(d, path).0.Ok?
    ensures var (r, d1) := WriteToSpec(d, path);
      var (o, d2) := CommitSpec(d1, r.value, Same(bytes));
      o == Pass && ReadSpec(d2, path) == Ok(bytes) && SameOk(ReadSpec(d2, path).value) == Ok(bytes)
  {
    WriteThenRead(d, path, bytes);
  }

  /**
   * Writing bytes through the base 64 store and reading them back gives
   * the same bytes, while the inner file holds their encoding, four
   * characters for every three bytes begun.
   */
  lemma Base64WriteThenRead(d: DiskState, path: string, bytes: seq<byte>)
    requires DiskValid(d) && Resolve(d, path).parts != [] && WriteToSpec(d, path).0.Ok?
    ensures var (r, d1) := WriteToSpec(d, path);
      var (o, d2) := CommitSpec(d1, r.value, Base64.Encode(bytes));
      o == Pass && ReadSpec(d2, path) == Ok(Base64.Encode(bytes)) &&
      |ReadSpec(d2, path).value| == 4 * ((|bytes| + 2) / 3) &&
      Base64.Decode(ReadSpec(d2, path).value) == Ok(bytes)
  {
    WriteThenRead(d, path, Base64.Encode(bytes));
    Base64.DecodeEncode(bytes);
  }
}
