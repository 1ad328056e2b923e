/**
 * A proxy giving read and write access to one existing file of a store,
 * and the dependent streams whose close closes the whole store instead of
 * the stream they wrap.
 */
module FileProxies {
  import opened FileSystem
  import opened FilePaths
  import opened RamTree
  import opened ByteStreams
  import opened RamStore

  /** createFileNode on the path of an existing file returns that file and leaves the tree as it is. */
  lemma {:induction false} ExistingFileKept(n: Node, parts: seq<string>, id: nat)
    requires n.Folder? && IsFileAt(n, parts)
    ensures CreateFile(n, parts, id) == Ok((n, Some(Locate(n, parts).value.id)))
  {
    var k := Find(n.children, parts[0]);
    if |parts| > 1 {
      assert Locate(n, parts) == Locate(n.children[k], parts[1..]);
      ExistingFileKept(n.children[k], parts[1..], id);
      assert n.children[k := n.children[k]] == n.children;
    } else {
      assert parts[1..] == [];
    }
  }

  /**
   * writeTo on an existing file: the tree keeps its shape, the stream is
   * bound to that very file, and closing it makes the file hold exactly the
   * bytes written.
   */
  lemma ExistingFileWrite(d: DiskState, path: string, bytes: seq<byte>)
    requires DiskValid(d) && IsFileSpec(d, path)
    ensures var parts := Resolve(d, path).parts;
      var (r, d1) := WriteToSpec(d, path);
      r == Ok(FileNode(parts, Locate(d.root, parts).value.id)) && d1.root == d.root &&
      CommitSpec(d1, r.value, bytes).0 == Pass && ReadSpec(CommitSpec(d1, r.value, bytes).1, path) == Ok(bytes)
  {
    ExistingFileKept(d.root, Resolve(d, path).parts, d.nextId);
    WriteThenRead(d, path, bytes);
  }

  /** FileProxy: a store and a path, both fixed at construction. */
  class FileProxy {
    const fs: RamDisk
    const pathToFile: string

    constructor (fs: RamDisk, path: string)
      ensures this.fs == fs && pathToFile == path
    {
      this.fs := fs;
      pathToFile := path;
    }

    /** readFrom: the store's stream on the path when it is a file; otherwise "File <path> not found". */
    method ReadFrom() returns (r: Result<ByteInputStream>)
      ensures !IsFileSpec(fs.Model(), pathToFile) ==> r == Err(FileNotFoundAt(pathToFile))
      ensures IsFileSpec(fs.Model(), pathToFile) ==>
        r.Ok? && fresh(r.value) && r.value.Valid() && r.value.Remaining() == ReadSpec(fs.Model(), pathToFile).value
    {
      var present := fs.IsFile(pathToFile);
      if !present {
        return Err(FileNotFoundAt(pathToFile));
      }
      r := fs.ReadFrom(pathToFile);
    }

    /**
     * writeTo: the store's stream on the path when it is already a file;
     * otherwise "File <path> not found" and the store is untouched, so a
     * proxy never creates a file.
     */
    method WriteTo() returns (r: Result<RamOutputStream>)
      requires fs.Valid()
      modifies fs
      ensures fs.Valid()
      ensures !IsFileSpec(old(fs.Model()), pathToFile) ==>
        r == Err(FileNotFoundAt(pathToFile)) && fs.Model() == old(fs.Model())
      ensures IsFileSpec(old(fs.Model()), pathToFile) ==>
        var (res, after) := WriteToSpec(old(fs.Model()), pathToFile);
        res.Ok? && fs.Model() == after && fs.root == old(fs.root) &&
        r.Ok? && fresh(r.value) && r.value.disk == fs && r.value.target == res.value && r.value.buffer.bytes == []
    {
      var present := fs.IsFile(pathToFile);
      if !present {
        return Err(FileNotFoundAt(pathToFile));
      }
      ExistingFileKept(fs.root, Resolve(fs.Model(), pathToFile).parts, fs.nextId);
      r := fs.WriteTo(pathToFile);
    }
  }

  /**
   * The dependent input stream: reads are the wrapped stream's; close
   * closes the store, whose failure would be swallowed, and leaves the
   * wrapped stream as it is.
   */
  class DependentInputStream {
    const input: ByteInputStream
    const fs: RamDisk

    constructor (fs: RamDisk, input: ByteInputStream)
      ensures this.fs == fs && this.input == input
    {
      this.fs := fs;
      this.input := input;
    }

    method Read() returns (r: int)
      requires input.Valid()
      modifies input
      ensures input.Valid()
      ensures old(input.Remaining()) == [] ==> r == -1 && input.Remaining() == []
      ensures old(input.Remaining()) != [] ==>
        r == old(input.Remaining())[0] as int && input.Remaining() == old(input.Remaining())[1..]
    {
      r := input.Read();
    }

    /** read(b, off, len), which a filter stream also hands to the wrapped stream. */
    method ReadRange(b: array<byte>, off: int, len: int) returns (r: Result<int>)
      requires input.Valid()
      modifies input, b
      ensures input.Valid()
      ensures !RangeOk(b.Length, off, len) ==>
        r == Err(IndexOutOfBounds) && b[..] == old(b[..]) && input.Remaining() == old(input.Remaining())
      ensures RangeOk(b.Length, off, len) && old(input.Remaining()) == [] ==>
        r == Ok(-1) && b[..] == old(b[..]) && input.Remaining() == []
      ensures RangeOk(b.Length, off, len) && old(input.Remaining()) != [] ==>
        var n := if len < |old(input.Remaining())| then len else |old(input.Remaining())|;
        r == Ok(n) && b[..] == Spliced(old(b[..]), off, old(input.Remaining())[..n]) &&
        input.Remaining() == old(input.Remaining())[n..]
    {
      r := input.ReadRange(b, off, len);
    }

    method Close()
      requires fs.Valid()
      modifies fs
      ensures fs.Valid() && fs.Model() == CloseSpec(old(fs.Model()))
    {
      fs.Close();
    }
  }

  /**
   * The dependent output stream: writes go to the wrapped stream; close
   * closes the store and never closes the wrapped stream, so the bytes
   * written never reach the file.
   */
  class DependentOutputStream {
    const output: RamOutputStream
    const fs: RamDisk

    constructor (fs: RamDisk, output: RamOutputStream)
      ensures this.fs == fs && this.output == output
    {
      this.fs := fs;
      this.output := output;
    }

    method Write(b: int)
      modifies output.buffer
      ensures output.buffer.bytes == old(output.buffer.bytes) + [LowByte(b)]
    {
      output.Write(b);
    }

    method Close()
      requires fs.Valid()
      modifies fs
      ensures fs.Valid() && fs.Model() == CloseSpec(old(fs.Model()))
      ensures fs.root == old(fs.root) && output.buffer.bytes == old(output.buffer.bytes)
    {
      fs.Close();
    }
  }
}
