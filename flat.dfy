/**
 * FlatFileSystem: an in-memory tree of the hierarchical paths, whose file
 * contents live in an inner store under flat names. The class extends the
 * in-memory store; that part is the field `disk`, and the class keeps its
 * own open state besides the one of `disk`. Its constructor is split in
 * two: the constructor sets the fields, and Populate is the attempt that
 * opens the inner store and rebuilds the tree from its flat names.
 */
module FlatStore {
  import opened FileSystem
  import opened FilePaths
  import opened RamTree
  import opened RamStore
  import opened FlatNames
  import opened ByteStreams
  import Listing

  /** createFileNode: the file node at the parts, created with its missing folders, or the error. */
  function CreateNodeSpec(d: DiskState, parts: seq<string>): (r: (Outcome, DiskState))
    requires d.root.Folder?
    ensures r.1.root.Folder?
  {
    match CreateFile(d.root, parts, d.nextId)
    case Err(e) => (Fail(e), d)
    case Ok((m, _)) => (Pass, d.(root := m, nextId := d.nextId + 1))
  }

  lemma CreateNodeValid(d: DiskState, parts: seq<string>)
    requires DiskValid(d) && AllValid(parts)
    ensures DiskValid(CreateNodeSpec(d, parts).1)
  {
    if CreateFile(d.root, parts, d.nextId).Ok? {
      IdsBelowMono(d.root, d.nextId, d.nextId + 1);
      CreateFileIds(d.root, parts, d.nextId, d.nextId + 1);
      if parts != [] {
        CreateFileOk(d.root, parts, d.nextId);
      }
    }
  }

  /**
   * createFileNode succeeds unless a file lies on the way or a folder sits
   * at the path; then a file is at the path and every file already there
   * stays.
   */
  lemma CreateNodeFacts(d: DiskState, parts: seq<string>, q: seq<string>)
    requires DiskValid(d) && AllValid(parts) && parts != []
    ensures var (o, after) := CreateNodeSpec(d, parts);
      (o.Pass? <==> !FileOnWay(d.root, parts[..|parts| - 1]) && !IsFolderAt(d.root, parts)) &&
      (o.Pass? ==> IsFileAt(after.root, parts) && (IsFileAt(d.root, q) ==> IsFileAt(after.root, q)))
  {
    CreateFileFails(d.root, parts, d.nextId);
    if CreateFile(d.root, parts, d.nextId).Ok? {
      CreateFileOk(d.root, parts, d.nextId);
      CreateFileKeeps(d.root, parts, d.nextId, q);
    }
  }

  /** The path a name listed in the inner store stands for. */
  function FlatPath(v: FilePath): (r: Result<FilePath>)
    ensures v.absolute && r.Ok? ==> Normal(r.value)
  {
    FromFlat(ToString(v))
  }

  /** The decoding of each listed name, in order. */
  function Decoded(names: seq<FilePath>): (r: seq<Result<FilePath>>)
    ensures |r| == |names|
  {
    seq(|names|, k requires 0 <= k < |names| => FlatPath(names[k]))
  }

  /** The paths that decoded can be created in a well-formed tree. */
  predicate ValidTargets(targets: seq<Result<FilePath>>)
  {
    forall k :: 0 <= k < |targets| ==> targets[k].Ok? ==> AllValid(targets[k].value.parts)
  }

  /** The names a listing gives are absolute, so whatever decodes is a normal path. */
  lemma DecodedValid(names: seq<FilePath>)
    requires forall k :: 0 <= k < |names| ==> names[k].absolute
    ensures ValidTargets(Decoded(names))
  {
    forall k | 0 <= k < |names| && Decoded(names)[k].Ok?
      ensures AllValid(Decoded(names)[k].value.parts)
    {
      assert Decoded(names)[k] == FlatPath(names[k]);
    }
  }

  /** visit: a name that did not decode fails with its error; a decoded one gets its file node. */
  function VisitSpec(d: DiskState, t: Result<FilePath>): (r: (Outcome, DiskState))
    requires d.root.Folder?
    ensures r.1.root.Folder?
    ensures r.0.Pass? ==> t.Ok?
    ensures t.Err? ==> r.1 == d
  {
    if t.Err? then (Fail(t.error), d) else CreateNodeSpec(d, t.value.parts)
  }

  /**
   * The rebuilding of the tree from the decoded names, in order: each path
   * is created; the first failure stops it and leaves the tree as built so
   * far.
   */
  function Rebuild(d: DiskState, targets: seq<Result<FilePath>>): (r: (Outcome, DiskState))
    requires d.root.Folder?
    ensures r.1.root.Folder?
    decreases |targets|
  {
    if targets == [] then (Pass, d)
    else
      var (o, d1) := Rebuild(d, targets[..|targets| - 1]);
      if o.Fail? then (o, d1) else VisitSpec(d1, targets[|targets| - 1])
  }

  /** One more name after a prefix that passed: its decoding failure, or the creation of its file node. */
  lemma {:induction false} RebuildStep(d: DiskState, targets: seq<Result<FilePath>>, i: nat)
    requires d.root.Folder? && i < |targets| && Rebuild(d, targets[..i]).0.Pass?
    ensures Rebuild(d, targets[..i + 1]) == VisitSpec(Rebuild(d, targets[..i]).1, targets[i])
  {
    var t := targets[..i + 1];
    assert t[..|t| - 1] == targets[..i];
    assert t[|t| - 1] == targets[i];
  }

  /** Once a prefix of the names has failed, the rest is never looked at. */
  lemma {:induction false} RebuildStops(d: DiskState, targets: seq<Result<FilePath>>, i: nat)
    requires d.root.Folder? && i <= |targets| && Rebuild(d, targets[..i]).0.Fail?
    ensures Rebuild(d, targets) == Rebuild(d, targets[..i])
    decreases |targets|
  {
    if i < |targets| {
      var init := targets[..|targets| - 1];
      assert init[..i] == targets[..i];
      RebuildStops(d, init, i);
    } else {
      assert targets[..i] == targets;
    }
  }

  /**
   * A complete rebuild has decoded every name and put a file at each
   * decoded path (the root path excepted), keeping the files already there;
   * the tree stays well formed whatever the outcome.
   */
  lemma {:induction false} RebuildFacts(d: DiskState, targets: seq<Result<FilePath>>)
    requires DiskValid(d) && ValidTargets(targets)
    ensures DiskValid(Rebuild(d, targets).1)
    ensures Rebuild(d, targets).0.Pass? ==>
      forall k :: 0 <= k < |targets| ==>
        targets[k].Ok? && (targets[k].value.parts == [] || IsFileAt(Rebuild(d, targets).1.root, targets[k].value.parts))
    ensures Rebuild(d, targets).0.Pass? ==>
      forall q :: IsFileAt(d.root, q) ==> IsFileAt(Rebuild(d, targets).1.root, q)
    decreases |targets|
  {
    if targets != [] {
      var init := targets[..|targets| - 1];
      var last := targets[|targets| - 1];
      assert ValidTargets(init) by {
        forall k | 0 <= k < |init| ensures init[k].Ok? ==> AllValid(init[k].value.parts) {
          assert init[k] == targets[k];
        }
      }
      RebuildFacts(d, init);
      var (o, d1) := Rebuild(d, init);
      if o.Pass? && last.Ok? {
        var parts := last.value.parts;
        CreateNodeValid(d1, parts);
        var d2 := CreateNodeSpec(d1, parts).1;
        if CreateNodeSpec(d1, parts).0.Pass? {
          forall q | IsFileAt(d1.root, q)
            ensures IsFileAt(d2.root, q)
          {
            if parts != [] {
              CreateNodeFacts(d1, parts, q);
            }
          }
          forall k | 0 <= k < |targets|
            ensures targets[k].Ok?
            ensures targets[k].value.parts == [] || IsFileAt(d2.root, targets[k].value.parts)
          {
            if k < |init| {
              assert targets[k] == init[k];
            } else if parts != [] {
              CreateNodeFacts(d1, parts, []);
            }
          }
        }
      }
    }
  }

  /**
   * A file of the inner store's root named after the flat name of a path
   * stands for that path.
   */
  lemma FlatPathOfFlatName(p: FilePath)
    requires Normal(p) && Latin1(ToString(p))
    ensures FlatPath(FilePath([ToFlat(p)], true)) == Ok(p)
  {
    ToFlatHex(p);
    assert ToString(FilePath([ToFlat(p)], true)) == "/" + ToFlat(p);
    FlatRoundTrip(p);
  }

  class FlatFileSystem {
    /** The in-memory store the class extends: the tree of hierarchical paths. */
    const disk: RamDisk
    /** The store holding the contents under flat names. */
    const inner: RamDisk
    /** The class's own open state, distinct from that of `disk`. */
    var state: OpenState

    constructor (inner: RamDisk)
      ensures fresh(disk) && disk.Valid() && disk.Model() == Fresh()
      ensures this.inner == inner && state == Uninitialized
    {
      disk := new RamDisk();
      this.inner := inner;
      state := Uninitialized;
    }

    /**
     * The rest of the constructor: open the inner store and create a file
     * node for every name a recursive listing of it finds. A file-system
     * failure is caught and leaves the store closed; a malformed pair of
     * digits is not, and the constructor fails with it.
     */
    method Populate() returns (o: Outcome)
      requires disk.Valid() && inner.Valid() && disk != inner
      modifies this, disk, inner
      ensures disk.Valid() && inner.Valid()
      ensures var (started, d1) := OpenSpec(old(inner.Model()));
        inner.Model() == d1 &&
        if started.Fail? then o == Pass && state == Closed && disk.Model() == old(disk.Model())
        else
          var (built, d2) := Rebuild(old(disk.Model()), Decoded(Listing.Visits(d1.root, [])));
          disk.Model() == d2 &&
          (built.Pass? ==> o == Pass && state == old(state)) &&
          (built.Fail? && IsFileSystemException(built.error) ==> o == Pass && state == Closed) &&
          (built.Fail? && !IsFileSystemException(built.error) ==> o == built && state == old(state))
    {
      var started := inner.Open();
      if started.Fail? {
        state := Closed;
        return Pass;
      }
      var visited := Listing.CrawlAll(inner);
      forall k | 0 <= k < |visited|
        ensures visited[k].absolute
      {
        Listing.VisitsSound(inner.root, [], visited[k]);
      }
      o := CreateAll(visited);
    }

    /** The visits of the listing: each name decoded and its file node created, up to the first failure. */
    method CreateAll(visited: seq<FilePath>) returns (o: Outcome)
      requires disk.Valid() && forall k :: 0 <= k < |visited| ==> visited[k].absolute
      modifies this, disk
      ensures disk.Valid()
      ensures var (built, d2) := Rebuild(old(disk.Model()), Decoded(visited));
        disk.Model() == d2 &&
        (built.Pass? ==> o == Pass && state == old(state)) &&
        (built.Fail? && IsFileSystemException(built.error) ==> o == Pass && state == Closed) &&
        (built.Fail? && !IsFileSystemException(built.error) ==> o == built && state == old(state))
    {
      ghost var d0 := disk.Model();
      ghost var targets := Decoded(visited);
      var i := 0;
      while i < |visited|
        invariant 0 <= i <= |visited| && disk.Valid() && state == old(state)
        invariant Rebuild(d0, targets[..i]) == (Pass, disk.Model())
      {
        assert targets[i] == FlatPath(visited[i]);
        RebuildStep(d0, targets, i);
        var visitedOk := Visit(visited[i]);
        if visitedOk.Fail? {
          RebuildStops(d0, targets, i + 1);
          if IsFileSystemException(visitedOk.error) {
            state := Closed;
            return Pass;
          }
          return visitedOk;
        }
        i := i + 1;
      }
      assert targets[..i] == targets;
      o := Pass;
    }

    /** visit: decode the listed name and create its file node. */
    method Visit(v: FilePath) returns (o: Outcome)
      requires disk.Valid() && v.absolute
      modifies disk
      ensures disk.Valid() && (o, disk.Model()) == VisitSpec(old(disk.Model()), FlatPath(v))
    {
      var fp := FlatPath(v);
      if fp.Err? {
        return Fail(fp.error);
      }
      o := CreateFileNode(fp.value);
    }

    /** createFileNode, inherited from the in-memory store. */
    method CreateFileNode(fp: FilePath) returns (o: Outcome)
      requires disk.Valid() && AllValid(fp.parts)
      modifies disk
      ensures disk.Valid() && (o, disk.Model()) == CreateNodeSpec(old(disk.Model()), fp.parts)
      ensures o.Fail? ==> IsFileSystemException(o.error)
    {
      CreateNodeValid(disk.Model(), fp.parts);
      CreateFileFails(disk.root, fp.parts, disk.nextId);
      match CreateFile(disk.root, fp.parts, disk.nextId)
      case Err(e) =>
        o := Fail(e);
      case Ok(created) =>
        disk.root := created.0;
        disk.nextId := disk.nextId + 1;
        o := Pass;
    }

    /** open: the tree's open first, then the class's own check. */
    method Open() returns (o: Outcome)
      requires disk.Valid()
      modifies this, disk
      ensures disk.Valid()
      ensures var (o1, d1) := OpenSpec(old(disk.Model()));
        disk.Model() == d1 &&
        if o1.Fail? then o == o1 && state == old(state)
        else if old(state) == Closed then o == Fail(AlreadyClosed) && state == Closed
        else o == Pass && state == OpenState.Open
    {
      o := disk.Open();
      if o.Fail? {
        return;
      }
      if state == Closed {
        return Fail(AlreadyClosed);
      }
      state := OpenState.Open;
    }

    /** close: the tree is closed in any case; a second close fails before the inner store is closed. */
    method Close() returns (o: Outcome)
      requires disk.Valid() && inner.Valid() && disk != inner
      modifies this, disk, inner
      ensures disk.Valid() && inner.Valid() && disk.Model() == CloseSpec(old(disk.Model()))
      ensures old(state) == Closed ==> o == Fail(AlreadyClosed) && state == Closed && inner.Model() == old(inner.Model())
      ensures old(state) != Closed ==> o == Pass && state == Closed && inner.Model() == CloseSpec(old(inner.Model()))
    {
      disk.Close();
      if state == Closed {
        return Fail(AlreadyClosed);
      }
      state := Closed;
      inner.Close();
      o := Pass;
    }

    /** readFrom: the inner store's stream for the flat name of the resolved path; the tree is not consulted. */
    method ReadFrom(filename: string) returns (r: Result<ByteInputStream>)
      ensures var flat := ToFlat(Resolve(disk.Model(), filename));
        (ReadSpec(inner.Model(), flat).Err? ==> r == Err(ReadSpec(inner.Model(), flat).error)) &&
        (ReadSpec(inner.Model(), flat).Ok? ==>
          r.Ok? && fresh(r.value) && r.value.Valid() && r.value.Remaining() == ReadSpec(inner.Model(), flat).value)
    {
      var fp := ChdirStr(disk.cwd, filename);
      r := inner.ReadFrom(ToFlat(fp));
    }

    /**
     * writeTo: the path is registered in the tree, then the inner store's
     * stream for its flat name is returned; a path the tree refuses fails
     * before the inner store is touched.
     */
    method WriteTo(filename: string) returns (r: Result<RamOutputStream>)
      requires disk.Valid() && inner.Valid() && disk != inner
      modifies disk, inner
      ensures disk.Valid() && inner.Valid()
      ensures var fp := Resolve(old(disk.Model()), filename);
        var (created, d1) := CreateNodeSpec(old(disk.Model()), fp.parts);
        disk.Model() == d1 &&
        if created.Fail? then r == Err(created.error) && inner.Model() == old(inner.Model())
        else
          var (res, after) := WriteToSpec(old(inner.Model()), ToFlat(fp));
          inner.Model() == after && r.Ok? == res.Ok? && (r.Err? ==> r.error == res.error) &&
          (r.Ok? ==> fresh(r.value) && r.value.disk == inner && r.value.target == res.value && r.value.buffer.bytes == [])
    {
      var fp := ChdirStr(disk.cwd, filename);
      ChdirStrValid(disk.cwd, filename);
      var created := CreateFileNode(fp);
      if created.Fail? {
        return Err(created.error);
      }
      r := inner.WriteTo(ToFlat(fp));
    }

    /** delete: the path leaves the tree first; only then is its flat name deleted from the inner store. */
    method Delete(filename: string) returns (o: Outcome)
      requires disk.Valid() && inner.Valid() && disk != inner
      modifies disk, inner
      ensures disk.Valid() && inner.Valid()
      ensures var fp := Resolve(old(disk.Model()), filename);
        var (deleted, d1) := DeleteSpec(old(disk.Model()), filename);
        disk.Model() == d1 &&
        if deleted.Fail? then o == deleted && inner.Model() == old(inner.Model())
        else (o, inner.Model()) == DeleteSpec(old(inner.Model()), ToFlat(fp))
    {
      var fp := ChdirStr(disk.cwd, filename);
      o := disk.Delete(filename);
      if o.Fail? {
        return;
      }
      o := inner.Delete(ToFlat(fp));
    }
  }

  /** A flat name, resolved in the inner store, is one more name below its current directory. */
  lemma FlatResolve(inner: DiskState, p: FilePath)
    requires DiskValid(inner)
    ensures Resolve(inner, ToFlat(p)) == FilePath(inner.cwd.parts + [ToFlat(p)], inner.cwd.absolute)
  {
    ToFlatHex(p);
    ChdirName(inner.cwd, ToFlat(p));
  }

  /**
   * What is written through the flat store under a path is read back
   * through it under the same path: closing the stream writeTo returns
   * stores the bytes under the flat name that readFrom looks up.
   */
  lemma FlatWriteThenRead(d: DiskState, inner: DiskState, filename: string, bytes: seq<byte>)
    requires DiskValid(d) && DiskValid(inner)
    requires WriteToSpec(inner, ToFlat(Resolve(d, filename))).0.Ok?
    ensures var flat := ToFlat(Resolve(d, filename));
      var (r, i1) := WriteToSpec(inner, flat);
      var (o, i2) := CommitSpec(i1, r.value, bytes);
      o == Pass && ReadSpec(i2, flat) == Ok(bytes)
  {
    FlatResolve(inner, Resolve(d, filename));
    WriteThenRead(inner, ToFlat(Resolve(d, filename)), bytes);
  }

  /** After a successful delete through the flat store, the inner store no longer has the flat file. */
  lemma FlatDeleteRemoves(inner: DiskState, p: FilePath)
    requires DiskValid(inner) && DeleteSpec(inner, ToFlat(p)).0.Pass?
    ensures !IsFileSpec(DeleteSpec(inner, ToFlat(p)).1, ToFlat(p))
  {
    DeleteFacts(inner, ToFlat(p));
  }
}
