/**
 * The in-memory store. Its state is the lifecycle flag, the current
 * directory, the stack of earlier directories (top last), the node tree and
 * the identity the next new file node gets. Each operation is specified by a
 * function from the old state to its outcome and the new state; the class
 * `RamDisk` performs the operations on its fields and is proved to follow
 * those functions, and the lemmas state what the operations promise.
 */
module RamStore {
  import opened FileSystem
  import opened FilePaths
  import opened RamTree
  import opened ByteStreams

  datatype DiskState = DiskState(
    state: OpenState,
    cwd: FilePath,
    stack: seq<FilePath>,
    root: Node,
    nextId: nat)

  /** What an output stream of the store is bound to: no node (the root path), or a file node by path and identity. */
  datatype Target = NoNode | FileNode(parts: seq<string>, id: nat)

  /**
   * The invariant of the store: a well-formed folder tree whose file
   * identities are all below the next one, and normalised absolute paths as
   * current directory and on the stack.
   */
  predicate DiskValid(d: DiskState)
  {
    d.root.Folder? && Wf(d.root) && IdsBelow(d.root, d.nextId) && Normal(d.cwd) &&
    forall i :: 0 <= i < |d.stack| ==> Normal(d.stack[i])
  }

  /** A new store: uninitialised, at the root, with an empty stack and an empty root folder. */
  function Fresh(): DiskState
  {
    DiskState(Uninitialized, Parse(""), [], Folder("", []), 0)
  }

  /** The absolute path a string argument designates, relative to the current directory. */
  function Resolve(d: DiskState, path: string): FilePath
  {
    ChdirStr(d.cwd, path)
  }

  // ---------------------------------------------------------------------
  // The operations, as functions of the state

  function OpenSpec(d: DiskState): (Outcome, DiskState)
  {
    if d.state == Closed then (Fail(AlreadyClosed), d) else (Pass, d.(state := Open))
  }

  function CloseSpec(d: DiskState): DiskState
  {
    d.(state := Closed)
  }

  /** ls on a path object: the names of the children of the folder at cwd.chdir(fp), in order. */
  function ListSpec(d: DiskState, fp: FilePath): Result<seq<string>>
  {
    var p := Chdir(d.cwd, fp);
    match Locate(d.root, p.parts)
    case Some(Folder(_, children)) => Ok(Names(children))
    case _ => Err(NoSuchDirectory)
  }

  /** ls(): the listing of the current directory. */
  function LsSpec(d: DiskState): Result<seq<string>>
  {
    ListSpec(d, d.cwd)
  }

  /**
   * ls(path): the path is resolved against the current directory, then
   * listed as ls(FilePath) does; that second chdir leaves the absolute
   * result as it is.
   */
  function LsPathSpec(d: DiskState, path: string): Result<seq<string>>
  {
    ListSpec(d, Resolve(d, path))
  }

  function IsDirSpec(d: DiskState, path: string): bool
  {
    IsFolderAt(d.root, Resolve(d, path).parts)
  }

  function IsFileSpec(d: DiskState, path: string): (b: bool)
    ensures b ==> !IsDirSpec(d, path)
  {
    IsFileAt(d.root, Resolve(d, path).parts)
  }

  /** readFrom: the contents of the file at the path; anything else is not a file. */
  function ReadSpec(d: DiskState, path: string): (r: Result<seq<byte>>)
    ensures r.Ok? <==> IsFileSpec(d, path)
    ensures r.Err? ==> r.error == NotAFile(ToString(Resolve(d, path)))
  {
    match Locate(d.root, Resolve(d, path).parts)
    case Some(File(_, _, contents)) => Ok(contents)
    case _ => Err(NotAFile(ToString(Resolve(d, path))))
  }

  /** getSize: the length of the file at the path; any other path fails as a directory. */
  function SizeSpec(d: DiskState, path: string): (r: Result<nat>)
    ensures r.Ok? <==> IsFileSpec(d, path)
    ensures r.Err? ==> r.error == PathIsDirectory
    ensures r.Ok? ==> r.value == |ReadSpec(d, path).value|
  {
    match Locate(d.root, Resolve(d, path).parts)
    case Some(File(_, _, contents)) => Ok(|contents|)
    case _ => Err(PathIsDirectory)
  }

  /**
   * writeTo: create the file node (and its missing folders) now; the stream
   * returned is bound to that node.
   */
  function WriteToSpec(d: DiskState, path: string): (Result<Target>, DiskState)
    requires d.root.Folder?
  {
    var fp := Resolve(d, path);
    match CreateFile(d.root, fp.parts, d.nextId)
    case Err(e) => (Err(e), d)
    case Ok((m, t)) =>
      (Ok(if t.Some? then FileNode(fp.parts, t.value) else NoNode), d.(root := m, nextId := d.nextId + 1))
  }

  /** chdir and pushd: push the current directory and move; the store must be open. */
  function ChdirSpec(d: DiskState, path: string): (Outcome, DiskState)
  {
    if d.state != Open then (Fail(NotOpen), d)
    else (Pass, d.(stack := d.stack + [d.cwd], cwd := Resolve(d, path)))
  }

  /** popd: pop the directory stack, or return to the root when it is empty; the store must be open. */
  function PopdSpec(d: DiskState): (Outcome, DiskState)
  {
    if d.state != Open then (Fail(NotOpen), d)
    else if d.stack == [] then (Pass, d.(cwd := Parse("")))
    else (Pass, d.(cwd := d.stack[|d.stack| - 1], stack := d.stack[..|d.stack| - 1]))
  }

  function MkdirSpec(d: DiskState, path: string): (Outcome, DiskState)
    requires d.root.Folder?
  {
    match CreateFolder(d.root, Resolve(d, path).parts)
    case Ok(m) => (Pass, d.(root := m))
    case Err(e) => (Fail(e), d)
  }

  /** rmdir: the folder leaves its parent; the root, which has no parent, loses its children instead. */
  function RmdirSpec(d: DiskState, path: string): (Outcome, DiskState)
  {
    var parts := Resolve(d, path).parts;
    if !IsFolderAt(d.root, parts) then (Fail(NoSuchDirectory), d)
    else if parts == [] then (Pass, d.(root := Folder(d.root.name, [])))
    else (Pass, d.(root := RemoveAt(d.root, parts)))
  }

  /** delete: the file leaves its parent (a node without parent would stay). */
  function DeleteSpec(d: DiskState, path: string): (Outcome, DiskState)
  {
    var parts := Resolve(d, path).parts;
    if !IsFileAt(d.root, parts) then (Fail(NoSuchFile), d)
    else if parts == [] then (Pass, d)
    else (Pass, d.(root := RemoveAt(d.root, parts)))
  }

  function PwdSpec(d: DiskState): string
  {
    ToString(d.cwd)
  }

  /**
   * close of an output stream: the node it is bound to receives the bytes
   * written; a stream bound to no node dereferences null.
   */
  function CommitSpec(d: DiskState, target: Target, bytes: seq<byte>): (Outcome, DiskState)
  {
    match target
    case NoNode => (Fail(NullReference), d)
    case FileNode(parts, id) => (Pass, d.(root := WriteContents(d.root, parts, id, bytes)))
  }

  // ---------------------------------------------------------------------
  // The invariant is kept

  lemma FreshValid()
    ensures DiskValid(Fresh()) && PwdSpec(Fresh()) == "/"
  {
    var empty := Folder("", []);
    ParseEmpty();
    assert Fresh() == DiskState(Uninitialized, FilePath([], true), [], empty, 0);
    assert Wf(empty) && IdsBelow(empty, 0);
  }

  /** A resolved path is normal when the current directory is. */
  lemma ResolveNormal(d: DiskState, path: string)
    requires Normal(d.cwd)
    ensures Normal(Resolve(d, path))
  {
    ChdirStrValid(d.cwd, path);
  }

  lemma WriteToValid(d: DiskState, path: string)
    requires DiskValid(d)
    ensures DiskValid(WriteToSpec(d, path).1)
  {
    var parts := Resolve(d, path).parts;
    ResolveNormal(d, path);
    if CreateFile(d.root, parts, d.nextId).Ok? {
      IdsBelowMono(d.root, d.nextId, d.nextId + 1);
      CreateFileIds(d.root, parts, d.nextId, d.nextId + 1);
      if parts != [] {
        CreateFileOk(d.root, parts, d.nextId);
      }
    }
  }

  lemma MkdirValid(d: DiskState, path: string)
    requires DiskValid(d)
    ensures DiskValid(MkdirSpec(d, path).1)
  {
    var parts := Resolve(d, path).parts;
    ResolveNormal(d, path);
    if CreateFolder(d.root, parts).Ok? {
      CreateFolderOk(d.root, parts);
      CreateFolderIds(d.root, parts, d.nextId);
    }
  }

  lemma RmdirValid(d: DiskState, path: string)
    requires DiskValid(d)
    ensures DiskValid(RmdirSpec(d, path).1)
  {
    var parts := Resolve(d, path).parts;
    if IsFolderAt(d.root, parts) && parts != [] {
      RemoveAtWf(d.root, parts);
      RemoveAtIds(d.root, parts, d.nextId);
    }
  }

  lemma DeleteValid(d: DiskState, path: string)
    requires DiskValid(d)
    ensures DiskValid(DeleteSpec(d, path).1)
  {
    var parts := Resolve(d, path).parts;
    if IsFileAt(d.root, parts) && parts != [] {
      RemoveAtWf(d.root, parts);
      RemoveAtIds(d.root, parts, d.nextId);
    }
  }

  lemma ChdirValid(d: DiskState, path: string)
    requires DiskValid(d)
    ensures DiskValid(ChdirSpec(d, path).1)
  {
    ResolveNormal(d, path);
  }

  lemma PopdValid(d: DiskState)
    requires DiskValid(d)
    ensures DiskValid(PopdSpec(d).1)
  {
    ParseEmpty();
  }

  lemma CommitValid(d: DiskState, target: Target, bytes: seq<byte>)
    requires DiskValid(d)
    ensures DiskValid(CommitSpec(d, target, bytes).1)
  {
    if target.FileNode? {
      WriteContentsWf(d.root, target.parts, target.id, bytes);
      WriteContentsIds(d.root, target.parts, target.id, bytes, d.nextId);
    }
  }

  // ---------------------------------------------------------------------
  // What the operations promise

  /**
   * The lifecycle: open fails, with no change, only once the store is
   * closed, and otherwise opens it; close always closes; neither moves
   * backwards.
   */
  lemma OpenCloseLifecycle(d: DiskState)
    ensures OpenSpec(d).0.Fail? <==> d.state == Closed
    ensures OpenSpec(d).0.Fail? ==> OpenSpec(d) == (Fail(AlreadyClosed), d)
    ensures OpenSpec(d).0.Pass? ==> OpenSpec(d).1 == d.(state := Open)
    ensures Forward(d.state, OpenSpec(d).1.state) && Forward(d.state, CloseSpec(d).state)
    ensures CloseSpec(d) == d.(state := Closed)
  {
  }

  /** chdir, pushd and popd are the operations that demand an open store. */
  lemma NavigationNeedsOpen(d: DiskState, path: string)
    ensures ChdirSpec(d, path).0 == Fail(NotOpen) <==> d.state != Open
    ensures PopdSpec(d).0 == Fail(NotOpen) <==> d.state != Open
    ensures d.state != Open ==> ChdirSpec(d, path).1 == d && PopdSpec(d).1 == d
  {
  }

  /** The other operations neither read nor change the lifecycle state. */
  lemma CommandsIgnoreState(d: DiskState, path: string, s: OpenState)
    requires d.root.Folder?
    ensures var e := d.(state := s);
      MkdirSpec(e, path) == (MkdirSpec(d, path).0, MkdirSpec(d, path).1.(state := s)) &&
      RmdirSpec(e, path) == (RmdirSpec(d, path).0, RmdirSpec(d, path).1.(state := s)) &&
      DeleteSpec(e, path) == (DeleteSpec(d, path).0, DeleteSpec(d, path).1.(state := s))
  {
  }

  /** The other operations neither read nor change the lifecycle state. */
  lemma QueriesIgnoreState(d: DiskState, path: string, s: OpenState)
    requires d.root.Folder?
    ensures var e := d.(state := s);
      WriteToSpec(e, path) == (WriteToSpec(d, path).0, WriteToSpec(d, path).1.(state := s)) &&
      LsPathSpec(e, path) == LsPathSpec(d, path) && ReadSpec(e, path) == ReadSpec(d, path)
  {
  }

  /** popd returns to the directory that was current before the last successful chdir or pushd. */
  lemma PopdUndoesChdir(d: DiskState, path: string)
    requires ChdirSpec(d, path).0 == Pass
    ensures PopdSpec(ChdirSpec(d, path).1) == (Pass, d)
  {
    var d1 := ChdirSpec(d, path).1;
    assert d1.stack[..|d1.stack| - 1] == d.stack;
  }

  /** popd on an empty stack returns to the root "/". */
  lemma PopdEmptyStack(d: DiskState)
    requires d.state == Open && d.stack == []
    ensures PopdSpec(d).0 == Pass && PwdSpec(PopdSpec(d).1) == "/"
  {
    ParseEmpty();
  }

  /** chdir and pushd accept a name relative to the current directory. */
  lemma ChdirIntoName(d: DiskState, name: string)
    requires DiskValid(d) && d.state == Open && ValidName(name)
    ensures ChdirSpec(d, name).1.cwd == FilePath(d.cwd.parts + [name], true)
  {
    ChdirName(d.cwd, name);
  }

  /**
   * writeTo fails when a file lies on the way to the last name (an invalid
   * path) or when the last name is a folder, and changes nothing then.
   */
  lemma WriteToFails(d: DiskState, path: string)
    requires DiskValid(d)
    ensures var parts := Resolve(d, path).parts;
      var (r, after) := WriteToSpec(d, path);
      (r == Err(InvalidPath) <==> parts != [] && FileOnWay(d.root, parts[..|parts| - 1])) &&
      (r == Err(FolderExists) <==> parts != [] && IsDirSpec(d, path)) &&
      (r.Err? ==> after == d && (r.error == InvalidPath || r.error == FolderExists))
  {
    CreateFileFails(d.root, Resolve(d, path).parts, d.nextId);
  }

  /** writeTo on the root itself gives a stream bound to no node and leaves the tree alone. */
  lemma WriteToRoot(d: DiskState, path: string)
    requires DiskValid(d) && Resolve(d, path).parts == []
    ensures WriteToSpec(d, path).0 == Ok(NoNode) && WriteToSpec(d, path).1.root == d.root
  {
  }

  /**
   * A successful writeTo puts a file at the path at once: the existing file,
   * untouched, or a new empty one. The stream is bound to that file node.
   */
  lemma WriteToCreates(d: DiskState, path: string)
    requires DiskValid(d) && Resolve(d, path).parts != [] && WriteToSpec(d, path).0.Ok?
    ensures var parts := Resolve(d, path).parts;
      var (r, after) := WriteToSpec(d, path);
      IsFileSpec(after, path) &&
      r.value == FileNode(parts, Locate(after.root, parts).value.id) &&
      (IsFileSpec(d, path) ==> after.root == d.root) &&
      (!IsFileSpec(d, path) ==> ReadSpec(after, path) == Ok([]))
  {
    ResolveNormal(d, Resolve(d, path).parts[0]);
    ChdirStrValid(d.cwd, path);
    CreateFileOk(d.root, Resolve(d, path).parts, d.nextId);
  }

  /** writeTo keeps every other file as it was, and every folder a folder. */
  lemma WriteToKeeps(d: DiskState, path: string, q: seq<string>)
    requires DiskValid(d) && WriteToSpec(d, path).0.Ok?
    ensures IsFileAt(d.root, q) ==> Locate(WriteToSpec(d, path).1.root, q) == Locate(d.root, q)
    ensures IsFolderAt(d.root, q) ==> IsFolderAt(WriteToSpec(d, path).1.root, q)
  {
    CreateFileKeeps(d.root, Resolve(d, path).parts, d.nextId, q);
  }

  /**
   * Closing the stream that writeTo returned makes the file hold exactly the
   * bytes written to it.
   */
  lemma WriteThenRead(d: DiskState, path: string, bytes: seq<byte>)
    requires DiskValid(d) && Resolve(d, path).parts != [] && WriteToSpec(d, path).0.Ok?
    ensures var (r, d1) := WriteToSpec(d, path);
      var (o, d2) := CommitSpec(d1, r.value, bytes);
      o == Pass && ReadSpec(d2, path) == Ok(bytes)
  {
    var parts := Resolve(d, path).parts;
    var (r, d1) := WriteToSpec(d, path);
    WriteToCreates(d, path);
    WriteContentsAt(d1.root, parts, r.value.id, bytes);
  }

  /** A path on which a folder sits has no file on its way. */
  lemma {:induction false} FolderHasNoFileOnWay(n: Node, q: seq<string>)
    requires IsFolderAt(n, q)
    ensures !FileOnWay(n, q)
  {
    if q != [] {
      var k := Find(n.children, q[0]);
      assert Locate(n, q) == Locate(n.children[k], q[1..]);
      assert n.children[k].Folder? by {
        if q[1..] == [] {
          assert Locate(n.children[k], []) == Some(n.children[k]);
        }
      }
      FolderHasNoFileOnWay(n.children[k], q[1..]);
      FolderStep(n, q);
    }
  }

  /**
   * After a file is deleted, writeTo on the same path creates a new empty
   * file node with a new identity.
   */
  lemma RecreatedFile(d: DiskState, path: string)
    requires DiskValid(d) && IsFileSpec(d, path)
    ensures var parts := Resolve(d, path).parts;
      var (o2, d2) := DeleteSpec(d, path);
      var (r3, d3) := WriteToSpec(d2, path);
      o2 == Pass && r3.Ok? && d3.nextId == d.nextId + 1 &&
      Locate(d3.root, parts) == Some(File(parts[|parts| - 1], d.nextId, []))
  {
    var parts := Resolve(d, path).parts;
    assert parts != [];
    var d2 := DeleteSpec(d, path).1;
    DeleteValid(d, path);
    RemoveAtGone(d.root, parts);
    FolderHasNoFileOnWay(d2.root, parts[..|parts| - 1]);
    CreateFileFails(d2.root, parts, d2.nextId);
    ResolveNormal(d, path);
    CreateFileOk(d2.root, parts, d2.nextId);
  }

  /**
   * A stream whose file was deleted writes nowhere: after writeTo, delete and
   * a second writeTo on the same path, closing the first stream changes no
   * node, and the path holds the new, empty file.
   */
  lemma StaleStreamWritesNothing(d: DiskState, path: string, bytes: seq<byte>)
    requires DiskValid(d) && Resolve(d, path).parts != [] && WriteToSpec(d, path).0.Ok?
    ensures var (r1, d1) := WriteToSpec(d, path);
      var (o2, d2) := DeleteSpec(d1, path);
      var (r3, d3) := WriteToSpec(d2, path);
      var (o4, d4) := CommitSpec(d3, r1.value, bytes);
      o2 == Pass && r3.Ok? && o4 == Pass && d4.root == d3.root && ReadSpec(d4, path) == Ok([])
  {
    var parts := Resolve(d, path).parts;
    var (r1, d1) := WriteToSpec(d, path);
    WriteToCreates(d, path);
    WriteToValid(d, path);
    IdsBelowLocate(d1.root, d1.nextId, parts);
    RecreatedFile(d1, path);
    var d3 := WriteToSpec(DeleteSpec(d1, path).1, path).1;
    WriteContentsAt(d3.root, parts, r1.value.id, bytes);
  }

  /**
   * mkdir fails, as an invalid path and with no change, exactly when a file
   * lies on the way; otherwise a folder is at the path afterwards, and an
   * existing folder leaves the store unchanged.
   */
  lemma MkdirFacts(d: DiskState, path: string)
    requires DiskValid(d)
    ensures var (o, after) := MkdirSpec(d, path);
      (o.Fail? <==> FileOnWay(d.root, Resolve(d, path).parts)) &&
      (o.Fail? ==> o == Fail(InvalidPath) && after == d) &&
      (o.Pass? ==> IsDirSpec(after, path)) &&
      (IsDirSpec(d, path) ==> o == Pass && after == d)
  {
    var parts := Resolve(d, path).parts;
    ResolveNormal(d, path);
    CreateFolderFails(d.root, parts);
    if CreateFolder(d.root, parts).Ok? {
      CreateFolderOk(d.root, parts);
    }
    if IsDirSpec(d, path) {
      CreateFolderExisting(d.root, parts);
    }
  }

  /** mkdir keeps every file as it was, and every folder a folder. */
  lemma MkdirKeeps(d: DiskState, path: string, q: seq<string>)
    requires DiskValid(d)
    ensures IsFileAt(d.root, q) ==> Locate(MkdirSpec(d, path).1.root, q) == Locate(d.root, q)
    ensures IsFolderAt(d.root, q) ==> IsFolderAt(MkdirSpec(d, path).1.root, q)
  {
    if CreateFolder(d.root, Resolve(d, path).parts).Ok? {
      CreateFolderKeeps(d.root, Resolve(d, path).parts, q);
    }
  }

  /**
   * delete fails, with no change, unless the path is a file; afterwards the
   * path is neither a file nor a folder, while its parent folder remains.
   */
  lemma DeleteFacts(d: DiskState, path: string)
    requires DiskValid(d)
    ensures var parts := Resolve(d, path).parts;
      var (o, after) := DeleteSpec(d, path);
      (o == Fail(NoSuchFile) <==> !IsFileSpec(d, path)) &&
      (o.Fail? ==> after == d) &&
      (o.Pass? ==> (!IsFileSpec(after, path) && !IsDirSpec(after, path) &&
                    IsFolderAt(after.root, parts[..|parts| - 1])))
  {
    var parts := Resolve(d, path).parts;
    if IsFileAt(d.root, parts) {
      assert parts != [];
      RemoveAtGone(d.root, parts);
    }
  }

  /** delete keeps every file and folder that is not at or below the path. */
  lemma DeleteKeeps(d: DiskState, path: string, q: seq<string>)
    requires DiskValid(d) && !(Resolve(d, path).parts <= q)
    ensures IsFileAt(d.root, q) ==> Locate(DeleteSpec(d, path).1.root, q) == Locate(d.root, q)
    ensures IsFolderAt(d.root, q) ==> IsFolderAt(DeleteSpec(d, path).1.root, q)
  {
    var parts := Resolve(d, path).parts;
    if IsFileAt(d.root, parts) && parts != [] {
      RemoveAtKeeps(d.root, parts, q);
    }
  }

  /**
   * rmdir fails, with no change, unless the path is a folder; otherwise
   * nothing at or below the path remains, while its parent folder does. On
   * the root, every child goes.
   */
  lemma RmdirFacts(d: DiskState, path: string, q: seq<string>)
    requires DiskValid(d)
    ensures var parts := Resolve(d, path).parts;
      var (o, after) := RmdirSpec(d, path);
      (o == Fail(NoSuchDirectory) <==> !IsDirSpec(d, path)) &&
      (o.Fail? ==> after == d) &&
      (o.Pass? && parts <= q && q != [] ==> Locate(after.root, q) == None) &&
      (o.Pass? && parts != [] ==> IsFolderAt(after.root, parts[..|parts| - 1]))
  {
    var parts := Resolve(d, path).parts;
    if IsFolderAt(d.root, parts) && parts != [] {
      RemoveAtGone(d.root, parts);
      if parts <= q {
        RemoveAtSubtree(d.root, parts, q);
      }
    }
  }

  /** rmdir keeps every file and folder that is not at or below the path. */
  lemma RmdirKeeps(d: DiskState, path: string, q: seq<string>)
    requires DiskValid(d) && !(Resolve(d, path).parts <= q)
    ensures IsFileAt(d.root, q) ==> Locate(RmdirSpec(d, path).1.root, q) == Locate(d.root, q)
    ensures IsFolderAt(d.root, q) ==> IsFolderAt(RmdirSpec(d, path).1.root, q)
  {
    var parts := Resolve(d, path).parts;
    if IsFolderAt(d.root, parts) && parts != [] {
      RemoveAtKeeps(d.root, parts, q);
    }
  }

  /**
   * The names of the sample tree the tests populate: the folders abc, def,
   * ghi and jkl and the files a.txt to e.txt. The lemmas below hold for any
   * valid names that are distinct where they share a folder.
   */
  datatype SampleNaming = SampleNaming(abc: string, def: string, ghi: string, jkl: string,
                                       a: string, b: string, c: string, d: string, e: string)

  predicate Usable(s: SampleNaming)
  {
    ValidName(s.abc) && ValidName(s.def) && ValidName(s.ghi) && ValidName(s.jkl) &&
    ValidName(s.a) && ValidName(s.b) && ValidName(s.c) && ValidName(s.d) && ValidName(s.e) &&
    s.abc != s.def && s.abc != s.jkl && s.abc != s.e && s.def != s.jkl && s.def != s.e && s.jkl != s.e &&
    s.a != s.b && s.c != s.d && s.ghi != s.e
  }

  /** The names the tests use. */
  function TestNaming(): (s: SampleNaming)
    ensures Usable(s)
  {
    SampleNames();
    SampleNaming("abc", "def", "ghi", "jkl", "a.txt", "b.txt", "c.txt", "d.txt", "e.txt")
  }

  /** The names of the tests are valid names. */
  lemma SampleNames()
    ensures ValidName("abc") && ValidName("def") && ValidName("ghi") && ValidName("jkl")
    ensures ValidName("a.txt") && ValidName("b.txt") && ValidName("c.txt") && ValidName("d.txt")
    ensures ValidName("e.txt")
  {
    assert ValidName("abc") by { assert "abc"[0] == 'a' && "abc"[2] == 'c'; }
    assert ValidName("def") by { assert "def"[0] == 'd' && "def"[2] == 'f'; }
    assert ValidName("ghi") by { assert "ghi"[0] == 'g' && "ghi"[2] == 'i'; }
    assert ValidName("jkl") by { assert "jkl"[0] == 'j' && "jkl"[2] == 'l'; }
    assert ValidName("a.txt") by { assert "a.txt"[0] == 'a' && "a.txt"[4] == 't'; }
    assert ValidName("b.txt") by { assert "b.txt"[0] == 'b' && "b.txt"[4] == 't'; }
    assert ValidName("c.txt") by { assert "c.txt"[0] == 'c' && "c.txt"[4] == 't'; }
    assert ValidName("d.txt") by { assert "d.txt"[0] == 'd' && "d.txt"[4] == 't'; }
    assert ValidName("e.txt") by { assert "e.txt"[0] == 'e' && "e.txt"[4] == 't'; }
  }

  /**
   * The sample tree: folders abc (a.txt, b.txt), def (ghi with c.txt and
   * d.txt, then e.txt) and an empty jkl, then e.txt at the root. File
   * contents play no part in the listings and are left empty.
   */
  function SampleTree(s: SampleNaming): (n: Node)
    ensures n.Folder? && Names(n.children) == [s.abc, s.def, s.jkl, s.e]
  {
    Folder("", [
      Folder(s.abc, [File(s.a, 0, []), File(s.b, 1, [])]),
      Folder(s.def, [Folder(s.ghi, [File(s.c, 2, []), File(s.d, 3, [])]), File(s.e, 4, [])]),
      Folder(s.jkl, []),
      File(s.e, 5, [])])
  }

  /** The sample store: open, at the root, with an empty stack. */
  function SampleDisk(s: SampleNaming): (d: DiskState)
    requires Usable(s)
    ensures DiskValid(d) && PwdSpec(d) == "/"
  {
    var d := DiskState(Open, FilePath([], true), [], SampleTree(s), 6);
    assert Normal(d.cwd) && ToString(d.cwd) == "/";
    assert DiskValid(d) by { SampleTreeValid(s); }
    d
  }

  lemma SampleTreeValid(s: SampleNaming)
    requires Usable(s)
    ensures Wf(SampleTree(s)) && IdsBelow(SampleTree(s), 6)
  {
    var abc := Folder(s.abc, [File(s.a, 0, []), File(s.b, 1, [])]);
    var ghi := Folder(s.ghi, [File(s.c, 2, []), File(s.d, 3, [])]);
    var def := Folder(s.def, [ghi, File(s.e, 4, [])]);
    TwoChildren(s.abc, File(s.a, 0, []), File(s.b, 1, []), 6);
    TwoChildren(s.ghi, File(s.c, 2, []), File(s.d, 3, []), 6);
    TwoChildren(s.def, ghi, File(s.e, 4, []), 6);
    FourChildren("", abc, def, Folder(s.jkl, []), File(s.e, 5, []), 6);
  }

  /** A folder of two well-formed, differently named children is well formed. */
  lemma TwoChildren(name: string, x: Node, y: Node, bound: nat)
    requires Wf(x) && Wf(y) && IdsBelow(x, bound) && IdsBelow(y, bound)
    requires ValidName(x.name) && ValidName(y.name) && x.name != y.name
    ensures Wf(Folder(name, [x, y])) && IdsBelow(Folder(name, [x, y]), bound)
  {
  }

  /** A folder of four well-formed, differently named children is well formed. */
  lemma FourChildren(name: string, w: Node, x: Node, y: Node, z: Node, bound: nat)
    requires Wf(w) && Wf(x) && Wf(y) && Wf(z)
    requires IdsBelow(w, bound) && IdsBelow(x, bound) && IdsBelow(y, bound) && IdsBelow(z, bound)
    requires ValidName(w.name) && ValidName(x.name) && ValidName(y.name) && ValidName(z.name)
    requires w.name != x.name && w.name != y.name && w.name != z.name
    requires x.name != y.name && x.name != z.name && y.name != z.name
    ensures Wf(Folder(name, [w, x, y, z])) && IdsBelow(Folder(name, [w, x, y, z]), bound)
  {
  }

  /** ls() at the root lists the four entries in order of creation. */
  lemma SampleRootListing(s: SampleNaming)
    requires Usable(s)
    ensures LsSpec(SampleDisk(s)) == Ok([s.abc, s.def, s.jkl, s.e])
  {
  }

  /** After chdir("abc"), ls() lists the two files of abc. */
  lemma SampleChdirListing(s: SampleNaming)
    requires Usable(s)
    ensures ChdirSpec(SampleDisk(s), s.abc).1.cwd == FilePath([s.abc], true)
    ensures LsSpec(ChdirSpec(SampleDisk(s), s.abc).1) == Ok([s.a, s.b])
  {
    var root := SampleTree(s);
    ChdirName(FilePath([], true), s.abc);
    assert Find(root.children, s.abc) == 0;
    assert Locate(root, [s.abc]) == Some(root.children[0]);
    assert Names(root.children[0].children) == [s.a, s.b];
  }

  /**
   * From abc in the sample tree (where chdir("abc") leads), ls("../def/ghi/")
   * climbs up and lists the two files of def/ghi.
   */
  lemma SampleClimbListing(s: SampleNaming, d: DiskState)
    requires Usable(s) && d.cwd == FilePath([s.abc], true) && d.root == SampleTree(s)
    ensures LsPathSpec(d, Join(["..", s.def, s.ghi, ""])) == Ok([s.c, s.d])
  {
    var root := SampleTree(s);
    UpAndAcross(s.abc, s.def, s.ghi);
    var def := root.children[1];
    assert Find(root.children, s.def) == 1;
    assert Find(def.children, s.ghi) == 0;
    assert Locate(root, [s.def, s.ghi]) == Locate(def, [s.ghi]);
    assert Locate(def, [s.ghi]) == Some(def.children[0]);
    assert Names(def.children[0].children) == [s.c, s.d];
  }

  // ---------------------------------------------------------------------
  // The store as an object

  class RamDisk {
    var state: OpenState
    var cwd: FilePath
    var dirStack: seq<FilePath>
    var root: Node
    var nextId: nat

    function Model(): DiskState
      reads this
    {
      DiskState(state, cwd, dirStack, root, nextId)
    }

    predicate Valid()
      reads this
    {
      DiskValid(Model())
    }

    constructor ()
      ensures Valid() && Model() == Fresh()
    {
      cwd := Parse("");
      root := Folder("", []);
      state := Uninitialized;
      dirStack := [];
      nextId := 0;
      FreshValid();
    }

    method Open() returns (o: Outcome)
      requires Valid()
      modifies this
      ensures Valid() && (o, Model()) == OpenSpec(old(Model()))
    {
      if state == Closed {
        return Fail(AlreadyClosed);
      }
      state := OpenState.Open;
      o := Pass;
    }

    method Close()
      requires Valid()
      modifies this
      ensures Valid() && Model() == CloseSpec(old(Model()))
    {
      state := Closed;
    }

    /** The listing loop of ls, on a path object. */
    method List(fp: FilePath) returns (r: Result<seq<string>>)
      ensures r == ListSpec(Model(), fp)
    {
      var p := FilePaths.Chdir(cwd, fp);
      var rn := Locate(root, p.parts);
      if rn.None? || !rn.value.Folder? {
        return Err(NoSuchDirectory);
      }
      var children := rn.value.children;
      var listing: seq<string> := [];
      var i := 0;
      while i < |children|
        invariant 0 <= i <= |children| && |listing| == i
        invariant forall k :: 0 <= k < i ==> listing[k] == children[k].name
      {
        listing := listing + [children[i].name];
        i := i + 1;
      }
      assert listing == Names(children);
      r := Ok(listing);
    }

    method Ls() returns (r: Result<seq<string>>)
      ensures r == LsSpec(Model())
    {
      r := List(cwd);
    }

    method LsPath(path: string) returns (r: Result<seq<string>>)
      ensures r == LsPathSpec(Model(), path)
    {
      r := List(ChdirStr(cwd, path));
    }

    method IsDirectory(path: string) returns (b: bool)
      ensures b == IsDirSpec(Model(), path)
    {
      var rn := Locate(root, ChdirStr(cwd, path).parts);
      b := rn.Some? && rn.value.Folder?;
    }

    method IsFile(path: string) returns (b: bool)
      ensures b == IsFileSpec(Model(), path)
    {
      var rn := Locate(root, ChdirStr(cwd, path).parts);
      b := rn.Some? && rn.value.File?;
    }

    method GetSize(path: string) returns (r: Result<nat>)
      ensures r == SizeSpec(Model(), path)
    {
      var rn := Locate(root, ChdirStr(cwd, path).parts);
      if !(rn.Some? && rn.value.File?) {
        return Err(PathIsDirectory);
      }
      r := Ok(|rn.value.contents|);
    }

    method WriteTo(path: string) returns (r: Result<RamOutputStream>)
      requires Valid()
      modifies this
      ensures Valid()
      ensures var (res, after) := WriteToSpec(old(Model()), path);
        Model() == after && r.Ok? == res.Ok? && (r.Err? ==> r.error == res.error) &&
        (r.Ok? ==> (fresh(r.value) && fresh(r.value.buffer) && r.value.disk == this &&
                    r.value.target == res.value && r.value.buffer.bytes == []))
    {
      ghost var spec := WriteToSpec(Model(), path);
      WriteToValid(Model(), path);
      var fp := ChdirStr(cwd, path);
      var c := CreateFile(root, fp.parts, nextId);
      if c.Err? {
        return Err(c.error);
      }
      var target := if c.value.1.Some? then FileNode(fp.parts, c.value.1.value) else NoNode;
      root := c.value.0;
      nextId := nextId + 1;
      assert Model() == spec.1 && spec.0 == Ok(target);
      var s := new RamOutputStream(this, target);
      r := Ok(s);
    }

    method ReadFrom(path: string) returns (r: Result<ByteInputStream>)
      ensures ReadSpec(Model(), path).Err? ==> r == Err(ReadSpec(Model(), path).error)
      ensures ReadSpec(Model(), path).Ok? ==>
        r.Ok? && fresh(r.value) && r.value.Valid() && r.value.Remaining() == ReadSpec(Model(), path).value
    {
      var fp := ChdirStr(cwd, path);
      var rn := Locate(root, fp.parts);
      if !(rn.Some? && rn.value.File?) {
        return Err(NotAFile(ToString(fp)));
      }
      var s := new ByteInputStream(rn.value.contents);
      r := Ok(s);
    }

    method Chdir(path: string) returns (o: Outcome)
      requires Valid()
      modifies this
      ensures Valid() && (o, Model()) == ChdirSpec(old(Model()), path)
    {
      if state != OpenState.Open {
        return Fail(NotOpen);
      }
      ChdirValid(Model(), path);
      dirStack := dirStack + [cwd];
      cwd := ChdirStr(cwd, path);
      o := Pass;
    }

    method Pushd(path: string) returns (o: Outcome)
      requires Valid()
      modifies this
      ensures Valid() && (o, Model()) == ChdirSpec(old(Model()), path)
    {
      o := Chdir(path);
    }

    method Popd() returns (o: Outcome)
      requires Valid()
      modifies this
      ensures Valid() && (o, Model()) == PopdSpec(old(Model()))
    {
      if state != OpenState.Open {
        return Fail(NotOpen);
      }
      PopdValid(Model());
      if dirStack == [] {
        cwd := Parse("");
      } else {
        cwd := dirStack[|dirStack| - 1];
        dirStack := dirStack[..|dirStack| - 1];
      }
      o := Pass;
    }

    method Mkdir(path: string) returns (o: Outcome)
      requires Valid()
      modifies this
      ensures Valid() && (o, Model()) == MkdirSpec(old(Model()), path)
    {
      MkdirValid(Model(), path);
      match CreateFolder(root, ChdirStr(cwd, path).parts)
      case Ok(m) =>
        root := m;
        o := Pass;
      case Err(e) =>
        o := Fail(e);
    }

    method Rmdir(path: string) returns (o: Outcome)
      requires Valid()
      modifies this
      ensures Valid() && (o, Model()) == RmdirSpec(old(Model()), path)
    {
      RmdirValid(Model(), path);
      var parts := ChdirStr(cwd, path).parts;
      var rn := Locate(root, parts);
      if rn.None? || !rn.value.Folder? {
        return Fail(NoSuchDirectory);
      }
      if parts != [] {
        root := RemoveAt(root, parts);
      } else {
        root := Folder(root.name, []);
      }
      o := Pass;
    }

    method Delete(path: string) returns (o: Outcome)
      requires Valid()
      modifies this
      ensures Valid() && (o, Model()) == DeleteSpec(old(Model()), path)
    {
      DeleteValid(Model(), path);
      var parts := ChdirStr(cwd, path).parts;
      var rn := Locate(root, parts);
      if rn.None? || !rn.value.File? {
        return Fail(NoSuchFile);
      }
      if parts != [] {
        root := RemoveAt(root, parts);
      }
      o := Pass;
    }

    method Pwd() returns (s: string)
      ensures s == PwdSpec(Model())
    {
      s := ToString(cwd);
    }
  }

  /**
   * The output stream of the store: it buffers what is written and, on
   * close, gives the buffered bytes to the file node it is bound to.
   */
  class RamOutputStream {
    const disk: RamDisk
    const target: Target
    const buffer: ByteOutputStream

    constructor (disk: RamDisk, target: Target)
      ensures this.disk == disk && this.target == target && fresh(buffer) && buffer.bytes == []
    {
      this.disk := disk;
      this.target := target;
      buffer := new ByteOutputStream();
    }

    method Write(b: int)
      modifies buffer
      ensures buffer.bytes == old(buffer.bytes) + [LowByte(b)]
    {
      buffer.Write(b);
    }

    /** write(b, off, len) of an output stream: each byte of the range in turn, after the bounds check. */
    method WriteRange(b: array<byte>, off: int, len: int) returns (o: Outcome)
      modifies buffer
      ensures RangeOk(b.Length, off, len) ==> o == Pass && buffer.bytes == old(buffer.bytes) + b[off..off + len]
      ensures !RangeOk(b.Length, off, len) ==> o == Fail(IndexOutOfBounds) && buffer.bytes == old(buffer.bytes)
    {
      o := buffer.WriteRange(b, off, len);
    }

    method Close() returns (o: Outcome)
      requires disk.Valid()
      modifies disk
      ensures disk.Valid() && (o, disk.Model()) == CommitSpec(old(disk.Model()), target, buffer.bytes)
    {
      CommitValid(disk.Model(), target, buffer.bytes);
      match target
      case NoNode =>
        o := Fail(NullReference);
      case FileNode(parts, id) =>
        disk.root := WriteContents(disk.root, parts, id, buffer.bytes);
        o := Pass;
    }
  }
}
