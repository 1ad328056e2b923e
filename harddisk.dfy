/**
 * The store over a directory of the host: its lifecycle, its current
 * directory and directory stack, the host path every argument resolves to,
 * and the host's directory tree below the root, kept as a map. The lease of
 * the reifiable store it extends lives in the same object, and the identity
 * reification wraps it.
 */
module HardDisks {
  import opened FileSystem
  import opened FilePaths
  import opened ByteStreams

  /** An entry of the host's file system: a directory, or a regular file and its bytes. */
  datatype Entry = Dir | Data(bytes: seq<byte>)

  /**
   * The host directory below a store's root: each entry under the names
   * leading to it from the root. The root itself, [], is a directory and is
   * not in the map.
   */
  type Host = map<seq<string>, Entry>

  predicate IsDirKey(h: Host, k: seq<string>) { k == [] || (k in h && h[k].Dir?) }

  predicate IsFileKey(h: Host, k: seq<string>) { k != [] && k in h && h[k].Data? }

  predicate ExistsKey(h: Host, k: seq<string>) { k == [] || k in h }

  /** `k` is an entry of `h`: the term on which the validity of a tree is instantiated. */
  predicate Stored(h: Host, k: seq<string>) { k in h }

  /** A directory tree: valid names, and the parent of every entry is a directory. */
  predicate HostValid(h: Host)
  {
    forall k {:trigger Stored(h, k)} | k in h :: k != [] && AllValid(k) && IsDirKey(h, k[..|k| - 1])
  }

  /** An entry of a tree has valid names and a directory for a parent. */
  lemma EntryValid(h: Host, k: seq<string>)
    requires HostValid(h) && k in h
    ensures k != [] && AllValid(k) && IsDirKey(h, k[..|k| - 1])
  {
    assert Stored(h, k);
  }

  /** The names of the entries directly inside `k`. */
  function Children(h: Host, k: seq<string>): set<string>
  {
    set c | c in h && |c| == |k| + 1 && c[..|k|] == k :: c[|k|]
  }

  /** `names` lists the set `s`: every member exactly once. */
  predicate Lists(names: seq<string>, s: set<string>)
  {
    (forall i :: 0 <= i < |names| ==> names[i] in s) && (forall c :: c in s ==> c in names) &&
    (forall i, j :: 0 <= i < j < |names| ==> names[i] != names[j])
  }

  /** The state of the store besides its root, which is fixed. */
  datatype HdState = HdState(state: OpenState, cwd: FilePath, stack: seq<FilePath>, files: Host)

  predicate HdValid(s: HdState)
  {
    Normal(s.cwd) && (forall i :: 0 <= i < |s.stack| ==> Normal(s.stack[i])) && HostValid(s.files)
  }

  /** The entry an argument designates: the names of cwd.chdir(path) below the root. */
  function Key(s: HdState, path: string): seq<string>
  {
    ChdirStr(s.cwd, path).parts
  }

  /** getPath: the root's string, then cwd.chdir(path), with a separator when the latter is relative. */
  function GetPath(root: FilePath, s: HdState, path: string): string
  {
    var fp := ChdirStr(s.cwd, path);
    if fp.absolute then ToString(root) + ToString(fp) else ToString(root) + "/" + ToString(fp)
  }

  // ---------------------------------------------------------------------
  // The operations, as functions of the state

  function OpenSpec(s: HdState): (Outcome, HdState)
  {
    if s.state == Closed then (Fail(AlreadyClosed), s) else (Pass, s.(state := Open))
  }

  function CloseSpec(s: HdState): (Outcome, HdState)
  {
    if s.state == Closed then (Fail(AlreadyClosed), s) else (Pass, s.(state := Closed))
  }

  /** chdir and pushd: push the current directory and move; the store must be open. */
  function ChdirSpec(s: HdState, path: string): (Outcome, HdState)
  {
    if s.state != Open then (Fail(NotOpen), s)
    else (Pass, s.(stack := s.stack + [s.cwd], cwd := ChdirStr(s.cwd, path)))
  }

  /** popd: back to the directory on top of the stack, or to the root when the stack is empty. */
  function PopdSpec(s: HdState): (Outcome, HdState)
  {
    if s.state != Open then (Fail(NotOpen), s)
    else if s.stack == [] then (Pass, s.(cwd := Parse("")))
    else (Pass, s.(cwd := s.stack[|s.stack| - 1], stack := s.stack[..|s.stack| - 1]))
  }

  function PwdSpec(s: HdState): Result<string>
  {
    if s.state != Open then Err(NotOpen) else Ok(ToString(s.cwd))
  }

  /** mkdir: nothing when something exists at the path; otherwise a directory, if its parent is one. */
  function MkdirSpec(s: HdState, path: string): (Outcome, HdState)
  {
    var k := Key(s, path);
    if s.state != Open then (Fail(NotOpen), s)
    else if ExistsKey(s.files, k) then (Pass, s)
    else if IsDirKey(s.files, k[..|k| - 1]) then (Pass, s.(files := s.files[k := Dir]))
    else (Fail(HostFailure), s)
  }

  /**
   * Files.deleteIfExists: nothing when the entry is missing; a directory
   * with entries fails. The store's root is a directory like any other: with
   * entries it fails, and empty it is removed on the host, which the model,
   * whose root always exists, keeps as a success that changes nothing.
   */
  function DeleteEntry(h: Host, k: seq<string>): (Outcome, Host)
  {
    if IsDirKey(h, k) && Children(h, k) != {} then (Fail(HostFailure), h)
    else if k == [] || k !in h then (Pass, h)
    else (Pass, h - {k})
  }

  /** rmdir: deleteIfExists on the path, a file as well as a directory; the store must be open. */
  function RmdirSpec(s: HdState, path: string): (Outcome, HdState)
  {
    if s.state != Open then (Fail(NotOpen), s)
    else
      var (o, h) := DeleteEntry(s.files, Key(s, path));
      (o, s.(files := h))
  }

  /** delete: deleteIfExists on the path, in any state. */
  function DeleteSpec(s: HdState, path: string): (Outcome, HdState)
  {
    var (o, h) := DeleteEntry(s.files, Key(s, path));
    (o, s.(files := h))
  }

  function IsDirSpec(s: HdState, path: string): bool
  {
    IsDirKey(s.files, Key(s, path))
  }

  /** isFile: the entry exists and is not a directory. */
  function IsFileSpec(s: HdState, path: string): (b: bool)
    ensures b <==> ExistsKey(s.files, Key(s, path)) && !IsDirSpec(s, path)
  {
    IsFileKey(s.files, Key(s, path))
  }

  /**
   * getSize: Files.size, in any state; a missing entry fails. What the host
   * reports for a directory depends on its file system, and is `dirSize`.
   */
  function SizeSpec(s: HdState, path: string, dirSize: nat): (r: Result<nat>)
    ensures r.Err? <==> !ExistsKey(s.files, Key(s, path))
    ensures IsFileSpec(s, path) ==> r == Ok(|s.files[Key(s, path)].bytes|)
  {
    var k := Key(s, path);
    if IsFileKey(s.files, k) then Ok(|s.files[k].bytes|)
    else if IsDirKey(s.files, k) then Ok(dirSize)
    else Err(HostFailure)
  }

  /** ls(path): the names inside the directory, in any state; anything else fails. */
  function ListSpec(s: HdState, path: string): Result<set<string>>
  {
    if IsDirKey(s.files, Key(s, path)) then Ok(Children(s.files, Key(s, path))) else Err(HostFailure)
  }

  /** ls(): ls of the current directory's string; the store must be open. */
  function LsSpec(s: HdState): Result<set<string>>
  {
    if s.state != Open then Err(NotOpen) else ListSpec(s, ToString(s.cwd))
  }

  /**
   * writeTo: a FileOutputStream on the path, which creates or empties the
   * file; it fails on a directory or when the parent is not a directory.
   */
  function WriteToSpec(s: HdState, path: string): (Result<seq<string>>, HdState)
  {
    var k := Key(s, path);
    if s.state != Open then (Err(NotOpen), s)
    else if k == [] || IsDirKey(s.files, k) || !IsDirKey(s.files, k[..|k| - 1]) then (Err(HostFailure), s)
    else (Ok(k), s.(files := s.files[k := Data([])]))
  }

  /** The bytes of an output stream reach its file, if that entry is still a file. */
  function CommitSpec(s: HdState, k: seq<string>, bytes: seq<byte>): HdState
  {
    if IsFileKey(s.files, k) then s.(files := s.files[k := Data(bytes)]) else s
  }

  /** readFrom: the bytes of the file at the path; the store must be open. */
  function ReadSpec(s: HdState, path: string): (r: Result<seq<byte>>)
    ensures r.Ok? <==> s.state == Open && IsFileSpec(s, path)
  {
    var k := Key(s, path);
    if s.state != Open then Err(NotOpen)
    else if IsFileKey(s.files, k) then Ok(s.files[k].bytes)
    else Err(HostFailure)
  }

  // ---------------------------------------------------------------------
  // The invariant is kept

  lemma KeyValid(s: HdState, path: string)
    requires HdValid(s)
    ensures AllValid(Key(s, path)) && Normal(ChdirStr(s.cwd, path))
  {
    ChdirStrValid(s.cwd, path);
  }

  /** Adding an entry whose parent is a directory keeps the tree. */
  lemma AddValid(h: Host, k: seq<string>, e: Entry)
    requires HostValid(h) && k != [] && AllValid(k) && IsDirKey(h, k[..|k| - 1])
    requires k in h ==> h[k].Data? && e.Data?
    ensures HostValid(h[k := e])
  {
    var h2 := h[k := e];
    forall c | c in h2
      ensures c != [] && AllValid(c) && IsDirKey(h2, c[..|c| - 1])
    {
      if c != k {
        EntryValid(h, c);
      }
    }
  }

  /** Every entry is among the children of its parent. */
  lemma ParentHasChild(h: Host, c: seq<string>)
    requires c in h && c != []
    ensures c[|c| - 1] in Children(h, c[..|c| - 1])
  {
  }

  /** Removing an entry with nothing inside it keeps the tree. */
  lemma RemoveValid(h: Host, k: seq<string>)
    requires HostValid(h) && k in h && (h[k].Dir? ==> Children(h, k) == {})
    ensures HostValid(h - {k})
  {
    var h2 := h - {k};
    forall c | c in h2
      ensures c != [] && AllValid(c) && IsDirKey(h2, c[..|c| - 1])
    {
      EntryValid(h, c);
      ParentHasChild(h, c);
    }
  }

  lemma MkdirValid(s: HdState, path: string)
    requires HdValid(s)
    ensures HdValid(MkdirSpec(s, path).1)
  {
    KeyValid(s, path);
    var k := Key(s, path);
    if s.state == Open && !ExistsKey(s.files, k) && IsDirKey(s.files, k[..|k| - 1]) {
      AddValid(s.files, k, Dir);
    }
  }

  lemma DeleteEntryValid(h: Host, k: seq<string>)
    requires HostValid(h)
    ensures HostValid(DeleteEntry(h, k).1)
  {
    if k != [] && k in h && !(h[k].Dir? && Children(h, k) != {}) {
      RemoveValid(h, k);
    }
  }

  /** Every entry of a tree lies below an entry directly inside the root. */
  lemma {:induction false} TopOf(h: Host, k: seq<string>)
    requires HostValid(h) && k in h
    ensures k != [] && k[..1] in h
  {
    EntryValid(h, k);
    if |k| > 1 {
      var up := k[..|k| - 1];
      TopOf(h, up);
      assert up[..1] == k[..1];
    } else {
      assert k[..1] == k;
    }
  }

  /** A root with no entries is an empty tree. */
  lemma EmptyRoot(h: Host)
    requires HostValid(h) && Children(h, []) == {}
    ensures h == map[]
  {
    if k :| k in h {
      EntryValid(h, k);
      TopOf(h, k);
      var top := k[..1];
      EntryValid(h, top);
      assert |top| == 1 && top[..0] == [];
      assert top[0] in Children(h, []);
    }
  }

  lemma WriteToValid(s: HdState, path: string)
    requires HdValid(s)
    ensures HdValid(WriteToSpec(s, path).1)
  {
    KeyValid(s, path);
    var k := Key(s, path);
    if WriteToSpec(s, path).0.Ok? {
      AddValid(s.files, k, Data([]));
    }
  }

  lemma CommitValid(s: HdState, k: seq<string>, bytes: seq<byte>)
    requires HdValid(s)
    ensures HdValid(CommitSpec(s, k, bytes))
  {
    if IsFileKey(s.files, k) {
      EntryValid(s.files, k);
      AddValid(s.files, k, Data(bytes));
    }
  }

  lemma ChdirValid(s: HdState, path: string)
    requires HdValid(s)
    ensures HdValid(ChdirSpec(s, path).1)
  {
    KeyValid(s, path);
  }

  lemma PopdValid(s: HdState)
    requires HdValid(s)
    ensures HdValid(PopdSpec(s).1)
  {
    ParseEmpty();
  }

  // ---------------------------------------------------------------------
  // What the operations promise

  /**
   * open fails exactly on a closed store; close fails exactly on a closed
   * store too, so a second close fails; both only move the lifecycle forward.
   */
  lemma Lifecycle(s: HdState)
    ensures OpenSpec(s).0.Fail? <==> s.state == Closed
    ensures CloseSpec(s).0.Fail? <==> s.state == Closed
    ensures OpenSpec(s).0.Pass? ==> OpenSpec(s).1 == s.(state := Open)
    ensures CloseSpec(s).0.Pass? ==> CloseSpec(CloseSpec(s).1) == (Fail(AlreadyClosed), CloseSpec(s).1)
    ensures Forward(s.state, OpenSpec(s).1.state) && Forward(s.state, CloseSpec(s).1.state)
  {
  }

  /**
   * writeTo, readFrom, chdir, popd, rmdir, mkdir, pwd and ls() fail unless
   * the store is open; ls(path), isDirectory, isFile, getSize and delete
   * answer the same in every state.
   */
  lemma OpenChecks(s: HdState, path: string, t: OpenState, dirSize: nat)
    ensures s.state != Open ==>
      WriteToSpec(s, path) == (Err(NotOpen), s) && ReadSpec(s, path) == Err(NotOpen) &&
      ChdirSpec(s, path) == (Fail(NotOpen), s) && PopdSpec(s) == (Fail(NotOpen), s) &&
      RmdirSpec(s, path) == (Fail(NotOpen), s) && MkdirSpec(s, path) == (Fail(NotOpen), s) &&
      PwdSpec(s) == Err(NotOpen) && LsSpec(s) == Err(NotOpen)
    ensures var u := s.(state := t);
      ListSpec(u, path) == ListSpec(s, path) && IsDirSpec(u, path) == IsDirSpec(s, path) &&
      IsFileSpec(u, path) == IsFileSpec(s, path) && SizeSpec(u, path, dirSize) == SizeSpec(s, path, dirSize) &&
      DeleteSpec(u, path) == (DeleteSpec(s, path).0, DeleteSpec(s, path).1.(state := t))
  {
  }

  /** popd right after a chdir returns to the state before it. */
  lemma PopdUndoesChdir(s: HdState, path: string)
    requires ChdirSpec(s, path).0 == Pass
    ensures PopdSpec(ChdirSpec(s, path).1) == (Pass, s)
  {
    var s1 := ChdirSpec(s, path).1;
    assert s1.stack[..|s1.stack| - 1] == s.stack;
  }

  /** popd on an empty stack moves to the root. */
  lemma PopdEmptyStack(s: HdState)
    requires s.state == Open && s.stack == []
    ensures PopdSpec(s).0 == Pass && PwdSpec(PopdSpec(s).1) == Ok("/")
  {
    ParseEmpty();
  }

  /**
   * With a normalised current directory, every argument resolves to an
   * absolute path, so getPath is the root's string followed directly by that
   * path's string, which starts with "/".
   */
  lemma GetPathShape(root: FilePath, s: HdState, path: string)
    requires HdValid(s)
    ensures var fp := ChdirStr(s.cwd, path);
      fp.absolute && GetPath(root, s, path) == ToString(root) + ToString(fp) &&
      StartsWithSlash(ToString(fp))
  {
    KeyValid(s, path);
    ToStringShape(ChdirStr(s.cwd, path));
  }

  /** ls() lists the current directory itself. */
  lemma LsListsCwd(s: HdState)
    requires HdValid(s) && s.state == Open
    ensures LsSpec(s) == if IsDirKey(s.files, s.cwd.parts) then Ok(Children(s.files, s.cwd.parts)) else Err(HostFailure)
  {
    ChdirToString(s.cwd, s.cwd);
  }

  /**
   * mkdir on an open store succeeds exactly when something already exists
   * at the path or its parent is a directory; afterwards something exists at
   * the path, and an existing file stays a file.
   */
  lemma MkdirFacts(s: HdState, path: string)
    requires HdValid(s) && s.state == Open
    ensures var k := Key(s, path);
      var (o, after) := MkdirSpec(s, path);
      (o.Pass? <==> ExistsKey(s.files, k) || IsDirKey(s.files, k[..|k| - 1])) &&
      (o.Fail? ==> o == Fail(HostFailure) && after == s) &&
      (o.Pass? ==> ExistsKey(after.files, k)) &&
      (o.Pass? && !ExistsKey(s.files, k) ==> IsDirKey(after.files, k)) &&
      (IsFileKey(s.files, k) ==> o == Pass && after == s)
  {
  }

  /**
   * delete fails exactly on a directory with entries, the root included, and
   * then changes nothing; it succeeds on a missing entry, a file or an empty
   * directory, and afterwards nothing exists at the path. The root passes
   * only when the whole store is empty.
   */
  lemma DeleteFacts(s: HdState, path: string)
    requires HdValid(s)
    ensures var k := Key(s, path);
      var (o, after) := DeleteSpec(s, path);
      (o.Fail? <==> IsDirKey(s.files, k) && Children(s.files, k) != {}) &&
      (o.Fail? ==> after == s) &&
      (o.Pass? && k != [] ==> !ExistsKey(after.files, k) && after.files == s.files - {k}) &&
      (o.Pass? && k == [] ==> after == s && s.files == map[])
  {
    if Key(s, path) == [] && DeleteSpec(s, path).0.Pass? {
      EmptyRoot(s.files);
    }
  }

  /** writeTo then closing the stream: the file holds exactly the bytes written. */
  lemma WriteThenRead(s: HdState, path: string, bytes: seq<byte>)
    requires WriteToSpec(s, path).0.Ok?
    ensures var (r, s1) := WriteToSpec(s, path);
      var s2 := CommitSpec(s1, r.value, bytes);
      r.value == Key(s, path) && ReadSpec(s2, path) == Ok(bytes) &&
      forall dirSize :: SizeSpec(s2, path, dirSize) == Ok(|bytes|)
  {
    var k := Key(s, path);
    var s2 := CommitSpec(WriteToSpec(s, path).1, k, bytes);
    assert s2.files[k] == Data(bytes);
  }

  /** writeTo fails exactly on a closed store, the root, a directory, or an entry whose parent is no directory. */
  lemma WriteToFails(s: HdState, path: string)
    ensures var k := Key(s, path);
      (WriteToSpec(s, path).0.Err? <==>
        s.state != Open || k == [] || IsDirKey(s.files, k) || !IsDirKey(s.files, k[..|k| - 1])) &&
      (WriteToSpec(s, path).0.Err? ==> WriteToSpec(s, path).1 == s)
  {
  }

  // ---------------------------------------------------------------------
  // The lease of a reifiable store

  /**
   * The lease: the outstanding token, if any (tokens are numbered, so each
   * new one differs from every earlier one), and the bypass counter.
   */
  datatype LeaseState = LeaseState(token: Option<nat>, next: nat, bypass: int)

  predicate LeaseValid(l: LeaseState)
  {
    l.token.Some? ==> l.token.value < l.next
  }

  /** acquireLease: fails while a lease is outstanding; otherwise records and returns a new token. */
  function AcquireSpec(l: LeaseState): (Result<nat>, LeaseState)
  {
    if l.token.Some? then (Err(AlreadyReified), l)
    else (Ok(l.next), l.(token := Some(l.next), next := l.next + 1))
  }

  /** releaseLease: only the outstanding token itself releases the lease. */
  function ReleaseSpec(l: LeaseState, t: nat): (Outcome, LeaseState)
  {
    if l.token != Some(t) then (Fail(InvalidLeaseToken), l) else (Pass, l.(token := None))
  }

  function CheckNotReifiedSpec(l: LeaseState): Outcome
  {
    if l.token.Some? && l.bypass == 0 then Fail(IsReified) else Pass
  }

  /**
   * At most one lease at a time: acquiring fails while one is outstanding;
   * a new token differs from every earlier one; the token acquired, and no
   * other, releases the lease again.
   */
  lemma LeaseFacts(l: LeaseState, t: nat)
    requires LeaseValid(l)
    ensures AcquireSpec(l).0.Err? <==> l.token.Some?
    ensures AcquireSpec(l).0.Err? ==> AcquireSpec(l).1 == l
    ensures AcquireSpec(l).0.Ok? ==>
      var (r, l1) := AcquireSpec(l);
      LeaseValid(l1) && l1.token == Some(r.value) && r.value >= l.next &&
      ReleaseSpec(l1, r.value) == (Pass, l.(next := l1.next)) &&
      (t != r.value ==> ReleaseSpec(l1, t) == (Fail(InvalidLeaseToken), l1))
    ensures ReleaseSpec(l, t).0.Pass? <==> l.token == Some(t)
  {
  }

  /**
   * checkNotReified fails exactly while a lease is outstanding and no
   * bypass is open; a balanced begin and end of a bypass restores the
   * counter.
   */
  lemma BypassFacts(l: LeaseState)
    ensures CheckNotReifiedSpec(l).Fail? <==> l.token.Some? && l.bypass == 0
    ensures l.token.Some? && l.bypass == 0 ==> CheckNotReifiedSpec(l.(bypass := l.bypass + 1)) == Pass
    ensures l.(bypass := l.bypass + 1 - 1) == l
  {
  }

  // ---------------------------------------------------------------------
  // The store as an object

  class HardDisk {
    const root: FilePath
    var state: OpenState
    var cwd: FilePath
    var dirStack: seq<FilePath>
    var files: Host
    var leaseToken: Option<nat>
    var nextToken: nat
    var bypass: int

    function Model(): HdState
      reads this
    {
      HdState(state, cwd, dirStack, files)
    }

    function Lease(): LeaseState
      reads this
    {
      LeaseState(leaseToken, nextToken, bypass)
    }

    predicate Valid()
      reads this
    {
      HdValid(Model()) && LeaseValid(Lease())
    }

    /**
     * The rooted constructor: the root parsed from its string, uninitialised,
     * at "/" with an empty stack; `existing` is what the host directory
     * already holds.
     */
    constructor (rootPath: string, existing: Host)
      requires HostValid(existing)
      ensures Valid() && root == Parse(rootPath)
      ensures Model() == HdState(Uninitialized, Parse(""), [], existing) && Lease() == LeaseState(None, 0, 0)
    {
      root := Parse(rootPath);
      state := Uninitialized;
      cwd := Parse("");
      dirStack := [];
      files := existing;
      leaseToken := None;
      nextToken := 0;
      bypass := 0;
      ParseEmpty();
    }

    /**
     * The default constructor: the host's own root as root and the process's
     * working directory, `userDir`, as current directory.
     */
    constructor Default(userDir: string, existing: Host)
      requires StartsWithSlash(userDir) && HostValid(existing)
      ensures Valid() && root == Parse("")
      ensures Model() == HdState(Uninitialized, Parse(userDir), [], existing) && Lease() == LeaseState(None, 0, 0)
    {
      assert Normal(Parse(userDir));
      root := Parse("");
      state := Uninitialized;
      cwd := Parse(userDir);
      dirStack := [];
      files := existing;
      leaseToken := None;
      nextToken := 0;
      bypass := 0;
    }

    method Open() returns (o: Outcome)
      requires Valid()
      modifies this
      ensures Valid() && (o, Model()) == OpenSpec(old(Model())) && Lease() == old(Lease())
    {
      if state == Closed {
        return Fail(AlreadyClosed);
      }
      state := OpenState.Open;
      o := Pass;
    }

    method Close() returns (o: Outcome)
      requires Valid()
      modifies this
      ensures Valid() && (o, Model()) == CloseSpec(old(Model())) && Lease() == old(Lease())
    {
      if state == Closed {
        return Fail(AlreadyClosed);
      }
      state := Closed;
      o := Pass;
    }

    method Chdir(path: string) returns (o: Outcome)
      requires Valid()
      modifies this
      ensures Valid() && (o, Model()) == ChdirSpec(old(Model()), path) && Lease() == old(Lease())
    {
      if state != OpenState.Open {
        return Fail(NotOpen);
      }
      ChdirValid(Model(), path);
      dirStack := dirStack + [cwd];
      cwd := ChdirStr(cwd, path);
      o := Pass;
    }

    method Pushd(path: string) returns (o: Outcome)
      requires Valid()
      modifies this
      ensures Valid() && (o, Model()) == ChdirSpec(old(Model()), path) && Lease() == old(Lease())
    {
      o := Chdir(path);
    }

    method Popd() returns (o: Outcome)
      requires Valid()
      modifies this
      ensures Valid() && (o, Model()) == PopdSpec(old(Model())) && Lease() == old(Lease())
    {
      if state != OpenState.Open {
        return Fail(NotOpen);
      }
      PopdValid(Model());
      if dirStack == [] {
        cwd := Parse("");
      } else {
        cwd := dirStack[|dirStack| - 1];
        dirStack := dirStack[..|dirStack| - 1];
      }
      o := Pass;
    }

    method Pwd() returns (r: Result<string>)
      ensures r == PwdSpec(Model())
    {
      if state != OpenState.Open {
        return Err(NotOpen);
      }
      r := Ok(ToString(cwd));
    }

    method Mkdir(path: string) returns (o: Outcome)
      requires Valid()
      modifies this
      ensures Valid() && (o, Model()) == MkdirSpec(old(Model()), path) && Lease() == old(Lease())
    {
      if state != OpenState.Open {
        return Fail(NotOpen);
      }
      MkdirValid(Model(), path);
      var k := ChdirStr(cwd, path).parts;
      if k == [] || k in files {
        return Pass;
      }
      if !IsDirKey(files, k[..|k| - 1]) {
        return Fail(HostFailure);
      }
      files := files[k := Dir];
      o := Pass;
    }

    /** Files.deleteIfExists on the entry `k`. */
    method DeleteIfExists(k: seq<string>) returns (o: Outcome)
      requires Valid()
      modifies this
      ensures Valid() && (o, files) == DeleteEntry(old(files), k)
      ensures state == old(state) && cwd == old(cwd) && dirStack == old(dirStack) && Lease() == old(Lease())
    {
      DeleteEntryValid(files, k);
      if (k == [] || (k in files && files[k].Dir?)) && Children(files, k) != {} {
        return Fail(HostFailure);
      }
      if k == [] || k !in files {
        return Pass;
      }
      files := files - {k};
      o := Pass;
    }

    method Rmdir(path: string) returns (o: Outcome)
      requires Valid()
      modifies this
      ensures Valid() && (o, Model()) == RmdirSpec(old(Model()), path) && Lease() == old(Lease())
    {
      if state != OpenState.Open {
        return Fail(NotOpen);
      }
      o := DeleteIfExists(ChdirStr(cwd, path).parts);
    }

    method Delete(path: string) returns (o: Outcome)
      requires Valid()
      modifies this
      ensures Valid() && (o, Model()) == DeleteSpec(old(Model()), path) && Lease() == old(Lease())
    {
      o := DeleteIfExists(ChdirStr(cwd, path).parts);
    }

    method IsDirectory(path: string) returns (b: bool)
      ensures b == IsDirSpec(Model(), path)
    {
      b := IsDirKey(files, ChdirStr(cwd, path).parts);
    }

    method IsFile(path: string) returns (b: bool)
      ensures b == IsFileSpec(Model(), path)
    {
      var k := ChdirStr(cwd, path).parts;
      b := k != [] && k in files && !files[k].Dir?;
    }

    /** getSize; `dirSize` is what the host reports for a directory. */
    method GetSize(path: string, dirSize: nat) returns (r: Result<nat>)
      ensures r == SizeSpec(Model(), path, dirSize)
    {
      var k := ChdirStr(cwd, path).parts;
      if k == [] || (k in files && files[k].Dir?) {
        return Ok(dirSize);
      }
      if k !in files {
        return Err(HostFailure);
      }
      r := Ok(|files[k].bytes|);
    }

    /** Files.list: the names inside the directory, each once, in the host's order. */
    method List(k: seq<string>) returns (r: Result<seq<string>>)
      ensures !IsDirKey(files, k) ==> r == Err(HostFailure)
      ensures IsDirKey(files, k) ==> r.Ok? && Lists(r.value, Children(files, k))
    {
      if !IsDirKey(files, k) {
        return Err(HostFailure);
      }
      var all := Children(files, k);
      var left := all;
      var names: seq<string> := [];
      while left != {}
        invariant left <= all
        invariant forall i :: 0 <= i < |names| ==> names[i] in all && names[i] !in left
        invariant forall c :: c in all ==> c in left || c in names
        invariant forall i, j :: 0 <= i < j < |names| ==> names[i] != names[j]
        decreases |left|
      {
        var c :| c in left;
        names := names + [c];
        left := left - {c};
      }
      r := Ok(names);
    }

    method LsPath(path: string) returns (r: Result<seq<string>>)
      ensures ListSpec(Model(), path).Err? ==> r == Err(HostFailure)
      ensures ListSpec(Model(), path).Ok? ==>
        r.Ok? && Lists(r.value, ListSpec(Model(), path).value)
    {
      r := List(ChdirStr(cwd, path).parts);
    }

    method Ls() returns (r: Result<seq<string>>)
      ensures LsSpec(Model()).Err? ==> r == Err(LsSpec(Model()).error)
      ensures LsSpec(Model()).Ok? ==>
        r.Ok? && Lists(r.value, LsSpec(Model()).value)
    {
      if state != OpenState.Open {
        return Err(NotOpen);
      }
      r := LsPath(ToString(cwd));
    }

    method WriteTo(path: string) returns (r: Result<HostOutputStream>)
      requires Valid()
      modifies this
      ensures Valid() && Lease() == old(Lease())
      ensures var (res, after) := WriteToSpec(old(Model()), path);
        Model() == after && r.Ok? == res.Ok? && (r.Err? ==> r.error == res.error) &&
        (r.Ok? ==> (fresh(r.value) && fresh(r.value.buffer) && r.value.disk == this &&
                    r.value.key == res.value && r.value.buffer.bytes == []))
    {
      if state != OpenState.Open {
        return Err(NotOpen);
      }
      WriteToValid(Model(), path);
      var k := ChdirStr(cwd, path).parts;
      if k == [] || IsDirKey(files, k) || !IsDirKey(files, k[..|k| - 1]) {
        return Err(HostFailure);
      }
      files := files[k := Data([])];
      var s := new HostOutputStream(this, k);
      r := Ok(s);
    }

    method ReadFrom(path: string) returns (r: Result<ByteInputStream>)
      ensures ReadSpec(Model(), path).Err? ==> r == Err(ReadSpec(Model(), path).error)
      ensures ReadSpec(Model(), path).Ok? ==>
        r.Ok? && fresh(r.value) && r.value.Valid() && r.value.Remaining() == ReadSpec(Model(), path).value
    {
      if state != OpenState.Open {
        return Err(NotOpen);
      }
      var k := ChdirStr(cwd, path).parts;
      assert k == Key(Model(), path);
      if !(k != [] && k in files && files[k].Data?) {
        return Err(HostFailure);
      }
      var s := new ByteInputStream(files[k].bytes);
      r := Ok(s);
    }

    method AcquireLease() returns (r: Result<nat>)
      requires Valid()
      modifies this
      ensures Valid() && Model() == old(Model()) && (r, Lease()) == AcquireSpec(old(Lease()))
    {
      if leaseToken.Some? {
        return Err(AlreadyReified);
      }
      leaseToken := Some(nextToken);
      r := Ok(nextToken);
      nextToken := nextToken + 1;
    }

    method ReleaseLease(token: nat) returns (o: Outcome)
      requires Valid()
      modifies this
      ensures Valid() && Model() == old(Model()) && (o, Lease()) == ReleaseSpec(old(Lease()), token)
    {
      if leaseToken != Some(token) {
        return Fail(InvalidLeaseToken);
      }
      leaseToken := None;
      o := Pass;
    }

    method CheckNotReified() returns (o: Outcome)
      ensures o == CheckNotReifiedSpec(Lease())
    {
      if leaseToken.Some? && bypass == 0 {
        return Fail(IsReified);
      }
      o := Pass;
    }

    method BeginBypass()
      requires Valid()
      modifies this
      ensures Valid() && Model() == old(Model()) && Lease() == old(Lease()).(bypass := old(bypass) + 1)
    {
      bypass := bypass + 1;
    }

    method EndBypass()
      requires Valid()
      modifies this
      ensures Valid() && Model() == old(Model()) && Lease() == old(Lease()).(bypass := old(bypass) - 1)
    {
      bypass := bypass - 1;
    }
  }

  /**
   * The FileOutputStream of the store: the bytes written reach the file
   * when the stream is closed, if the entry is still a file then.
   */
  class HostOutputStream {
    const disk: HardDisk
    const key: seq<string>
    const buffer: ByteOutputStream

    constructor (disk: HardDisk, key: seq<string>)
      ensures this.disk == disk && this.key == key && fresh(buffer) && buffer.bytes == []
    {
      this.disk := disk;
      this.key := key;
      buffer := new ByteOutputStream();
    }

    method Write(b: int)
      modifies buffer
      ensures buffer.bytes == old(buffer.bytes) + [LowByte(b)]
    {
      buffer.Write(b);
    }

    method Close()
      requires disk.Valid()
      modifies disk
      ensures disk.Valid() && disk.Model() == CommitSpec(old(disk.Model()), key, buffer.bytes)
      ensures disk.Lease() == old(disk.Lease())
    {
      CommitValid(disk.Model(), key, buffer.bytes);
      if key in disk.files && disk.files[key].Data? {
        EntryValid(disk.files, key);
        disk.files := disk.files[key := Data(buffer.bytes)];
      }
    }
  }

  /**
   * The identity reification of the store: every call goes to the store
   * itself until close, which releases the lease once; after close every
   * other call fails.
   */
  class IdentityReified {
    const disk: HardDisk
    const token: nat
    var closed: bool

    constructor (disk: HardDisk, token: nat)
      ensures this.disk == disk && this.token == token && !closed
    {
      this.disk := disk;
      this.token := token;
      closed := false;
    }

    /** toLocalPath: the store's own host path for the argument. */
    method ToLocalPath(path: string) returns (r: Result<string>)
      ensures closed ==> r == Err(ReifiedClosed)
      ensures !closed ==> r == Ok(GetPath(disk.root, disk.Model(), path))
    {
      if closed {
        return Err(ReifiedClosed);
      }
      r := Ok(GetPath(disk.root, disk.Model(), path));
    }

    /** commit: nothing to copy back. */
    method Commit() returns (o: Outcome)
      ensures o == if closed then Fail(ReifiedClosed) else Pass
    {
      if closed {
        return Fail(ReifiedClosed);
      }
      o := Pass;
    }

    /** release: does nothing. */
    method Release() returns (o: Outcome)
      ensures o == Pass
    {
      o := Pass;
    }

    /** close: the first call releases the lease with this token; later calls do nothing. */
    method Close() returns (o: Outcome)
      requires disk.Valid()
      modifies this, disk
      ensures closed && disk.Valid() && disk.Model() == old(disk.Model())
      ensures old(closed) ==> o == Pass && disk.Lease() == old(disk.Lease())
      ensures !old(closed) ==> (o, disk.Lease()) == ReleaseSpec(old(disk.Lease()), token)
    {
      if closed {
        return Pass;
      }
      closed := true;
      o := disk.ReleaseLease(token);
    }

    method Open() returns (o: Outcome)
      requires disk.Valid()
      modifies disk
      ensures disk.Valid() && disk.Lease() == old(disk.Lease())
      ensures closed ==> o == Fail(ReifiedClosed) && disk.Model() == old(disk.Model())
      ensures !closed ==> (o, disk.Model()) == OpenSpec(old(disk.Model()))
    {
      if closed {
        return Fail(ReifiedClosed);
      }
      o := disk.Open();
    }

    method Ls() returns (r: Result<seq<string>>)
      ensures closed ==> r == Err(ReifiedClosed)
      ensures !closed && LsSpec(disk.Model()).Err? ==> r == Err(LsSpec(disk.Model()).error)
      ensures !closed && LsSpec(disk.Model()).Ok? ==>
        r.Ok? && Lists(r.value, LsSpec(disk.Model()).value)
    {
      if closed {
        return Err(ReifiedClosed);
      }
      r := disk.Ls();
    }

    method LsPath(path: string) returns (r: Result<seq<string>>)
      ensures closed ==> r == Err(ReifiedClosed)
      ensures !closed && ListSpec(disk.Model(), path).Err? ==> r == Err(HostFailure)
      ensures !closed && ListSpec(disk.Model(), path).Ok? ==>
        r.Ok? && Lists(r.value, ListSpec(disk.Model(), path).value)
    {
      if closed {
        return Err(ReifiedClosed);
      }
      r := disk.LsPath(path);
    }

    method IsDirectory(path: string) returns (r: Result<bool>)
      ensures r == if closed then Err(ReifiedClosed) else Ok(IsDirSpec(disk.Model(), path))
    {
      if closed {
        return Err(ReifiedClosed);
      }
      var b := disk.IsDirectory(path);
      r := Ok(b);
    }

    method IsFile(path: string) returns (r: Result<bool>)
      ensures r == if closed then Err(ReifiedClosed) else Ok(IsFileSpec(disk.Model(), path))
    {
      if closed {
        return Err(ReifiedClosed);
      }
      var b := disk.IsFile(path);
      r := Ok(b);
    }

    method GetSize(path: string, dirSize: nat) returns (r: Result<nat>)
      ensures r == if closed then Err(ReifiedClosed) else SizeSpec(disk.Model(), path, dirSize)
    {
      if closed {
        return Err(ReifiedClosed);
      }
      r := disk.GetSize(path, dirSize);
    }

    method WriteTo(path: string) returns (r: Result<HostOutputStream>)
      requires disk.Valid()
      modifies disk
      ensures disk.Valid() && disk.Lease() == old(disk.Lease())
      ensures closed ==> r == Err(ReifiedClosed) && disk.Model() == old(disk.Model())
      ensures !closed ==> var (res, after) := WriteToSpec(old(disk.Model()), path);
        disk.Model() == after && r.Ok? == res.Ok? && (r.Err? ==> r.error == res.error) &&
        (r.Ok? ==> (fresh(r.value) && r.value.disk == disk && r.value.key == res.value && r.value.buffer.bytes == []))
    {
      if closed {
        return Err(ReifiedClosed);
      }
      r := disk.WriteTo(path);
    }

    method ReadFrom(path: string) returns (r: Result<ByteInputStream>)
      ensures closed ==> r == Err(ReifiedClosed)
      ensures !closed && ReadSpec(disk.Model(), path).Err? ==> r == Err(ReadSpec(disk.Model(), path).error)
      ensures !closed && ReadSpec(disk.Model(), path).Ok? ==>
        r.Ok? && fresh(r.value) && r.value.Valid() && r.value.Remaining() == ReadSpec(disk.Model(), path).value
    {
      if closed {
        return Err(ReifiedClosed);
      }
      r := disk.ReadFrom(path);
    }

    method Chdir(path: string) returns (o: Outcome)
      requires disk.Valid()
      modifies disk
      ensures disk.Valid() && disk.Lease() == old(disk.Lease())
      ensures closed ==> o == Fail(ReifiedClosed) && disk.Model() == old(disk.Model())
      ensures !closed ==> (o, disk.Model()) == ChdirSpec(old(disk.Model()), path)
    {
      if closed {
        return Fail(ReifiedClosed);
      }
      o := disk.Chdir(path);
    }

    method Pushd(path: string) returns (o: Outcome)
      requires disk.Valid()
      modifies disk
      ensures disk.Valid() && disk.Lease() == old(disk.Lease())
      ensures closed ==> o == Fail(ReifiedClosed) && disk.Model() == old(disk.Model())
      ensures !closed ==> (o, disk.Model()) == ChdirSpec(old(disk.Model()), path)
    {
      if closed {
        return Fail(ReifiedClosed);
      }
      o := disk.Pushd(path);
    }

    method Popd() returns (o: Outcome)
      requires disk.Valid()
      modifies disk
      ensures disk.Valid() && disk.Lease() == old(disk.Lease())
      ensures closed ==> o == Fail(ReifiedClosed) && disk.Model() == old(disk.Model())
      ensures !closed ==> (o, disk.Model()) == PopdSpec(old(disk.Model()))
    {
      if closed {
        return Fail(ReifiedClosed);
      }
      o := disk.Popd();
    }

    method Mkdir(path: string) returns (o: Outcome)
      requires disk.Valid()
      modifies disk
      ensures disk.Valid() && disk.Lease() == old(disk.Lease())
      ensures closed ==> o == Fail(ReifiedClosed) && disk.Model() == old(disk.Model())
      ensures !closed ==> (o, disk.Model()) == MkdirSpec(old(disk.Model()), path)
    {
      if closed {
        return Fail(ReifiedClosed);
      }
      o := disk.Mkdir(path);
    }

    method Rmdir(path: string) returns (o: Outcome)
      requires disk.Valid()
      modifies disk
      ensures disk.Valid() && disk.Lease() == old(disk.Lease())
      ensures closed ==> o == Fail(ReifiedClosed) && disk.Model() == old(disk.Model())
      ensures !closed ==> (o, disk.Model()) == RmdirSpec(old(disk.Model()), path)
    {
      if closed {
        return Fail(ReifiedClosed);
      }
      o := disk.Rmdir(path);
    }

    method Delete(path: string) returns (o: Outcome)
      requires disk.Valid()
      modifies disk
      ensures disk.Valid() && disk.Lease() == old(disk.Lease())
      ensures closed ==> o == Fail(ReifiedClosed) && disk.Model() == old(disk.Model())
      ensures !closed ==> (o, disk.Model()) == DeleteSpec(old(disk.Model()), path)
    {
      if closed {
        return Fail(ReifiedClosed);
      }
      o := disk.Delete(path);
    }

    method Pwd() returns (r: Result<string>)
      ensures r == if closed then Err(ReifiedClosed) else PwdSpec(disk.Model())
    {
      if closed {
        return Err(ReifiedClosed);
      }
      r := disk.Pwd();
    }
  }
}
