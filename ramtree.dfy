/**
 * The node tree of the in-memory store. A folder holds an ordered sequence
 * of children (insertion order is listing order); a file holds its bytes.
 * Every file carries the identity of the node object that holds it, so that
 * an output stream can tell whether the node it was opened on is still the
 * one at its path. The walks of the store become recursive functions that
 * return the updated tree.
 */
module RamTree {
  import opened FileSystem
  import opened FilePaths

  datatype Node =
    | Folder(name: string, children: seq<Node>)
    | File(name: string, id: nat, contents: seq<byte>)

  /** Index of the first child with that name, or the number of children when none has it. */
  function Find(children: seq<Node>, name: string): (k: nat)
    ensures k <= |children|
    ensures k < |children| ==> children[k].name == name
    ensures forall j :: 0 <= j < k ==> children[j].name != name
  {
    if children == [] then 0
    else if children[0].name == name then 0
    else 1 + Find(children[1..], name)
  }

  /** The names of the children, in order. */
  function Names(children: seq<Node>): (r: seq<string>)
    ensures |r| == |children|
    ensures forall i :: 0 <= i < |r| ==> r[i] == children[i].name
  {
    if children == [] then [] else [children[0].name] + Names(children[1..])
  }

  predicate DistinctNames(children: seq<Node>)
  {
    forall i, j :: 0 <= i < j < |children| ==> children[i].name != children[j].name
  }

  /**
   * A well-formed tree: sibling names are distinct, every name below the
   * root is a valid path segment, and so on all the way down.
   */
  predicate Wf(n: Node)
  {
    n.Folder? ==>
      DistinctNames(n.children) &&
      (forall i :: 0 <= i < |n.children| ==> ValidName(n.children[i].name)) &&
      (forall i :: 0 <= i < |n.children| ==> Wf(n.children[i]))
  }

  /** locate: follow the parts from a node, taking the first child with each name. */
  function Locate(n: Node, parts: seq<string>): Option<Node>
    decreases |parts|
  {
    if parts == [] then Some(n)
    else if n.File? then None
    else
      var k := Find(n.children, parts[0]);
      if k == |n.children| then None else Locate(n.children[k], parts[1..])
  }

  predicate IsFolderAt(n: Node, parts: seq<string>)
  {
    Locate(n, parts).Some? && Locate(n, parts).value.Folder?
  }

  predicate IsFileAt(n: Node, parts: seq<string>)
  {
    Locate(n, parts).Some? && Locate(n, parts).value.File?
  }

  /** The chain of new, empty folders that a walk creates past a missing name. */
  function FolderChain(parts: seq<string>): Node
    requires parts != []
  {
    Folder(parts[0], if |parts| == 1 then [] else [FolderChain(parts[1..])])
  }

  /**
   * createFolderNode: walk the parts, creating a folder for each missing
   * name and descending into found folders; a file on the way is an invalid
   * path.
   */
  function CreateFolder(n: Node, parts: seq<string>): Result<Node>
    requires n.Folder?
    decreases |parts|
  {
    if parts == [] then Ok(n)
    else
      var k := Find(n.children, parts[0]);
      if k == |n.children| then Ok(Folder(n.name, n.children + [FolderChain(parts)]))
      else if n.children[k].File? then Err(InvalidPath)
      else match CreateFolder(n.children[k], parts[1..])
        case Ok(c) => Ok(Folder(n.name, n.children[k := c]))
        case Err(e) => Err(e)
  }

  /** The chain of new folders ending in a new, empty file. */
  function FileChain(parts: seq<string>, id: nat): Node
    requires parts != []
  {
    if |parts| == 1 then File(parts[0], id, []) else Folder(parts[0], [FileChain(parts[1..], id)])
  }

  /**
   * createFileNode: like the folder walk for all but the last name; the
   * last name yields the existing file, or a new empty file with identity
   * `id`, and fails if it names a folder. The second component is the
   * identity of the file node returned, None for the empty path (where the
   * walk returns no node at all).
   */
  function CreateFile(n: Node, parts: seq<string>, id: nat): Result<(Node, Option<nat>)>
    requires n.Folder?
    decreases |parts|
  {
    if parts == [] then Ok((n, None))
    else
      var k := Find(n.children, parts[0]);
      if k == |n.children| then Ok((Folder(n.name, n.children + [FileChain(parts, id)]), Some(id)))
      else if |parts| == 1 then
        (if n.children[k].File? then Ok((n, Some(n.children[k].id))) else Err(FolderExists))
      else if n.children[k].File? then Err(InvalidPath)
      else match CreateFile(n.children[k], parts[1..], id)
        case Ok(r) => Ok((Folder(n.name, n.children[k := r.0]), r.1))
        case Err(e) => Err(e)
  }

  /** deleteChild on the parent of the located node: the node leaves its parent's children. */
  function RemoveAt(n: Node, parts: seq<string>): Node
    requires parts != [] && Locate(n, parts).Some?
    decreases |parts|
  {
    var k := Find(n.children, parts[0]);
    if |parts| == 1 then Folder(n.name, n.children[..k] + n.children[k + 1..])
    else Folder(n.name, n.children[k := RemoveAt(n.children[k], parts[1..])])
  }

  /**
   * The content assignment of a closing output stream: the file node with
   * identity `id` at the path, if it is still there, gets the bytes; a node
   * that has since been removed is no longer in the tree, so nothing changes.
   */
  function WriteContents(n: Node, parts: seq<string>, id: nat, bytes: seq<byte>): Node
    decreases |parts|
  {
    if parts == [] then (if n.File? && n.id == id then File(n.name, id, bytes) else n)
    else if n.File? then n
    else
      var k := Find(n.children, parts[0]);
      if k == |n.children| then n
      else Folder(n.name, n.children[k := WriteContents(n.children[k], parts[1..], id, bytes)])
  }

  // ---------------------------------------------------------------------
  // Searching children

  lemma {:induction false} FindAppend(children: seq<Node>, c: Node, name: string)
    ensures Find(children + [c], name) ==
      if Find(children, name) < |children| then Find(children, name)
      else if c.name == name then |children| else |children| + 1
  {
    if children != [] {
      assert (children + [c])[1..] == children[1..] + [c];
      FindAppend(children[1..], c, name);
    }
  }

  lemma {:induction false} FindReplace(children: seq<Node>, k: nat, c: Node, name: string)
    requires k < |children| && c.name == children[k].name
    ensures Find(children[k := c], name) == Find(children, name)
  {
    if children != [] && children[0].name != name && k > 0 {
      assert children[k := c][1..] == children[1..][k - 1 := c];
      FindReplace(children[1..], k - 1, c, name);
    }
  }

  /** With distinct names, the child found is the only one with that name. */
  lemma FindUnique(children: seq<Node>, i: nat)
    requires DistinctNames(children) && i < |children|
    ensures Find(children, children[i].name) == i
  {
  }

  /** Removing child k keeps every other name found at the same child. */
  lemma FindRemove(children: seq<Node>, k: nat, name: string)
    requires k < |children| && children[k].name != name
    ensures var rest := children[..k] + children[k + 1..];
      var f := Find(children, name);
      Find(rest, name) == (if f < k then f else f - 1)
  {
    var rest := children[..k] + children[k + 1..];
    var f := Find(children, name);
    var g := Find(rest, name);
    if f < k {
      assert rest[f] == children[f];
    } else {
      forall j | 0 <= j < f - 1 ensures rest[j].name != name {
        if j < k { assert rest[j] == children[j]; } else { assert rest[j] == children[j + 1]; }
      }
      if f < |children| { assert rest[f - 1] == children[f]; }
    }
  }

  // ---------------------------------------------------------------------
  // Well-formedness of the edited trees

  /** Appending a child whose name is new keeps a folder well formed. */
  lemma WfAppend(name: string, children: seq<Node>, c: Node)
    requires Wf(Folder(name, children)) && Wf(c) && ValidName(c.name)
    requires Find(children, c.name) == |children|
    ensures Wf(Folder(name, children + [c]))
  {
    var cs := children + [c];
    forall i, j | 0 <= i < j < |cs| ensures cs[i].name != cs[j].name {
      if j == |children| {
        assert cs[i] == children[i];
      } else {
        assert cs[i] == children[i] && cs[j] == children[j];
      }
    }
    forall i | 0 <= i < |cs| ensures ValidName(cs[i].name) && Wf(cs[i]) {
      if i < |children| { assert cs[i] == children[i]; }
    }
  }

  /** Replacing a child by a well-formed node of the same name keeps a folder well formed. */
  lemma WfReplace(name: string, children: seq<Node>, k: nat, c: Node)
    requires Wf(Folder(name, children)) && k < |children| && Wf(c) && c.name == children[k].name
    ensures Wf(Folder(name, children[k := c]))
  {
    var cs := children[k := c];
    forall i | 0 <= i < |cs| ensures ValidName(cs[i].name) && Wf(cs[i]) {
      if i != k { assert cs[i] == children[i]; }
    }
  }

  /** Removing a child keeps a folder well formed. */
  lemma WfRemove(name: string, children: seq<Node>, k: nat)
    requires Wf(Folder(name, children)) && k < |children|
    ensures Wf(Folder(name, children[..k] + children[k + 1..]))
  {
    var cs := children[..k] + children[k + 1..];
    forall i | 0 <= i < |cs| ensures cs[i] == children[if i < k then i else i + 1] {
    }
    forall i, j | 0 <= i < j < |cs| ensures cs[i].name != cs[j].name {
      var i', j' := if i < k then i else i + 1, if j < k then j else j + 1;
      assert cs[i] == children[i'] && cs[j] == children[j'];
    }
  }

  lemma {:induction false} FolderChainWf(parts: seq<string>)
    requires parts != [] && AllValid(parts)
    ensures Wf(FolderChain(parts)) && FolderChain(parts).name == parts[0]
    ensures IsFolderAt(FolderChain(parts), parts[1..])
  {
    if |parts| > 1 {
      FolderChainWf(parts[1..]);
      assert ValidName(parts[1..][0]);
    }
  }

  lemma {:induction false} FileChainWf(parts: seq<string>, id: nat)
    requires parts != [] && AllValid(parts)
    ensures Wf(FileChain(parts, id)) && FileChain(parts, id).name == parts[0]
    ensures Locate(FileChain(parts, id), parts[1..]) == Some(File(parts[|parts| - 1], id, []))
  {
    if |parts| > 1 {
      FileChainWf(parts[1..], id);
      assert ValidName(parts[1..][0]);
    }
  }

  // ---------------------------------------------------------------------
  // Walking one step

  /** Some non-empty prefix of the path (possibly the whole path) locates a file. */
  predicate FileOnWay(n: Node, parts: seq<string>)
  {
    exists j :: 0 < j <= |parts| && IsFileAt(n, parts[..j])
  }

  /** A path whose first name is missing locates nothing, and has no file on its way. */
  lemma MissingStep(n: Node, parts: seq<string>)
    requires n.Folder? && parts != [] && Find(n.children, parts[0]) == |n.children|
    ensures Locate(n, parts) == None && !FileOnWay(n, parts)
  {
    forall j | 0 < j <= |parts| ensures Locate(n, parts[..j]) == None {
      assert parts[..j][0] == parts[0];
    }
  }

  /** Past a folder child, the files on the way are those on the way from that child. */
  lemma FolderStep(n: Node, parts: seq<string>)
    requires n.Folder? && parts != []
    requires Find(n.children, parts[0]) < |n.children|
    requires n.children[Find(n.children, parts[0])].Folder?
    ensures FileOnWay(n, parts) <==> FileOnWay(n.children[Find(n.children, parts[0])], parts[1..])
  {
    var c := n.children[Find(n.children, parts[0])];
    forall j | 0 < j <= |parts| ensures Locate(n, parts[..j]) == Locate(c, parts[1..][..j - 1]) {
      assert parts[..j][0] == parts[0] && parts[..j][1..] == parts[1..][..j - 1];
    }
    if FileOnWay(c, parts[1..]) {
      var j :| 0 < j <= |parts[1..]| && IsFileAt(c, parts[1..][..j]);
      assert IsFileAt(n, parts[..j + 1]);
    }
    if FileOnWay(n, parts) {
      var j :| 0 < j <= |parts| && IsFileAt(n, parts[..j]);
      assert parts[1..][..0] == [];
      assert IsFileAt(c, parts[1..][..j - 1]);
    }
  }

  /** A file child ends every path through it: the file is on the way. */
  lemma FileStep(n: Node, parts: seq<string>)
    requires n.Folder? && parts != []
    requires Find(n.children, parts[0]) < |n.children|
    requires n.children[Find(n.children, parts[0])].File?
    ensures FileOnWay(n, parts) && (|parts| > 1 ==> Locate(n, parts) == None)
  {
    assert parts[..1][0] == parts[0] && parts[..1][1..] == [];
    assert IsFileAt(n, parts[..1]);
  }

  // ---------------------------------------------------------------------
  // Creating folders

  /** createFolderNode fails, always as an invalid path, exactly when a file lies on the way. */
  lemma {:induction false} CreateFolderFails(n: Node, parts: seq<string>)
    requires n.Folder?
    ensures CreateFolder(n, parts).Err? <==> FileOnWay(n, parts)
    ensures CreateFolder(n, parts).Err? ==> CreateFolder(n, parts).error == InvalidPath
  {
    if parts != [] {
      var k := Find(n.children, parts[0]);
      if k == |n.children| {
        MissingStep(n, parts);
      } else if n.children[k].File? {
        FileStep(n, parts);
      } else {
        CreateFolderFails(n.children[k], parts[1..]);
        FolderStep(n, parts);
      }
    }
  }

  /** A successful createFolderNode keeps the tree well formed and leaves a folder at the path. */
  lemma {:induction false} CreateFolderOk(n: Node, parts: seq<string>)
    requires Wf(n) && n.Folder? && AllValid(parts) && CreateFolder(n, parts).Ok?
    ensures var m := CreateFolder(n, parts).value;
      Wf(m) && m.Folder? && m.name == n.name && IsFolderAt(m, parts)
  {
    if parts != [] {
      var k := Find(n.children, parts[0]);
      if k == |n.children| {
        FolderChainWf(parts);
        WfAppend(n.name, n.children, FolderChain(parts));
        FindAppend(n.children, FolderChain(parts), parts[0]);
      } else {
        assert AllValid(parts[1..]) by {
          forall i | 0 <= i < |parts[1..]| ensures ValidName(parts[1..][i]) { assert parts[1..][i] == parts[i + 1]; }
        }
        var c := CreateFolder(n.children[k], parts[1..]).value;
        CreateFolderOk(n.children[k], parts[1..]);
        WfReplace(n.name, n.children, k, c);
        FindReplace(n.children, k, c, parts[0]);
      }
    }
  }

  /** mkdir on an existing folder leaves the tree as it was. */
  lemma {:induction false} CreateFolderExisting(n: Node, parts: seq<string>)
    requires n.Folder? && IsFolderAt(n, parts)
    ensures CreateFolder(n, parts) == Ok(n)
  {
    if parts != [] {
      var k := Find(n.children, parts[0]);
      assert Locate(n, parts) == Locate(n.children[k], parts[1..]);
      assert n.children[k].Folder? by {
        if parts[1..] == [] { assert Locate(n.children[k], []) == Some(n.children[k]); }
      }
      CreateFolderExisting(n.children[k], parts[1..]);
      assert n.children[k := n.children[k]] == n.children;
    }
  }

  /** createFolderNode keeps every file where it was and every folder a folder. */
  lemma {:induction false} CreateFolderKeeps(n: Node, parts: seq<string>, q: seq<string>)
    requires n.Folder? && CreateFolder(n, parts).Ok?
    ensures IsFileAt(n, q) ==> Locate(CreateFolder(n, parts).value, q) == Locate(n, q)
    ensures IsFolderAt(n, q) ==> IsFolderAt(CreateFolder(n, parts).value, q)
  {
    var m := CreateFolder(n, parts).value;
    if parts != [] && q != [] && Locate(n, q).Some? {
      var k := Find(n.children, parts[0]);
      var j := Find(n.children, q[0]);
      if k == |n.children| {
        FindAppend(n.children, FolderChain(parts), q[0]);
        assert (n.children + [FolderChain(parts)])[j] == n.children[j];
      } else {
        var c := CreateFolder(n.children[k], parts[1..]).value;
        FindReplace(n.children, k, c, q[0]);
        if j == k {
          CreateFolderKeeps(n.children[k], parts[1..], q[1..]);
        }
      }
    }
  }

  // ---------------------------------------------------------------------
  // Creating files

  /**
   * createFileNode fails exactly when a file lies on the way to the last
   * name (an invalid path) or the last name is a folder (the folder exists).
   */
  lemma {:induction false} CreateFileFails(n: Node, parts: seq<string>, id: nat)
    requires n.Folder?
    ensures CreateFile(n, parts, id) == Err(InvalidPath) <==>
      parts != [] && FileOnWay(n, parts[..|parts| - 1])
    ensures CreateFile(n, parts, id) == Err(FolderExists) <==> parts != [] && IsFolderAt(n, parts)
    ensures CreateFile(n, parts, id).Err? ==>
      CreateFile(n, parts, id).error == InvalidPath || CreateFile(n, parts, id).error == FolderExists
  {
    if parts != [] {
      var init := parts[..|parts| - 1];
      var k := Find(n.children, parts[0]);
      if k == |n.children| {
        MissingStep(n, parts);
        if init != [] {
          assert init[0] == parts[0];
          MissingStep(n, init);
        }
      } else if |parts| == 1 {
        assert init == [];
        assert parts[1..] == [];
        assert Locate(n, parts) == Some(n.children[k]);
      } else {
        assert init[0] == parts[0] && init[1..] == parts[1..][..|parts[1..]| - 1];
        if n.children[k].File? {
          FileStep(n, init);
          FileStep(n, parts);
        } else {
          CreateFileFails(n.children[k], parts[1..], id);
          FolderStep(n, init);
        }
      }
    }
  }

  /**
   * A successful createFileNode keeps the tree well formed: an existing file
   * is returned with the tree untouched; otherwise a new empty file with
   * identity `id` now sits at the path.
   */
  lemma {:induction false} CreateFileOk(n: Node, parts: seq<string>, id: nat)
    requires Wf(n) && n.Folder? && AllValid(parts) && parts != [] && CreateFile(n, parts, id).Ok?
    ensures var (m, t) := CreateFile(n, parts, id).value;
      Wf(m) && m.Folder? && m.name == n.name && t.Some? &&
      if IsFileAt(n, parts) then m == n && t.value == Locate(n, parts).value.id
      else t.value == id && Locate(m, parts) == Some(File(parts[|parts| - 1], id, []))
  {
    var k := Find(n.children, parts[0]);
    if k == |n.children| {
      MissingStep(n, parts);
      FileChainWf(parts, id);
      WfAppend(n.name, n.children, FileChain(parts, id));
      FindAppend(n.children, FileChain(parts, id), parts[0]);
    } else if |parts| > 1 {
      assert AllValid(parts[1..]) by {
        forall i | 0 <= i < |parts[1..]| ensures ValidName(parts[1..][i]) { assert parts[1..][i] == parts[i + 1]; }
      }
      var c := CreateFile(n.children[k], parts[1..], id).value.0;
      CreateFileOk(n.children[k], parts[1..], id);
      WfReplace(n.name, n.children, k, c);
      FindReplace(n.children, k, c, parts[0]);
      assert Locate(n, parts) == Locate(n.children[k], parts[1..]);
      if IsFileAt(n, parts) {
        assert n.children[k := c] == n.children;
      }
    } else {
      assert parts[1..] == [];
      assert Locate(n, parts) == Some(n.children[k]);
    }
  }

  /** createFileNode keeps every file where it was and every folder a folder. */
  lemma {:induction false} CreateFileKeeps(n: Node, parts: seq<string>, id: nat, q: seq<string>)
    requires n.Folder? && CreateFile(n, parts, id).Ok?
    ensures IsFileAt(n, q) ==> Locate(CreateFile(n, parts, id).value.0, q) == Locate(n, q)
    ensures IsFolderAt(n, q) ==> IsFolderAt(CreateFile(n, parts, id).value.0, q)
  {
    if parts != [] && q != [] && Locate(n, q).Some? {
      var k := Find(n.children, parts[0]);
      var j := Find(n.children, q[0]);
      if k == |n.children| {
        FindAppend(n.children, FileChain(parts, id), q[0]);
        assert (n.children + [FileChain(parts, id)])[j] == n.children[j];
      } else if |parts| > 1 {
        var c := CreateFile(n.children[k], parts[1..], id).value.0;
        FindReplace(n.children, k, c, q[0]);
        if j == k {
          CreateFileKeeps(n.children[k], parts[1..], id, q[1..]);
        }
      }
    }
  }

  /** A chain of new folders holds only folders, each along the names it was built from. */
  lemma {:induction false} FolderChainAt(parts: seq<string>, r: seq<string>)
    requires parts != []
    ensures Locate(FolderChain(parts), r).Some? ==>
      Locate(FolderChain(parts), r).value.Folder? && |r| < |parts| && r == parts[1..][..|r|]
    decreases |parts|
  {
    if r != [] && |parts| > 1 {
      var cs := [FolderChain(parts[1..])];
      if Find(cs, r[0]) == 0 {
        FolderChainAt(parts[1..], r[1..]);
        if Locate(FolderChain(parts), r).Some? {
          assert r == [r[0]] + r[1..];
        }
      }
    }
  }

  /** A chain ending in a new file holds folders along the names, and the file at their end. */
  lemma {:induction false} FileChainAt(parts: seq<string>, id: nat, r: seq<string>)
    requires parts != []
    ensures Locate(FileChain(parts, id), r).Some? ==>
      |r| < |parts| && r == parts[1..][..|r|] &&
      (Locate(FileChain(parts, id), r).value.File? <==> |r| == |parts| - 1)
    decreases |parts|
  {
    if r != [] && |parts| > 1 {
      var cs := [FileChain(parts[1..], id)];
      if Find(cs, r[0]) == 0 {
        FileChainAt(parts[1..], id, r[1..]);
        if Locate(FileChain(parts, id), r).Some? {
          assert r == [r[0]] + r[1..];
        }
      }
    }
  }

  /** Below a folder with one more child, a path reaches the old children, the new one, or nothing. */
  lemma LocateAppended(name: string, cs: seq<Node>, extra: Node, q: seq<string>)
    requires q != []
    ensures Locate(Folder(name, cs + [extra]), q) ==
      if Find(cs, q[0]) < |cs| then Locate(Folder(name, cs), q)
      else if extra.name == q[0] then Locate(extra, q[1..])
      else None
  {
    FindAppend(cs, extra, q[0]);
    var j := Find(cs, q[0]);
    if j < |cs| {
      assert (cs + [extra])[j] == cs[j];
    } else {
      assert (cs + [extra])[|cs|] == extra;
    }
  }

  /** Below a folder with child `k` replaced, a path reaches the new child or what it reached before. */
  lemma LocateReplaced(name: string, cs: seq<Node>, k: nat, c: Node, q: seq<string>)
    requires q != [] && k < |cs| && c.name == cs[k].name
    ensures Locate(Folder(name, cs[k := c]), q) ==
      if Find(cs, q[0]) == k then Locate(c, q[1..]) else Locate(Folder(name, cs), q)
  {
    FindReplace(cs, k, c, q[0]);
  }

  /**
   * createFolderNode creates no file, and the only folders it creates lie on
   * the path: at a prefix of the parts, the parts included.
   */
  lemma {:induction false} CreateFolderNew(n: Node, parts: seq<string>, q: seq<string>)
    requires n.Folder? && CreateFolder(n, parts).Ok?
    ensures var r := Locate(CreateFolder(n, parts).value, q);
      r.Some? ==> (Locate(n, q).Some? && Locate(n, q).value.Folder? == r.value.Folder?) ||
                  (r.value.Folder? && |q| <= |parts| && q == parts[..|q|])
    decreases |parts|
  {
    if parts != [] && q != [] {
      var k := Find(n.children, parts[0]);
      if k == |n.children| {
        LocateAppended(n.name, n.children, FolderChain(parts), q);
        if Find(n.children, q[0]) == k && parts[0] == q[0] {
          FolderChainAt(parts, q[1..]);
          assert q == [parts[0]] + q[1..];
        }
      } else if n.children[k].Folder? {
        var c := CreateFolder(n.children[k], parts[1..]).value;
        LocateReplaced(n.name, n.children, k, c, q);
        if Find(n.children, q[0]) == k {
          CreateFolderNew(n.children[k], parts[1..], q[1..]);
          assert q == [parts[0]] + q[1..];
        }
      }
    }
  }

  /**
   * createFileNode creates a file only at the parts, and folders only at
   * proper prefixes of them.
   */
  lemma {:induction false} CreateFileNew(n: Node, parts: seq<string>, id: nat, q: seq<string>)
    requires n.Folder? && CreateFile(n, parts, id).Ok?
    ensures var r := Locate(CreateFile(n, parts, id).value.0, q);
      r.Some? ==> (Locate(n, q).Some? && Locate(n, q).value.Folder? == r.value.Folder?) ||
                  (r.value.File? && q == parts) ||
                  (r.value.Folder? && |q| < |parts| && q == parts[..|q|])
    decreases |parts|
  {
    if parts != [] && q != [] {
      var k := Find(n.children, parts[0]);
      if k == |n.children| {
        LocateAppended(n.name, n.children, FileChain(parts, id), q);
        if Find(n.children, q[0]) == k && parts[0] == q[0] {
          FileChainAt(parts, id, q[1..]);
          assert q == [parts[0]] + q[1..];
        }
      } else if |parts| > 1 && n.children[k].Folder? {
        var c := CreateFile(n.children[k], parts[1..], id).value.0;
        LocateReplaced(n.name, n.children, k, c, q);
        if Find(n.children, q[0]) == k {
          CreateFileNew(n.children[k], parts[1..], id, q[1..]);
          assert q == [parts[0]] + q[1..];
        }
      }
    }
  }

  // ---------------------------------------------------------------------
  // Removing nodes

  /** Removing a located node keeps the tree well formed; the root stays a folder of the same name. */
  lemma {:induction false} RemoveAtWf(n: Node, parts: seq<string>)
    requires Wf(n) && parts != [] && Locate(n, parts).Some?
    ensures Wf(RemoveAt(n, parts)) && RemoveAt(n, parts).Folder? && RemoveAt(n, parts).name == n.name
  {
    var k := Find(n.children, parts[0]);
    if |parts| == 1 {
      WfRemove(n.name, n.children, k);
    } else {
      RemoveAtWf(n.children[k], parts[1..]);
      WfReplace(n.name, n.children, k, RemoveAt(n.children[k], parts[1..]));
    }
  }

  /**
   * In a well-formed tree, the removed node can no longer be located, while
   * its parent is still a folder.
   */
  lemma {:induction false} RemoveAtGone(n: Node, parts: seq<string>)
    requires Wf(n) && parts != [] && Locate(n, parts).Some?
    ensures Locate(RemoveAt(n, parts), parts) == None
    ensures IsFolderAt(RemoveAt(n, parts), parts[..|parts| - 1])
  {
    if |parts| == 1 {
      RemoveChildGone(n, parts[0]);
    } else {
      RemoveAtGone(n.children[Find(n.children, parts[0])], parts[1..]);
      RemoveAtGoneStep(n, parts);
    }
  }

  /** With distinct names, the child left out is the only one that had its name. */
  lemma RemoveChildGone(n: Node, name: string)
    requires Wf(n) && n.Folder? && Find(n.children, name) < |n.children|
    ensures var k := Find(n.children, name);
      var rest := n.children[..k] + n.children[k + 1..];
      Find(rest, name) == |rest|
  {
    var k := Find(n.children, name);
    var rest := n.children[..k] + n.children[k + 1..];
    forall i | 0 <= i < |rest| ensures rest[i].name != name {
      if i < k { assert rest[i] == n.children[i]; } else { assert rest[i] == n.children[i + 1]; }
    }
  }

  /** One level of RemoveAtGone: what holds below the child holds from the parent. */
  lemma RemoveAtGoneStep(n: Node, parts: seq<string>)
    requires Wf(n) && |parts| > 1 && Locate(n, parts).Some?
    requires var c := n.children[Find(n.children, parts[0])];
      Locate(RemoveAt(c, parts[1..]), parts[1..]) == None &&
      IsFolderAt(RemoveAt(c, parts[1..]), parts[1..][..|parts| - 2])
    ensures Locate(RemoveAt(n, parts), parts) == None
    ensures IsFolderAt(RemoveAt(n, parts), parts[..|parts| - 1])
  {
    var k := Find(n.children, parts[0]);
    var c := RemoveAt(n.children[k], parts[1..]);
    FindReplace(n.children, k, c, parts[0]);
    var init := parts[..|parts| - 1];
    assert init[0] == parts[0] && init[1..] == parts[1..][..|parts| - 2];
  }

  /** Nothing at or below a removed node can be located any more. */
  lemma {:induction false} RemoveAtSubtree(n: Node, parts: seq<string>, q: seq<string>)
    requires Wf(n) && parts != [] && Locate(n, parts).Some? && parts <= q
    ensures Locate(RemoveAt(n, parts), q) == None
  {
    var k := Find(n.children, parts[0]);
    assert q[0] == parts[0];
    if |parts| == 1 {
      var rest := n.children[..k] + n.children[k + 1..];
      forall i | 0 <= i < |rest| ensures rest[i].name != parts[0] {
        if i < k { assert rest[i] == n.children[i]; } else { assert rest[i] == n.children[i + 1]; }
      }
      assert Find(rest, parts[0]) == |rest|;
    } else {
      var c := RemoveAt(n.children[k], parts[1..]);
      assert parts[1..] <= q[1..];
      RemoveAtSubtree(n.children[k], parts[1..], q[1..]);
      FindReplace(n.children, k, c, parts[0]);
    }
  }

  /** Removing a node keeps every file and folder that is not below it. */
  lemma {:induction false} RemoveAtKeeps(n: Node, parts: seq<string>, q: seq<string>)
    requires parts != [] && Locate(n, parts).Some? && !(parts <= q)
    ensures IsFileAt(n, q) ==> Locate(RemoveAt(n, parts), q) == Locate(n, q)
    ensures IsFolderAt(n, q) ==> IsFolderAt(RemoveAt(n, parts), q)
  {
    if q != [] && Locate(n, q).Some? {
      if |parts| == 1 {
        RemoveChildKeeps(n, parts, q);
      } else {
        RemoveAtKeepsStep(n, parts, q);
        var k := Find(n.children, parts[0]);
        if Find(n.children, q[0]) == k {
          RemoveAtKeeps(n.children[k], parts[1..], q[1..]);
        }
      }
    }
  }

  /** Removing a child keeps every path that starts with another name. */
  lemma RemoveChildKeeps(n: Node, parts: seq<string>, q: seq<string>)
    requires |parts| == 1 && Locate(n, parts).Some? && q != [] && q[0] != parts[0]
    ensures Locate(RemoveAt(n, parts), q) == Locate(n, q)
  {
    var k := Find(n.children, parts[0]);
    var j := Find(n.children, q[0]);
    var rest := n.children[..k] + n.children[k + 1..];
    var r := RemoveAt(n, parts);
    assert r.Folder? && r.children == rest;
    FindRemove(n.children, k, q[0]);
    var g := Find(rest, q[0]);
    if j < |n.children| {
      assert rest[g] == n.children[j];
      assert Locate(r, q) == Locate(rest[g], q[1..]);
    } else {
      assert g == |rest|;
    }
  }

  /** One level of RemoveAtKeeps: another child is kept; the same child is walked into. */
  lemma RemoveAtKeepsStep(n: Node, parts: seq<string>, q: seq<string>)
    requires |parts| > 1 && Locate(n, parts).Some? && q != [] && Locate(n, q).Some?
    ensures var k := Find(n.children, parts[0]);
      if Find(n.children, q[0]) == k
      then Locate(RemoveAt(n, parts), q) == Locate(RemoveAt(n.children[k], parts[1..]), q[1..]) &&
        Locate(n, q) == Locate(n.children[k], q[1..])
      else Locate(RemoveAt(n, parts), q) == Locate(n, q)
  {
    var k := Find(n.children, parts[0]);
    FindReplace(n.children, k, RemoveAt(n.children[k], parts[1..]), q[0]);
  }

  // ---------------------------------------------------------------------
  // Writing contents

  /** Assigning contents keeps the tree's shape: every name stays, and so does well-formedness. */
  lemma {:induction false} WriteContentsWf(n: Node, parts: seq<string>, id: nat, bytes: seq<byte>)
    requires Wf(n)
    ensures var m := WriteContents(n, parts, id, bytes);
      Wf(m) && m.name == n.name && m.Folder? == n.Folder?
  {
    if parts != [] && n.Folder? {
      var k := Find(n.children, parts[0]);
      if k < |n.children| {
        WriteContentsWf(n.children[k], parts[1..], id, bytes);
        WfReplace(n.name, n.children, k, WriteContents(n.children[k], parts[1..], id, bytes));
      }
    }
  }

  /**
   * When the file at the path is the node with identity `id`, it now holds
   * the bytes; otherwise the tree is unchanged.
   */
  lemma {:induction false} WriteContentsAt(n: Node, parts: seq<string>, id: nat, bytes: seq<byte>)
    ensures var m := WriteContents(n, parts, id, bytes);
      if IsFileAt(n, parts) && Locate(n, parts).value.id == id
      then Locate(m, parts) == Some(File(Locate(n, parts).value.name, id, bytes))
      else m == n
  {
    if parts != [] && n.Folder? {
      var k := Find(n.children, parts[0]);
      if k < |n.children| {
        var c := WriteContents(n.children[k], parts[1..], id, bytes);
        WriteContentsAt(n.children[k], parts[1..], id, bytes);
        if c == n.children[k] {
          assert n.children[k := c] == n.children;
        } else {
          WriteContentsName(n.children[k], parts[1..], id, bytes);
          FindReplace(n.children, k, c, parts[0]);
        }
      }
    }
  }

  lemma {:induction false} WriteContentsName(n: Node, parts: seq<string>, id: nat, bytes: seq<byte>)
    ensures WriteContents(n, parts, id, bytes).name == n.name
  {
    if parts != [] && n.Folder? {
      var k := Find(n.children, parts[0]);
      if k < |n.children| {
        WriteContentsName(n.children[k], parts[1..], id, bytes);
      }
    }
  }

  /** Assigning contents at one path keeps every file elsewhere and every folder a folder. */
  lemma {:induction false} WriteContentsKeeps(n: Node, parts: seq<string>, id: nat, bytes: seq<byte>, q: seq<string>)
    requires q != parts
    ensures IsFileAt(n, q) ==> Locate(WriteContents(n, parts, id, bytes), q) == Locate(n, q)
    ensures IsFolderAt(n, q) ==> IsFolderAt(WriteContents(n, parts, id, bytes), q)
  {
    if q != [] && parts != [] && Locate(n, q).Some? {
      var k := Find(n.children, parts[0]);
      var j := Find(n.children, q[0]);
      if k < |n.children| {
        var c := WriteContents(n.children[k], parts[1..], id, bytes);
        WriteContentsName(n.children[k], parts[1..], id, bytes);
        FindReplace(n.children, k, c, q[0]);
        if j == k {
          WriteContentsKeeps(n.children[k], parts[1..], id, bytes, q[1..]);
        }
      }
    }
  }

  /** Assigning contents creates no node and changes no node's kind. */
  lemma {:induction false} WriteContentsShape(n: Node, parts: seq<string>, id: nat, bytes: seq<byte>, q: seq<string>)
    ensures IsFileAt(WriteContents(n, parts, id, bytes), q) == IsFileAt(n, q)
    ensures IsFolderAt(WriteContents(n, parts, id, bytes), q) == IsFolderAt(n, q)
    decreases |parts|
  {
    var m := WriteContents(n, parts, id, bytes);
    if q != [] && parts != [] && n.Folder? {
      var k := Find(n.children, parts[0]);
      if k < |n.children| {
        var c := WriteContents(n.children[k], parts[1..], id, bytes);
        WriteContentsName(n.children[k], parts[1..], id, bytes);
        FindReplace(n.children, k, c, q[0]);
        if Find(n.children, q[0]) == k {
          WriteContentsShape(n.children[k], parts[1..], id, bytes, q[1..]);
        }
      }
    }
  }

  // ---------------------------------------------------------------------
  // Node identities

  /** Every file node below `n` carries an identity smaller than `bound`. */
  predicate IdsBelow(n: Node, bound: nat)
  {
    match n
    case File(_, id, _) => id < bound
    case Folder(_, children) => forall i :: 0 <= i < |children| ==> IdsBelow(children[i], bound)
  }

  /** The file located at any path carries an identity below the bound. */
  lemma {:induction false} IdsBelowLocate(n: Node, bound: nat, q: seq<string>)
    requires IdsBelow(n, bound) && IsFileAt(n, q)
    ensures Locate(n, q).value.id < bound
  {
    if q != [] {
      IdsBelowLocate(n.children[Find(n.children, q[0])], bound, q[1..]);
    }
  }

  lemma {:induction false} IdsBelowMono(n: Node, bound: nat, larger: nat)
    requires IdsBelow(n, bound) && bound <= larger
    ensures IdsBelow(n, larger)
  {
    if n.Folder? {
      forall i | 0 <= i < |n.children| ensures IdsBelow(n.children[i], larger) {
        IdsBelowMono(n.children[i], bound, larger);
      }
    }
  }

  lemma {:induction false} FolderChainIds(parts: seq<string>, bound: nat)
    requires parts != []
    ensures IdsBelow(FolderChain(parts), bound)
  {
    if |parts| > 1 {
      FolderChainIds(parts[1..], bound);
    }
  }

  lemma {:induction false} FileChainIds(parts: seq<string>, id: nat, bound: nat)
    requires parts != [] && id < bound
    ensures IdsBelow(FileChain(parts, id), bound)
  {
    if |parts| > 1 {
      FileChainIds(parts[1..], id, bound);
    }
  }

  lemma IdsAppend(name: string, children: seq<Node>, c: Node, bound: nat)
    requires IdsBelow(Folder(name, children), bound) && IdsBelow(c, bound)
    ensures IdsBelow(Folder(name, children + [c]), bound)
  {
    var cs := children + [c];
    forall i | 0 <= i < |cs| ensures IdsBelow(cs[i], bound) {
      if i < |children| { assert cs[i] == children[i]; }
    }
  }

  lemma IdsReplace(name: string, children: seq<Node>, k: nat, c: Node, bound: nat)
    requires IdsBelow(Folder(name, children), bound) && k < |children| && IdsBelow(c, bound)
    ensures IdsBelow(Folder(name, children[k := c]), bound)
  {
    var cs := children[k := c];
    forall i | 0 <= i < |cs| ensures IdsBelow(cs[i], bound) {
      if i != k { assert cs[i] == children[i]; }
    }
  }

  /** Creating folders adds no file node. */
  lemma {:induction false} CreateFolderIds(n: Node, parts: seq<string>, bound: nat)
    requires n.Folder? && IdsBelow(n, bound) && CreateFolder(n, parts).Ok?
    ensures IdsBelow(CreateFolder(n, parts).value, bound)
  {
    if parts != [] {
      var k := Find(n.children, parts[0]);
      if k == |n.children| {
        FolderChainIds(parts, bound);
        IdsAppend(n.name, n.children, FolderChain(parts), bound);
      } else {
        CreateFolderIds(n.children[k], parts[1..], bound);
        IdsReplace(n.name, n.children, k, CreateFolder(n.children[k], parts[1..]).value, bound);
      }
    }
  }

  /** Creating a file adds at most one file node, with identity `id`. */
  lemma {:induction false} CreateFileIds(n: Node, parts: seq<string>, id: nat, bound: nat)
    requires n.Folder? && IdsBelow(n, bound) && id < bound && CreateFile(n, parts, id).Ok?
    ensures IdsBelow(CreateFile(n, parts, id).value.0, bound)
  {
    if parts != [] {
      var k := Find(n.children, parts[0]);
      if k == |n.children| {
        FileChainIds(parts, id, bound);
        IdsAppend(n.name, n.children, FileChain(parts, id), bound);
      } else if |parts| > 1 {
        CreateFileIds(n.children[k], parts[1..], id, bound);
        IdsReplace(n.name, n.children, k, CreateFile(n.children[k], parts[1..], id).value.0, bound);
      }
    }
  }

  lemma {:induction false} RemoveAtIds(n: Node, parts: seq<string>, bound: nat)
    requires parts != [] && Locate(n, parts).Some? && IdsBelow(n, bound)
    ensures IdsBelow(RemoveAt(n, parts), bound)
  {
    var k := Find(n.children, parts[0]);
    if |parts| == 1 {
      var cs := n.children[..k] + n.children[k + 1..];
      forall i | 0 <= i < |cs| ensures IdsBelow(cs[i], bound) {
        if i < k { assert cs[i] == n.children[i]; } else { assert cs[i] == n.children[i + 1]; }
      }
    } else {
      RemoveAtIds(n.children[k], parts[1..], bound);
      IdsReplace(n.name, n.children, k, RemoveAt(n.children[k], parts[1..]), bound);
    }
  }

  lemma {:induction false} WriteContentsIds(n: Node, parts: seq<string>, id: nat, bytes: seq<byte>, bound: nat)
    requires IdsBelow(n, bound)
    ensures IdsBelow(WriteContents(n, parts, id, bytes), bound)
  {
    if parts != [] && n.Folder? {
      var k := Find(n.children, parts[0]);
      if k < |n.children| {
        WriteContentsIds(n.children[k], parts[1..], id, bytes, bound);
        IdsReplace(n.name, n.children, k, WriteContents(n.children[k], parts[1..], id, bytes), bound);
      }
    }
  }
}
