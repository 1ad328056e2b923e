/**
 * The traversal utilities over the in-memory store: the recursive listing
 * that visits every file below the absolute root, the recursive size that
 * adds up the sizes of the visited files, and the listing filtered by a
 * name pattern.
 *
 * The visit hook of the listing is modelled as the sequence of paths it is
 * called with, in order; the visitors of the library (the total size, the
 * flat store's populator) only change their own state, so running them over
 * that sequence afterwards is the same as running them during the crawl.
 */
module Listing {
  import opened FileSystem
  import opened FilePaths
  import opened RamTree
  import opened RamStore
  import opened TreeSizes

  // ---------------------------------------------------------------------
  // Paths below a node

  /** The child of a folder with that name, if any. */
  function Child(n: Node, name: string): Option<Node>
  {
    if n.File? then None
    else
      var k := Find(n.children, name);
      if k < |n.children| then Some(n.children[k]) else None
  }

  /** Locating one more name is locating the child of what the path located. */
  lemma {:induction false} LocateSnoc(n: Node, parts: seq<string>, name: string)
    ensures Locate(n, parts + [name]) ==
      if Locate(n, parts).Some? then Child(Locate(n, parts).value, name) else None
    decreases |parts|
  {
    if parts == [] {
      assert [] + [name] == [name];
      assert [name][1..] == [];
    } else if n.Folder? {
      assert (parts + [name])[0] == parts[0];
      assert (parts + [name])[1..] == parts[1..] + [name];
      var k := Find(n.children, parts[0]);
      if k < |n.children| {
        LocateSnoc(n.children[k], parts[1..], name);
      }
    }
  }

  /** Every node of a well-formed tree is well formed. */
  lemma {:induction false} WfLocate(n: Node, parts: seq<string>)
    requires Wf(n) && Locate(n, parts).Some?
    ensures Wf(Locate(n, parts).value)
    decreases |parts|
  {
    if parts != [] {
      var k := Find(n.children, parts[0]);
      WfLocate(n.children[k], parts[1..]);
    }
  }

  /** In a well-formed folder, the i-th child is the one its name locates. */
  lemma ChildAt(n: Node, i: nat)
    requires Wf(n) && n.Folder? && i < |n.children|
    ensures Child(n, n.children[i].name) == Some(n.children[i])
  {
    FindUnique(n.children, i);
  }

  // ---------------------------------------------------------------------
  // What the crawl visits

  /** The visited paths of the files among `cs`, children of the folder at `p`, in listing order. */
  function FilesIn(cs: seq<Node>, p: seq<string>): (r: seq<FilePath>)
    ensures |r| <= |cs|
  {
    if cs == [] then []
    else
      var last := cs[|cs| - 1];
      FilesIn(cs[..|cs| - 1], p) + (if last.File? then [FilePath(p + [last.name], true)] else [])
  }

  /** The folders among `cs`, in listing order: the list the crawl recurses into afterwards. */
  function FolderChildren(cs: seq<Node>): (r: seq<Node>)
    ensures forall i :: 0 <= i < |r| ==> r[i] in cs && r[i].Folder?
  {
    if cs == [] then []
    else
      var last := cs[|cs| - 1];
      FolderChildren(cs[..|cs| - 1]) + (if last.Folder? then [last] else [])
  }

  /** `fs` is a sequence of folders, each a child of `parent`. */
  predicate ChildFolders(fs: seq<Node>, parent: Node)
  {
    parent.Folder? && forall i :: 0 <= i < |fs| ==> fs[i] in parent.children && fs[i].Folder?
  }

  /**
   * crawl(path) on the folder `n` located at `p`: visit each file listed
   * there, then crawl each listed folder in turn.
   */
  function Visits(n: Node, p: seq<string>): seq<FilePath>
    decreases n, 1, 0
  {
    if n.File? then [] else FilesIn(n.children, p) + VisitAll(FolderChildren(n.children), p, n)
  }

  /** The crawls of the folders `fs`, children of `parent` at `p`, one after the other. */
  function VisitAll(fs: seq<Node>, p: seq<string>, parent: Node): seq<FilePath>
    requires ChildFolders(fs, parent)
    decreases parent, 0, |fs|
  {
    if fs == [] then []
    else
      var last := fs[|fs| - 1];
      assert last in parent.children;
      VisitAll(fs[..|fs| - 1], p, parent) + Visits(last, p + [last.name])
  }

  /** The path of a visited file below `p`, as a path relative to `p`. */
  predicate Below(x: FilePath, p: seq<string>, depth: nat)
  {
    x.absolute && |x.parts| >= |p| + depth && x.parts[..|p|] == p
  }

  predicate NoDuplicates(xs: seq<FilePath>)
  {
    forall i, j :: 0 <= i < j < |xs| ==> xs[i] != xs[j]
  }

  lemma {:induction false} FilesInSound(cs: seq<Node>, p: seq<string>, x: FilePath)
    requires x in FilesIn(cs, p)
    ensures exists i :: 0 <= i < |cs| && cs[i].File? && x == FilePath(p + [cs[i].name], true)
  {
    var last := cs[|cs| - 1];
    if x in FilesIn(cs[..|cs| - 1], p) {
      FilesInSound(cs[..|cs| - 1], p, x);
      var i :| 0 <= i < |cs| - 1 && cs[..|cs| - 1][i].File? && x == FilePath(p + [cs[..|cs| - 1][i].name], true);
      assert cs[i] == cs[..|cs| - 1][i];
    } else {
      assert cs[|cs| - 1].File? && x == FilePath(p + [last.name], true);
    }
  }

  lemma {:induction false} FilesInHas(cs: seq<Node>, p: seq<string>, i: nat)
    requires i < |cs| && cs[i].File?
    ensures FilePath(p + [cs[i].name], true) in FilesIn(cs, p)
  {
    if i < |cs| - 1 {
      FilesInHas(cs[..|cs| - 1], p, i);
    }
  }

  lemma {:induction false} FilesInDistinct(cs: seq<Node>, p: seq<string>)
    requires DistinctNames(cs)
    ensures NoDuplicates(FilesIn(cs, p))
  {
    if cs != [] {
      var init := cs[..|cs| - 1];
      var last := cs[|cs| - 1];
      FilesInDistinct(init, p);
      if last.File? {
        var x := FilePath(p + [last.name], true);
        var a := FilesIn(init, p);
        forall k, j | 0 <= k < |a| && 0 <= j < |[x]| ensures a[k] != [x][j] {
          FilesInSound(init, p, a[k]);
          var i :| 0 <= i < |init| && init[i].File? && a[k] == FilePath(p + [init[i].name], true);
          assert (p + [init[i].name])[|p|] == init[i].name;
          assert (p + [last.name])[|p|] == last.name;
          assert cs[i] == init[i];
        }
        AppendDistinct(a, [x]);
      }
    }
  }

  lemma {:induction false} FolderChildrenHas(cs: seq<Node>, i: nat)
    requires i < |cs| && cs[i].Folder?
    ensures exists j :: 0 <= j < |FolderChildren(cs)| && FolderChildren(cs)[j] == cs[i]
  {
    var init := cs[..|cs| - 1];
    var f := FolderChildren(init);
    assert FolderChildren(cs) == f + (if cs[|cs| - 1].Folder? then [cs[|cs| - 1]] else []);
    if i < |cs| - 1 {
      FolderChildrenHas(init, i);
      var j :| 0 <= j < |f| && f[j] == init[i];
      assert FolderChildren(cs)[j] == f[j];
    } else {
      assert FolderChildren(cs)[|f|] == cs[i];
    }
  }

  /** The folders kept have distinct names when the children have: each is a distinct child. */
  lemma {:induction false} FolderChildrenDistinct(cs: seq<Node>)
    requires DistinctNames(cs)
    ensures DistinctNames(FolderChildren(cs))
  {
    if cs != [] {
      var init := cs[..|cs| - 1];
      var last := cs[|cs| - 1];
      FolderChildrenDistinct(init);
      var f := FolderChildren(init);
      if last.Folder? {
        forall i | 0 <= i < |f| ensures f[i].name != last.name {
          assert f[i] in init;
          var j :| 0 <= j < |init| && init[j] == f[i];
          assert cs[j] == init[j];
        }
      }
    }
  }

  /**
   * Every visited path is a file of the tree below the folder, given as the
   * folder's path followed by the file's path inside it.
   */
  lemma {:induction false} VisitsSound(n: Node, p: seq<string>, x: FilePath)
    requires Wf(n) && x in Visits(n, p)
    ensures Below(x, p, 1) && IsFileAt(n, x.parts[|p|..])
    decreases n, 1, 0
  {
    var cs := n.children;
    if x in FilesIn(cs, p) {
      FilesInSound(cs, p, x);
      var i :| 0 <= i < |cs| && cs[i].File? && x == FilePath(p + [cs[i].name], true);
      assert x.parts[..|p|] == p;
      assert x.parts[|p|..] == [cs[i].name];
      ChildAt(n, i);
      assert Locate(cs[i], []) == Some(cs[i]);
    } else {
      VisitAllSound(FolderChildren(cs), p, n, x);
    }
  }

  lemma {:induction false} VisitAllSound(fs: seq<Node>, p: seq<string>, parent: Node, x: FilePath)
    requires ChildFolders(fs, parent) && Wf(parent)
    requires x in VisitAll(fs, p, parent)
    ensures Below(x, p, 2) && IsFileAt(parent, x.parts[|p|..])
    ensures exists j :: 0 <= j < |fs| && x.parts[|p|] == fs[j].name
    decreases parent, 0, |fs|
  {
    var last := fs[|fs| - 1];
    var init := fs[..|fs| - 1];
    if x in VisitAll(init, p, parent) {
      VisitAllSound(init, p, parent, x);
      var j :| 0 <= j < |init| && x.parts[|p|] == init[j].name;
      assert fs[j] == init[j];
    } else {
      assert last in parent.children;
      var i :| 0 <= i < |parent.children| && parent.children[i] == last;
      ChildPath(parent, i, []);
      VisitsSound(last, p + [last.name], x);
      SoundStep(parent, i, p, x);
    }
  }

  /** A path into the i-th child of a well-formed folder is that child's name followed by the path inside it. */
  lemma ChildPath(parent: Node, i: nat, rest: seq<string>)
    requires Wf(parent) && parent.Folder? && i < |parent.children|
    ensures Wf(parent.children[i])
    ensures Locate(parent, [parent.children[i].name] + rest) == Locate(parent.children[i], rest)
  {
    var c := parent.children[i];
    FindUnique(parent.children, i);
    assert ([c.name] + rest)[0] == c.name;
    assert ([c.name] + rest)[1..] == rest;
  }

  /** A file found below the i-th child at p + [name] is found below the parent at p. */
  lemma SoundStep(parent: Node, i: nat, p: seq<string>, x: FilePath)
    requires Wf(parent) && parent.Folder? && i < |parent.children|
    requires Below(x, p + [parent.children[i].name], 1)
    requires IsFileAt(parent.children[i], x.parts[|p| + 1..])
    ensures Below(x, p, 2) && IsFileAt(parent, x.parts[|p|..]) && x.parts[|p|] == parent.children[i].name
  {
    var c := parent.children[i];
    PrefixSplit(x.parts, p, c.name);
    ChildPath(parent, i, x.parts[|p| + 1..]);
  }

  /** A sequence that starts with p + [name] is p, then name, then the rest. */
  lemma PrefixSplit(parts: seq<string>, p: seq<string>, name: string)
    requires |parts| >= |p| + 1 && parts[..|p| + 1] == p + [name]
    ensures parts[..|p|] == p && parts[|p|] == name && parts[|p|..] == [name] + parts[|p| + 1..]
  {
    assert parts[..|p|] == parts[..|p| + 1][..|p|];
    assert parts[|p|] == parts[..|p| + 1][|p|];
  }

  /** Every file of the tree below the folder is visited. */
  lemma {:induction false} VisitsComplete(n: Node, p: seq<string>, q: seq<string>)
    requires Wf(n) && n.Folder? && IsFileAt(n, q)
    ensures FilePath(p + q, true) in Visits(n, p)
    decreases n
  {
    var cs := n.children;
    var k := Find(cs, q[0]);
    assert k < |cs|;
    var c := cs[k];
    assert Locate(n, q) == Locate(c, q[1..]);
    if |q| == 1 {
      assert q[1..] == [];
      assert c.File?;
      assert q == [q[0]] == [c.name];
      FilesInHas(cs, p, k);
    } else {
      assert Locate(c, q[1..]).Some?;
      assert c.Folder?;
      FolderChildrenHas(cs, k);
      var fc := FolderChildren(cs);
      var j :| 0 <= j < |fc| && fc[j] == c;
      VisitsComplete(c, p + [c.name], q[1..]);
      assert (p + [c.name]) + q[1..] == p + q;
      VisitAllHas(fc, p, n, j, FilePath(p + q, true));
    }
  }

  lemma {:induction false} VisitAllHas(fs: seq<Node>, p: seq<string>, parent: Node, k: nat, x: FilePath)
    requires ChildFolders(fs, parent)
    requires k < |fs| && x in Visits(fs[k], p + [fs[k].name])
    ensures x in VisitAll(fs, p, parent)
    decreases |fs|
  {
    if k < |fs| - 1 {
      VisitAllHas(fs[..|fs| - 1], p, parent, k, x);
    }
  }

  /** No path is visited twice. */
  lemma {:induction false} VisitsDistinct(n: Node, p: seq<string>)
    requires Wf(n)
    ensures NoDuplicates(Visits(n, p))
    decreases n, 1, 0
  {
    if n.Folder? {
      var cs := n.children;
      var a := FilesIn(cs, p);
      var fs := FolderChildren(cs);
      var b := VisitAll(fs, p, n);
      FilesInDistinct(cs, p);
      FolderChildrenDistinct(cs);
      VisitAllDistinct(fs, p, n);
      forall i, j | 0 <= i < |a| && 0 <= j < |b| ensures a[i] != b[j] {
        FilesInSound(cs, p, a[i]);
        VisitAllSound(fs, p, n, b[j]);
      }
      AppendDistinct(a, b);
    }
  }

  lemma {:induction false} VisitAllDistinct(fs: seq<Node>, p: seq<string>, parent: Node)
    requires ChildFolders(fs, parent) && Wf(parent)
    requires DistinctNames(fs)
    ensures NoDuplicates(VisitAll(fs, p, parent))
    decreases parent, 0, |fs|
  {
    if fs != [] {
      var init := fs[..|fs| - 1];
      var last := fs[|fs| - 1];
      var a := VisitAll(init, p, parent);
      var b := Visits(last, p + [last.name]);
      VisitAllDistinct(init, p, parent);
      assert last in parent.children;
      VisitsDistinct(last, p + [last.name]);
      forall i, j | 0 <= i < |a| && 0 <= j < |b| ensures a[i] != b[j] {
        VisitAllSound(init, p, parent, a[i]);
        var k :| 0 <= k < |init| && a[i].parts[|p|] == init[k].name;
        assert fs[k] == init[k];
        VisitsSound(last, p + [last.name], b[j]);
        assert b[j].parts[|p|] == (p + [last.name])[|p|];
      }
      AppendDistinct(a, b);
    }
  }

  lemma AppendDistinct(a: seq<FilePath>, b: seq<FilePath>)
    requires NoDuplicates(a) && NoDuplicates(b)
    requires forall i, j :: 0 <= i < |a| && 0 <= j < |b| ==> a[i] != b[j]
    ensures NoDuplicates(a + b)
  {
    forall i, j | 0 <= i < j < |a + b| ensures (a + b)[i] != (a + b)[j] {
      if j < |a| {
      } else if i >= |a| {
        assert (a + b)[i] == b[i - |a|] && (a + b)[j] == b[j - |a|];
      } else {
        assert (a + b)[j] == b[j - |a|];
      }
    }
  }

  /**
   * The crawl visits every file below the folder exactly once and nothing
   * else: a path is visited iff it is the folder's path followed by the
   * path of a file inside it.
   */
  lemma CrawlVisitsEachFileOnce(n: Node, p: seq<string>, q: seq<string>)
    requires Wf(n) && n.Folder?
    ensures FilePath(p + q, true) in Visits(n, p) <==> IsFileAt(n, q)
    ensures NoDuplicates(Visits(n, p))
  {
    if IsFileAt(n, q) {
      VisitsComplete(n, p, q);
    }
    if FilePath(p + q, true) in Visits(n, p) {
      VisitsSound(n, p, FilePath(p + q, true));
      assert (p + q)[|p|..] == q;
    }
    VisitsDistinct(n, p);
  }

  // ---------------------------------------------------------------------
  // The crawl, as the store is queried

  /** The listing of a folder the store holds at a normal path is the names of its children. */
  lemma ListingOf(d: DiskState, path: FilePath, n: Node)
    requires DiskValid(d) && path.absolute && Locate(d.root, path.parts) == Some(n) && n.Folder?
    ensures LsPathSpec(d, ToString(path)) == Ok(Names(n.children))
  {
    LocateValidNames(d.root, path.parts);
    ChdirToString(d.cwd, path);
  }

  /** The i-th entry of that listing, as crawl(path) sees it. */
  lemma EntryFacts(d: DiskState, path: FilePath, n: Node, i: nat)
    requires DiskValid(d) && path.absolute && Locate(d.root, path.parts) == Some(n) && n.Folder?
    requires i < |n.children|
    ensures var sub := FilePath(path.parts + [n.children[i].name], true);
      ChdirStr(path, n.children[i].name) == sub && sub.absolute &&
      Locate(d.root, sub.parts) == Some(n.children[i]) &&
      IsDirSpec(d, ToString(sub)) == n.children[i].Folder?
  {
    var name := n.children[i].name;
    LocateValidNames(d.root, path.parts);
    WfLocate(d.root, path.parts);
    ChdirName(path, name);
    var sub := FilePath(path.parts + [name], true);
    ChdirToString(d.cwd, sub);
    LocateSnoc(d.root, path.parts, name);
    ChildAt(n, i);
  }

  /** One more child splits into one more file or one more folder. */
  lemma SplitStep(cs: seq<Node>, p: seq<string>, i: nat)
    requires i < |cs|
    ensures FilesIn(cs[..i + 1], p) ==
      FilesIn(cs[..i], p) + (if cs[i].File? then [FilePath(p + [cs[i].name], true)] else [])
    ensures FolderChildren(cs[..i + 1]) == FolderChildren(cs[..i]) + (if cs[i].Folder? then [cs[i]] else [])
  {
    assert cs[..i + 1][..i] == cs[..i];
  }

  /** `folders` are the paths of the folder nodes `nodes`, each a child of the folder at `p`. */
  predicate FolderPaths(folders: seq<FilePath>, nodes: seq<Node>, root: Node, p: seq<string>)
  {
    |folders| == |nodes| &&
    forall j :: 0 <= j < |folders| ==>
      folders[j] == FilePath(p + [nodes[j].name], true) && Locate(root, folders[j].parts) == Some(nodes[j])
  }

  lemma FolderPathsSnoc(folders: seq<FilePath>, nodes: seq<Node>, root: Node, p: seq<string>, sub: FilePath, c: Node)
    requires FolderPaths(folders, nodes, root, p)
    requires sub == FilePath(p + [c.name], true) && Locate(root, sub.parts) == Some(c)
    ensures FolderPaths(folders + [sub], nodes + [c], root, p)
  {
    var fs', ns' := folders + [sub], nodes + [c];
    assert forall j :: 0 <= j < |folders| ==> fs'[j] == folders[j] && ns'[j] == nodes[j];
  }

  /** One entry of the listing: the path crawl builds for it and whether the store calls it a directory. */
  method Classify(fs: RamDisk, path: FilePath, name: string, ghost n: Node, ghost i: nat)
    returns (sub: FilePath, isDir: bool)
    requires fs.Valid() && path.absolute && Locate(fs.root, path.parts) == Some(n) && n.Folder?
    requires i < |n.children| && name == n.children[i].name
    ensures sub == FilePath(path.parts + [name], true) && Locate(fs.root, sub.parts) == Some(n.children[i])
    ensures isDir == n.children[i].Folder?
  {
    EntryFacts(fs.Model(), path, n, i);
    sub := ChdirStr(path, name);
    isDir := fs.IsDirectory(ToString(sub));
  }

  /** The first loop of crawl(path): visit the files listed, collect the folders. */
  method Entries(fs: RamDisk, path: FilePath, ghost n: Node) returns (visited: seq<FilePath>, folders: seq<FilePath>, ghost nodes: seq<Node>)
    requires fs.Valid() && path.absolute && Locate(fs.root, path.parts) == Some(n) && n.Folder?
    ensures visited == FilesIn(n.children, path.parts) && nodes == FolderChildren(n.children)
    ensures FolderPaths(folders, nodes, fs.root, path.parts)
  {
    ghost var cs := n.children;
    ListingOf(fs.Model(), path, n);
    var listing := fs.LsPath(ToString(path));
    var names := listing.value;
    folders := [];
    nodes := [];
    visited := [];
    var i := 0;
    while i < |names|
      invariant 0 <= i <= |names| == |cs| && names == Names(cs)
      invariant visited == FilesIn(cs[..i], path.parts)
      invariant nodes == FolderChildren(cs[..i])
      invariant FolderPaths(folders, nodes, fs.root, path.parts)
    {
      SplitStep(cs, path.parts, i);
      var sub, isDir := Classify(fs, path, names[i], n, i);
      if isDir {
        FolderPathsSnoc(folders, nodes, fs.root, path.parts, sub, cs[i]);
        folders := folders + [sub];
        nodes := nodes + [cs[i]];
      } else {
        visited := visited + [sub];
      }
      i := i + 1;
    }
    assert cs[..i] == cs;
  }

  /**
   * crawl(path): list the folder, visit each entry that is not a directory,
   * remember the directories, then crawl each of them in listing order. The
   * result is the sequence of paths given to visit.
   */
  method Crawl(fs: RamDisk, path: FilePath, ghost n: Node) returns (visited: seq<FilePath>)
    requires fs.Valid() && path.absolute && Locate(fs.root, path.parts) == Some(n) && n.Folder?
    ensures visited == Visits(n, path.parts)
    decreases n
  {
    var folders;
    ghost var nodes;
    visited, folders, nodes := Entries(fs, path, n);
    ghost var p := path.parts;
    ghost var files := visited;
    var j := 0;
    while j < |folders|
      invariant 0 <= j <= |folders|
      invariant visited == files + VisitAll(nodes[..j], p, n)
    {
      FolderAt(folders, nodes, fs.root, p, n, j);
      var more := Crawl(fs, folders[j], nodes[j]);
      CrawlStep(files, nodes, p, n, j, visited, more);
      visited := visited + more;
      j := j + 1;
    }
    assert nodes[..j] == nodes;
  }

  /** The j-th folder the first loop collected is a child folder of the folder crawled, at its path. */
  lemma FolderAt(folders: seq<FilePath>, nodes: seq<Node>, root: Node, p: seq<string>, n: Node, j: nat)
    requires n.Folder? && nodes == FolderChildren(n.children) && FolderPaths(folders, nodes, root, p) && j < |folders|
    ensures nodes[j] in n.children && nodes[j].Folder?
    ensures folders[j].absolute && folders[j].parts == p + [nodes[j].name] && Locate(root, folders[j].parts) == Some(nodes[j])
  {
  }

  /** The visits of one more crawled folder extend the visits so far. */
  lemma CrawlStep(files: seq<FilePath>, nodes: seq<Node>, p: seq<string>, n: Node, j: nat,
                  visited: seq<FilePath>, more: seq<FilePath>)
    requires ChildFolders(nodes, n) && j < |nodes|
    requires visited == files + VisitAll(nodes[..j], p, n) && more == Visits(nodes[j], p + [nodes[j].name])
    ensures visited + more == files + VisitAll(nodes[..j + 1], p, n)
  {
    VisitAllSnoc(nodes, p, n, j);
  }

  /** Crawling one more folder appends its visits. */
  lemma VisitAllSnoc(fs: seq<Node>, p: seq<string>, parent: Node, j: nat)
    requires ChildFolders(fs, parent) && j < |fs|
    ensures VisitAll(fs[..j + 1], p, parent) == VisitAll(fs[..j], p, parent) + Visits(fs[j], p + [fs[j].name])
  {
    assert fs[..j + 1][..j] == fs[..j];
  }

  /** crawl(): the crawl from FilePath(""), which is the absolute root. */
  method CrawlAll(fs: RamDisk) returns (visited: seq<FilePath>)
    requires fs.Valid()
    ensures visited == Visits(fs.root, [])
    ensures forall q :: FilePath(q, true) in visited <==> IsFileAt(fs.root, q)
    ensures NoDuplicates(visited)
  {
    ParseEmpty();
    visited := Crawl(fs, Parse(""), fs.root);
    forall q ensures FilePath(q, true) in visited <==> IsFileAt(fs.root, q) {
      CrawlVisitsEachFileOnce(fs.root, [], q);
      assert [] + q == q;
    }
    CrawlVisitsEachFileOnce(fs.root, [], []);
  }

  // ---------------------------------------------------------------------
  // The recursive size

  /** The size of a file node, or nothing for a folder or a missing path. */
  function FileBytes(root: Node, q: seq<string>): nat
  {
    match Locate(root, q)
    case Some(File(_, _, contents)) => |contents|
    case _ => 0
  }

  /** What TotalSize adds up over the visited paths. */
  function VisitedBytes(root: Node, vs: seq<FilePath>): nat
  {
    if vs == [] then 0 else VisitedBytes(root, vs[..|vs| - 1]) + FileBytes(root, vs[|vs| - 1].parts)
  }

  lemma {:induction false} VisitedBytesAppend(root: Node, a: seq<FilePath>, b: seq<FilePath>)
    ensures VisitedBytes(root, a + b) == VisitedBytes(root, a) + VisitedBytes(root, b)
    decreases |b|
  {
    if b == [] {
      assert a + b == a;
    } else {
      assert (a + b)[..|a + b| - 1] == a + b[..|b| - 1];
      VisitedBytesAppend(root, a, b[..|b| - 1]);
    }
  }

  /** The files and the folders among the first i children, split. */
  lemma {:induction false} ChildrenSplit(root: Node, parent: Node, p: seq<string>, i: nat)
    requires Wf(parent) && parent.Folder? && Locate(root, p) == Some(parent) && i <= |parent.children|
    ensures VisitedBytes(root, FilesIn(parent.children[..i], p)) +
            VisitedBytes(root, VisitAll(FolderChildren(parent.children[..i]), p, parent))
            == ChildrenBytes(parent, i)
    decreases parent, i
  {
    if i > 0 {
      ChildrenSplit(root, parent, p, i - 1);
      var c := parent.children[i - 1];
      var fa := FilesIn(parent.children[..i - 1], p);
      var fs := FolderChildren(parent.children[..i - 1]);
      var va := VisitAll(fs, p, parent);
      SplitStep(parent.children, p, i - 1);
      LocateSnoc(root, p, c.name);
      ChildAt(parent, i - 1);
      ChildPath(parent, i - 1, []);
      assert ChildrenBytes(parent, i) == ChildrenBytes(parent, i - 1) + TreeBytes(c);
      if c.File? {
        FileBytesStep(root, fa, p + [c.name]);
        assert FileBytes(root, p + [c.name]) == TreeBytes(c);
        assert FilesIn(parent.children[..i], p) == fa + [FilePath(p + [c.name], true)];
        assert FolderChildren(parent.children[..i]) == fs;
      } else {
        assert (fs + [c])[..|fs|] == fs;
        VisitAllSnoc(fs + [c], p, parent, |fs|);
        assert VisitAll(fs + [c], p, parent) == va + Visits(c, p + [c.name]);
        VisitedBytesAppend(root, va, Visits(c, p + [c.name]));
        TreeBytesVisited(root, c, p + [c.name]);
        assert FilesIn(parent.children[..i], p) == fa;
        assert FolderChildren(parent.children[..i]) == fs + [c];
      }
    }
  }

  /** One more visited file adds its size. */
  lemma FileBytesStep(root: Node, vs: seq<FilePath>, q: seq<string>)
    ensures VisitedBytes(root, vs + [FilePath(q, true)]) == VisitedBytes(root, vs) + FileBytes(root, q)
  {
    assert (vs + [FilePath(q, true)])[..|vs|] == vs;
  }

  /** TotalSize over the crawl of a folder adds up exactly the bytes of its files. */
  lemma {:induction false} TreeBytesVisited(root: Node, n: Node, p: seq<string>)
    requires Wf(n) && Locate(root, p) == Some(n) && n.Folder?
    ensures VisitedBytes(root, Visits(n, p)) == TreeBytes(n)
    decreases n, |n.children| + 1
  {
    var cs := n.children;
    assert cs[..|cs|] == cs;
    ChildrenSplit(root, n, p, |cs|);
    VisitedBytesAppend(root, FilesIn(cs, p), VisitAll(FolderChildren(cs), p, n));
  }

  /** visit of TotalSize, once per visited path: add the size getSize reports. */
  method SumSizes(fs: RamDisk, visited: seq<FilePath>) returns (total: nat)
    requires fs.Valid()
    requires forall k :: 0 <= k < |visited| ==> visited[k].absolute && IsFileAt(fs.root, visited[k].parts)
    ensures total == VisitedBytes(fs.root, visited)
  {
    total := 0;
    var i := 0;
    while i < |visited|
      invariant 0 <= i <= |visited|
      invariant total == VisitedBytes(fs.root, visited[..i])
    {
      SizeOf(fs.Model(), visited[i]);
      var size := fs.GetSize(ToString(visited[i]));
      assert visited[..i + 1][..i] == visited[..i];
      total := total + size.value;
      i := i + 1;
    }
    assert visited[..i] == visited;
  }

  /**
   * FileUtils.getSize(fs, path): pushd(path), crawl, popd. The crawl starts
   * at the absolute root whatever the path, so the result is the size of the
   * whole store; pushd fails, and nothing changes, unless the store is open.
   */
  method GetSize(fs: RamDisk, path: string) returns (r: Result<nat>)
    requires fs.Valid()
    modifies fs
    ensures fs.Valid() && fs.Model() == old(fs.Model())
    ensures r == if old(fs.state) == Open then Ok(TreeBytes(old(fs.root))) else Err(NotOpen)
  {
    ghost var d := fs.Model();
    var o := fs.Pushd(path);
    if o.Fail? {
      return Err(o.error);
    }
    var visited := CrawlAll(fs);
    forall k | 0 <= k < |visited| ensures visited[k].absolute && IsFileAt(fs.root, visited[k].parts) {
      VisitsSound(fs.root, [], visited[k]);
      assert visited[k].parts[0..] == visited[k].parts;
    }
    var total := SumSizes(fs, visited);
    TreeBytesVisited(fs.root, fs.root, []);
    PopdUndoesChdir(d, path);
    o := fs.Popd();
    r := Ok(total);
  }

  /** getSize on the string form of a visited path reports the size of that file. */
  lemma SizeOf(d: DiskState, x: FilePath)
    requires DiskValid(d) && x.absolute && IsFileAt(d.root, x.parts)
    ensures SizeSpec(d, ToString(x)) == Ok(FileBytes(d.root, x.parts))
  {
    LocateValidNames(d.root, x.parts);
    ChdirToString(d.cwd, x);
  }

  /** The path of a node of a well-formed tree is made of valid names. */
  lemma {:induction false} LocateValidNames(n: Node, q: seq<string>)
    requires Wf(n) && Locate(n, q).Some?
    ensures AllValid(q)
    decreases |q|
  {
    if q != [] {
      var k := Find(n.children, q[0]);
      LocateValidNames(n.children[k], q[1..]);
      assert q == [q[0]] + q[1..];
    }
  }

  // ---------------------------------------------------------------------
  // The filtered listing

  /** The entries of the listing that match the pattern, in their order. */
  function Filter(listing: seq<string>, matches: string -> bool): (r: seq<string>)
    ensures |r| <= |listing|
  {
    if listing == [] then []
    else
      var last := listing[|listing| - 1];
      Filter(listing[..|listing| - 1], matches) + (if matches(last) then [last] else [])
  }

  /** The filter keeps exactly the matching entries. */
  lemma {:induction false} FilterMembers(listing: seq<string>, matches: string -> bool, x: string)
    ensures x in Filter(listing, matches) <==> x in listing && matches(x)
  {
    if listing != [] {
      FilterMembers(listing[..|listing| - 1], matches, x);
      assert listing == listing[..|listing| - 1] + [listing[|listing| - 1]];
    }
  }

  /** The filter keeps the order: filtering a concatenation concatenates the filtered parts. */
  lemma {:induction false} FilterAppend(a: seq<string>, b: seq<string>, matches: string -> bool)
    ensures Filter(a + b, matches) == Filter(a, matches) + Filter(b, matches)
    decreases |b|
  {
    if b == [] {
      assert a + b == a;
    } else {
      assert (a + b)[..|a + b| - 1] == a + b[..|b| - 1];
      FilterAppend(a, b[..|b| - 1], matches);
    }
  }

  /**
   * FileUtils.ls(fs, path, pattern): list the path, then walk the list with
   * an iterator, removing each entry that does not match the pattern. The
   * pattern is given as the predicate it stands for.
   */
  method LsMatching(fs: RamDisk, path: string, matches: string -> bool) returns (r: Result<seq<string>>)
    ensures LsPathSpec(fs.Model(), path).Err? ==> r == LsPathSpec(fs.Model(), path)
    ensures LsPathSpec(fs.Model(), path).Ok? ==> r == Ok(Filter(LsPathSpec(fs.Model(), path).value, matches))
  {
    var full := fs.LsPath(path);
    if full.Err? {
      return full;
    }
    var kept := RemoveUnmatched(full.value, matches);
    r := Ok(kept);
  }

  /** The iterator loop of ls(fs, path, pattern): remove, in place, each entry that does not match. */
  method RemoveUnmatched(listing: seq<string>, matches: string -> bool) returns (kept: seq<string>)
    ensures kept == Filter(listing, matches)
  {
    kept := listing;
    ghost var k := 0;
    var i := 0;
    while i < |kept|
      invariant 0 <= k <= |listing| && 0 <= i <= |kept|
      invariant kept[..i] == Filter(listing[..k], matches) && kept[i..] == listing[k..]
      decreases |listing| - k
    {
      assert listing[..k + 1][..k] == listing[..k];
      assert kept[i] == listing[k];
      if !matches(kept[i]) {
        kept := kept[..i] + kept[i + 1..];
      } else {
        i := i + 1;
      }
      k := k + 1;
    }
    assert listing[..k] == listing;
    assert kept[..i] == kept;
  }
}
