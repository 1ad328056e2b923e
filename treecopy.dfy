/**
 * The copy of one store into another, from the file utilities: every file
 * listed in the source's current directory is read and written to the same
 * name in the target's current directory, then every folder listed there is
 * created in the target and copied in turn, both stores moving into it with
 * pushd and back with popd.
 *
 * Both stores are in-memory stores, and distinct objects. The contract says
 * that a copy that succeeds leaves, below the target's current directory,
 * every file of the source's current folder with identical bytes and every
 * folder as a folder; that nothing else of the target changes except the
 * files written over; and that both current directories are as they were.
 */
module StoreCopy {
  import opened FileSystem
  import opened FilePaths
  import opened RamTree
  import opened RamStore
  import opened ByteStreams
  import StreamCopy
  import Listing

  // ---------------------------------------------------------------------
  // What a copy leaves behind

  /** The node at `p` in `t` reproduces `m`: a file with the same bytes, or a folder. */
  predicate Holds(t: Node, p: seq<string>, m: Node)
  {
    match m
    case File(_, _, bytes) => IsFileAt(t, p) && Locate(t, p).value.contents == bytes
    case Folder(_, _) => IsFolderAt(t, p)
  }

  /** Every node below `n`, at its path `q`, is reproduced at `c + q` in `t`. */
  ghost predicate Copied(t: Node, c: seq<string>, n: Node)
  {
    forall q :: q != [] && Locate(n, q).Some? ==> Holds(t, c + q, Locate(n, q).value)
  }

  /** The child `ch` and everything below it are reproduced at `c + [ch.name]`. */
  ghost predicate CopiedChild(t: Node, c: seq<string>, ch: Node)
  {
    Holds(t, c + [ch.name], ch) && Copied(t, c + [ch.name], ch)
  }

  /** `p` is where a copy of the folder `n` to `c` writes a file. */
  predicate Dest(c: seq<string>, n: Node, p: seq<string>)
  {
    |c| <= |p| && p[..|c|] == c && IsFileAt(n, p[|c|..])
  }

  /** `p` is where a copy of the folder `n` to `c` makes a folder: `c` itself, or a folder below it. */
  predicate DestDir(c: seq<string>, n: Node, p: seq<string>)
  {
    |c| <= |p| && p[..|c|] == c && IsFolderAt(n, p[|c|..])
  }

  /** `p` lies strictly above `c`: a folder that writing below `c` creates when it is missing. */
  predicate Above(c: seq<string>, p: seq<string>)
  {
    |p| < |c| && p == c[..|p|]
  }

  /**
   * From `t` to `u` files stay files and folders stay folders, and every
   * file other than a destination of the copy of `n` to `c` is untouched.
   * Nothing new appears but at the copy's destinations: a new file is a
   * destination file, and a new folder is a destination folder or lies
   * above `c`.
   */
  ghost predicate Kept(t: Node, u: Node, c: seq<string>, n: Node)
  {
    (forall p :: IsFileAt(t, p) ==> IsFileAt(u, p)) &&
    (forall p :: IsFolderAt(t, p) ==> IsFolderAt(u, p)) &&
    (forall p :: IsFileAt(t, p) && !Dest(c, n, p) ==> Locate(u, p) == Locate(t, p)) &&
    (forall p :: IsFileAt(u, p) ==> IsFileAt(t, p) || Dest(c, n, p)) &&
    (forall p :: IsFolderAt(u, p) ==> IsFolderAt(t, p) || DestDir(c, n, p) || Above(c, p))
  }

  // ---------------------------------------------------------------------
  // How the steps of the copy combine

  lemma KeptTrans(t1: Node, t2: Node, t3: Node, c: seq<string>, n: Node)
    requires Kept(t1, t2, c, n) && Kept(t2, t3, c, n)
    ensures Kept(t1, t3, c, n)
  {
  }

  /** Below the copy of a child, the parent locates what the child locates. */
  lemma {:induction false} LocateNarrow(c: seq<string>, n: Node, i: nat, p: seq<string>)
    requires n.Folder? && i < |n.children| && Find(n.children, n.children[i].name) == i
    requires |c| + 1 <= |p| && p[..|c| + 1] == c + [n.children[i].name]
    ensures p[..|c|] == c && Locate(n, p[|c|..]) == Locate(n.children[i], p[|c| + 1..])
  {
    var ch := n.children[i];
    var r := p[|c| + 1..];
    assert p[..|c|] == c by {
      assert p[..|c|] == p[..|c| + 1][..|c|];
    }
    assert p[|c|..] == [ch.name] + r by {
      assert p[|c|] == p[..|c| + 1][|c|];
    }
    LocateChildAt(n, i, r);
  }

  /** A destination of the copy of a child is a destination of the copy of its parent. */
  lemma DestNarrow(c: seq<string>, n: Node, i: nat, p: seq<string>)
    requires n.Folder? && i < |n.children| && Find(n.children, n.children[i].name) == i
    requires Dest(c + [n.children[i].name], n.children[i], p) || DestDir(c + [n.children[i].name], n.children[i], p)
    ensures Dest(c + [n.children[i].name], n.children[i], p) ==> Dest(c, n, p)
    ensures DestDir(c + [n.children[i].name], n.children[i], p) ==> DestDir(c, n, p)
  {
    LocateNarrow(c, n, i, p);
  }

  /** Above the copy of a child lies what is above the copy of the parent, and the parent's own place. */
  lemma AboveNarrow(c: seq<string>, x: string, n: Node, p: seq<string>)
    requires n.Folder? && Above(c + [x], p)
    ensures Above(c, p) || DestDir(c, n, p)
  {
    if |p| == |c| {
      assert p == c && p[|c|..] == [];
    } else {
      assert c[..|p|] == (c + [x])[..|p|];
    }
  }

  /** Below the name of a child, a folder locates what the child locates. */
  lemma {:induction false} LocateChildAt(n: Node, i: nat, r: seq<string>)
    requires n.Folder? && i < |n.children| && Find(n.children, n.children[i].name) == i
    ensures Locate(n, [n.children[i].name] + r) == Locate(n.children[i], r)
  {
    assert ([n.children[i].name] + r)[1..] == r;
  }

  /** What the copy of a child may write, the copy of its parent may write too. */
  lemma KeptNarrow(t: Node, u: Node, c: seq<string>, n: Node, i: nat)
    requires Wf(n) && n.Folder? && i < |n.children|
    requires Kept(t, u, c + [n.children[i].name], n.children[i])
    ensures Kept(t, u, c, n)
  {
    var x := n.children[i].name;
    FindUnique(n.children, i);
    forall p | IsFileAt(t, p) && !Dest(c, n, p) ensures Locate(u, p) == Locate(t, p) {
      if Dest(c + [x], n.children[i], p) {
        DestNarrow(c, n, i, p);
      }
    }
    forall p | IsFileAt(u, p) ensures IsFileAt(t, p) || Dest(c, n, p) {
      if Dest(c + [x], n.children[i], p) {
        DestNarrow(c, n, i, p);
      }
    }
    forall p | IsFolderAt(u, p) ensures IsFolderAt(t, p) || DestDir(c, n, p) || Above(c, p) {
      if DestDir(c + [x], n.children[i], p) {
        DestNarrow(c, n, i, p);
      } else if Above(c + [x], p) {
        AboveNarrow(c, x, n, p);
      }
    }
  }

  /** mkdir of the place `c` of the copy of a folder keeps what that copy requires. */
  lemma CreateFolderKept(t: Node, c: seq<string>, n: Node)
    requires t.Folder? && n.Folder? && CreateFolder(t, c).Ok?
    ensures Kept(t, CreateFolder(t, c).value, c, n)
  {
    var u := CreateFolder(t, c).value;
    forall p ensures IsFileAt(t, p) ==> Locate(u, p) == Locate(t, p)
      ensures IsFolderAt(t, p) ==> IsFolderAt(u, p)
      ensures IsFileAt(u, p) ==> IsFileAt(t, p)
      ensures IsFolderAt(u, p) ==> IsFolderAt(t, p) || DestDir(c, n, p) || Above(c, p)
    {
      CreateFolderKeeps(t, c, p);
      CreateFolderNew(t, c, p);
      if |p| == |c| && p == c[..|p|] {
        assert p == c && p[|c|..] == [];
      }
    }
  }

  /** writeTo at the place `c` of the copy of a file keeps what that copy requires. */
  lemma CreateFileKept(t: Node, c: seq<string>, id: nat, f: Node)
    requires t.Folder? && f.File? && CreateFile(t, c, id).Ok?
    ensures Kept(t, CreateFile(t, c, id).value.0, c, f)
  {
    var u := CreateFile(t, c, id).value.0;
    forall p ensures IsFileAt(t, p) ==> Locate(u, p) == Locate(t, p)
      ensures IsFolderAt(t, p) ==> IsFolderAt(u, p)
      ensures IsFileAt(u, p) ==> IsFileAt(t, p) || Dest(c, f, p)
      ensures IsFolderAt(u, p) ==> IsFolderAt(t, p) || Above(c, p)
    {
      CreateFileKeeps(t, c, id, p);
      CreateFileNew(t, c, id, p);
      if p == c {
        assert p[..|c|] == c && p[|c|..] == [];
      }
    }
  }

  /** Closing the stream of a file copied to `p` changes only the file at `p`, the destination of that file. */
  lemma WriteContentsKept(t: Node, p: seq<string>, id: nat, bytes: seq<byte>, f: Node)
    requires f.File?
    ensures Kept(t, WriteContents(t, p, id, bytes), p, f)
  {
    var u := WriteContents(t, p, id, bytes);
    forall r ensures IsFileAt(t, r) ==> IsFileAt(u, r)
      ensures IsFolderAt(t, r) ==> IsFolderAt(u, r)
      ensures IsFileAt(t, r) && !Dest(p, f, r) ==> Locate(u, r) == Locate(t, r)
      ensures IsFileAt(u, r) ==> IsFileAt(t, r)
      ensures IsFolderAt(u, r) ==> IsFolderAt(t, r)
    {
      if r == p {
        WriteContentsAt(t, p, id, bytes);
        assert r[..|p|] == p && r[|p|..] == [];
      } else {
        WriteContentsKeeps(t, p, id, bytes, r);
      }
      WriteContentsShape(t, p, id, bytes, r);
    }
  }

  /** What a step keeps, it keeps reproduced, away from what it writes. */
  lemma HoldsKept(t: Node, u: Node, p: seq<string>, m: Node, c: seq<string>, n: Node)
    requires Holds(t, p, m) && Kept(t, u, c, n) && !Dest(c, n, p)
    ensures Holds(u, p, m)
  {
  }

  /** A path below the child named `y` is no destination of a copy below its sibling named `x`. */
  lemma NotDestOfSibling(c: seq<string>, x: string, y: string, q: seq<string>, m: Node)
    requires x != y
    ensures !Dest(c + [x], m, c + [y] + q)
  {
    var p := c + [y] + q;
    assert p[|c|] == y;
    assert p[..|c| + 1][|c|] == y;
    assert (c + [x])[|c|] == x;
  }

  /** A step that may only write below a sibling keeps a reproduced child reproduced. */
  lemma ChildKept(t: Node, u: Node, c: seq<string>, ch: Node, x: string, m: Node)
    requires ch.name != x && Kept(t, u, c + [x], m) && CopiedChild(t, c, ch)
    ensures CopiedChild(u, c, ch)
  {
    var y := ch.name;
    NotDestOfSibling(c, x, y, [], m);
    assert c + [y] + [] == c + [y];
    HoldsKept(t, u, c + [y], ch, c + [x], m);
    forall q | q != [] && Locate(ch, q).Some? ensures Holds(u, c + [y] + q, Locate(ch, q).value) {
      NotDestOfSibling(c, x, y, q, m);
      HoldsKept(t, u, c + [y] + q, Locate(ch, q).value, c + [x], m);
    }
  }

  /** A file reproduced at its path is a reproduced child: nothing lies below a file. */
  lemma FileCopied(t: Node, c: seq<string>, f: Node)
    requires f.File? && Holds(t, c + [f.name], f)
    ensures CopiedChild(t, c, f)
  {
  }

  /** When every child is reproduced, so is the folder. */
  lemma Assemble(t: Node, c: seq<string>, n: Node)
    requires n.Folder?
    requires forall k :: 0 <= k < |n.children| ==> CopiedChild(t, c, n.children[k])
    ensures Copied(t, c, n)
  {
    forall q | q != [] && Locate(n, q).Some? ensures Holds(t, c + q, Locate(n, q).value) {
      var k := Find(n.children, q[0]);
      var ch := n.children[k];
      assert Locate(n, q) == Locate(ch, q[1..]);
      assert c + q == c + [ch.name] + q[1..];
      assert CopiedChild(t, c, ch);
      if q[1..] == [] {
        assert c + q == c + [ch.name];
      }
    }
  }

  // ---------------------------------------------------------------------
  // When the copy passes

  /** The node at `p` in `t` does not clash with `m`: no folder where a file goes, no file where a folder goes. */
  predicate Fits(t: Node, p: seq<string>, m: Node)
  {
    if m.File? then !IsFolderAt(t, p) else !IsFileAt(t, p)
  }

  /**
   * The copy of the folder `n` to `c` can go ahead in `t`: no file lies on
   * the way to `c`, and no node below `n` meets a node of the other kind at
   * its destination.
   */
  ghost predicate Compatible(t: Node, c: seq<string>, n: Node)
  {
    !FileOnWay(t, c) && forall q :: q != [] && Locate(n, q).Some? ==> Fits(t, c + q, Locate(n, q).value)
  }

  /** What the copy itself does keeps the copy possible. */
  lemma CompatibleKept(t0: Node, t: Node, c: seq<string>, n: Node)
    requires n.Folder? && Compatible(t0, c, n) && Kept(t0, t, c, n)
    ensures Compatible(t, c, n)
  {
    forall j | 0 < j <= |c| ensures !IsFileAt(t, c[..j]) {
      assert j == |c| ==> c[..j][|c|..] == [];
    }
    forall q | q != [] && Locate(n, q).Some? ensures Fits(t, c + q, Locate(n, q).value) {
      assert (c + q)[..|c|] == c && (c + q)[|c|..] == q;
    }
  }

  /** Once the folder of a child is in place, the copy of the child can go ahead. */
  lemma CompatibleChild(t: Node, c: seq<string>, n: Node, i: nat)
    requires Wf(n) && n.Folder? && i < |n.children| && n.children[i].Folder?
    requires Compatible(t, c, n) && IsFolderAt(t, c + [n.children[i].name])
    ensures Compatible(t, c + [n.children[i].name], n.children[i])
  {
    var ch := n.children[i];
    var x := ch.name;
    FindUnique(n.children, i);
    forall j | 0 < j <= |c| + 1 ensures !IsFileAt(t, (c + [x])[..j]) {
      if j <= |c| {
        assert (c + [x])[..j] == c[..j];
      } else {
        assert (c + [x])[..j] == c + [x];
      }
    }
    forall q | q != [] && Locate(ch, q).Some? ensures Fits(t, c + [x] + q, Locate(ch, q).value) {
      LocateChildAt(n, i, q);
      assert c + [x] + q == c + ([x] + q);
    }
  }

  /** With the copy possible, writeTo of a file of the copied folder opens a stream. */
  lemma WriteToPasses(d: DiskState, n: Node, i: nat)
    requires DiskValid(d) && Wf(n) && n.Folder? && i < |n.children| && n.children[i].File?
    requires Compatible(d.root, d.cwd.parts, n)
    ensures WriteToSpec(d, n.children[i].name).0.Ok?
  {
    var x := n.children[i].name;
    var p := d.cwd.parts + [x];
    ChdirName(d.cwd, x);
    assert Resolve(d, x).parts == p && p[..|p| - 1] == d.cwd.parts;
    FindUnique(n.children, i);
    LocateChildAt(n, i, []);
    assert [x] + [] == [x];
    CreateFileFails(d.root, p, d.nextId);
  }

  /** With the copy possible, mkdir of a folder of the copied folder passes. */
  lemma MkdirPasses(d: DiskState, n: Node, i: nat)
    requires DiskValid(d) && Wf(n) && n.Folder? && i < |n.children| && n.children[i].Folder?
    requires Compatible(d.root, d.cwd.parts, n)
    ensures MkdirSpec(d, n.children[i].name).0.Pass?
  {
    var x := n.children[i].name;
    var c := d.cwd.parts;
    ChdirName(d.cwd, x);
    assert Resolve(d, x).parts == c + [x];
    FindUnique(n.children, i);
    LocateChildAt(n, i, []);
    assert [x] + [] == [x] && c + [x] == c + [x] + [];
    forall j | 0 < j <= |c| + 1 ensures !IsFileAt(d.root, (c + [x])[..j]) {
      if j <= |c| {
        assert (c + [x])[..j] == c[..j];
      } else {
        assert (c + [x])[..j] == c + [x];
      }
    }
    CreateFolderFails(d.root, c + [x]);
  }

  /** Following `c`, then `q`, is following `c + q`. */
  lemma {:induction false} LocateSplit(t: Node, c: seq<string>, q: seq<string>)
    ensures Locate(t, c + q) == if Locate(t, c).Some? then Locate(Locate(t, c).value, q) else None
    decreases |c|
  {
    if c != [] && t.Folder? {
      var k := Find(t.children, c[0]);
      assert (c + q)[0] == c[0] && (c + q)[1..] == c[1..] + q;
      if k < |t.children| {
        LocateSplit(t.children[k], c[1..], q);
      }
    } else if c == [] {
      assert c + q == q;
    }
  }

  /** The copy into an empty folder can go ahead, whatever is copied. */
  lemma EmptyTargetCompatible(t: Node, c: seq<string>, n: Node)
    requires IsFolderAt(t, c) && Locate(t, c).value.children == []
    ensures Compatible(t, c, n)
  {
    forall j | 0 < j <= |c| ensures !IsFileAt(t, c[..j]) {
      LocateSplit(t, c[..j], c[j..]);
      assert c[..j] + c[j..] == c;
    }
    forall q | q != [] && Locate(n, q).Some? ensures Fits(t, c + q, Locate(n, q).value) {
      LocateSplit(t, c, q);
    }
  }

  // ---------------------------------------------------------------------
  // The progress of the copy of one folder

  /**
   * The copy of the folder `n` to `c`, started on the target tree `t0`, has
   * reproduced the children whose indices are in `done` and kept the rest.
   */
  ghost predicate Progress(t0: Node, t: Node, c: seq<string>, n: Node, done: set<nat>)
  {
    n.Folder? && Kept(t0, t, c, n) &&
    forall k :: k in done ==> k < |n.children| && CopiedChild(t, c, n.children[k])
  }

  /** One more child reproduced, by a step that wrote only below it. */
  lemma Advance(t0: Node, t: Node, u: Node, c: seq<string>, n: Node, done: set<nat>, i: nat)
    requires Wf(n) && n.Folder? && i < |n.children| && i !in done
    requires Progress(t0, t, c, n, done)
    requires Kept(t, u, c + [n.children[i].name], n.children[i]) && CopiedChild(u, c, n.children[i])
    ensures Progress(t0, u, c, n, done + {i})
  {
    var cs := n.children;
    KeptNarrow(t, u, c, n, i);
    KeptTrans(t0, t, u, c, n);
    forall k | k in done ensures CopiedChild(u, c, cs[k]) {
      assert cs[k].name != cs[i].name;
      ChildKept(t, u, c, cs[k], cs[i].name, cs[i]);
    }
  }

  /** Every child reproduced: the folder is. */
  lemma Finish(t0: Node, t: Node, c: seq<string>, n: Node, done: set<nat>)
    requires Progress(t0, t, c, n, done)
    requires forall k :: 0 <= k < |n.children| ==> k in done
    ensures Copied(t, c, n) && Kept(t0, t, c, n)
  {
    Assemble(t, c, n);
  }

  // ---------------------------------------------------------------------
  // The folders the first loop sets aside

  /** The names of the folders among `cs`, in order: what the first loop collects. */
  function SubfolderNames(cs: seq<Node>): (r: seq<string>)
    ensures |r| <= |cs|
  {
    if cs == [] then []
    else SubfolderNames(cs[..|cs| - 1]) + (if cs[|cs| - 1].Folder? then [cs[|cs| - 1].name] else [])
  }

  /** One more entry seen: its name is collected when it is a folder. */
  lemma SubfolderNamesStep(cs: seq<Node>, i: nat)
    requires i < |cs|
    ensures SubfolderNames(cs[..i + 1]) == SubfolderNames(cs[..i]) + (if cs[i].Folder? then [cs[i].name] else [])
  {
    assert cs[..i + 1][..i] == cs[..i];
  }

  /** The indices of the folders among `cs`, in order. */
  ghost function FolderIndices(cs: seq<Node>): seq<nat>
  {
    if cs == [] then []
    else FolderIndices(cs[..|cs| - 1]) + (if cs[|cs| - 1].Folder? then [|cs| - 1] else [])
  }

  /** The indices point at the folders, name by name. */
  lemma {:induction false} FolderIndicesAt(cs: seq<Node>)
    ensures var idx := FolderIndices(cs);
      |idx| == |SubfolderNames(cs)| &&
      forall j :: 0 <= j < |idx| ==> idx[j] < |cs| && cs[idx[j]].Folder? && SubfolderNames(cs)[j] == cs[idx[j]].name
  {
    if cs != [] {
      var last := |cs| - 1;
      var init := cs[..last];
      FolderIndicesAt(init);
      var pidx := FolderIndices(init);
      var pnames := SubfolderNames(init);
      var idx := FolderIndices(cs);
      var names := SubfolderNames(cs);
      if cs[last].Folder? {
        assert idx == pidx + [last] && names == pnames + [cs[last].name];
        forall j | 0 <= j < |idx|
          ensures idx[j] < |cs| && cs[idx[j]].Folder? && names[j] == cs[idx[j]].name
        {
          if j < |pidx| {
            assert idx[j] == pidx[j] && names[j] == pnames[j] && cs[pidx[j]] == init[pidx[j]];
          }
        }
      } else {
        assert idx == pidx && names == pnames;
        forall j | 0 <= j < |idx|
          ensures idx[j] < |cs| && cs[idx[j]].Folder? && names[j] == cs[idx[j]].name
        {
          assert cs[pidx[j]] == init[pidx[j]];
        }
      }
    }
  }

  /** The indices increase, and every folder is among them. */
  lemma {:induction false} FolderIndicesOrder(cs: seq<Node>)
    ensures var idx := FolderIndices(cs);
      (forall a, b :: 0 <= a < b < |idx| ==> idx[a] < idx[b]) &&
      (forall k :: 0 <= k < |cs| && cs[k].Folder? ==> k in idx)
  {
    if cs != [] {
      var last := |cs| - 1;
      var init := cs[..last];
      FolderIndicesOrder(init);
      FolderIndicesAt(init);
      var pidx := FolderIndices(init);
      var idx := FolderIndices(cs);
      if cs[last].Folder? {
        assert idx == pidx + [last];
        forall k | 0 <= k < |cs| && cs[k].Folder? ensures k in idx {
          if k < last {
            assert init[k] == cs[k] && k in pidx;
          }
        }
      } else {
        assert idx == pidx;
        forall k | 0 <= k < |cs| && cs[k].Folder? ensures k in idx {
          assert init[k] == cs[k];
        }
      }
    }
  }

  /**
   * The indices point at the folders, name by name, in increasing order, and
   * every folder is among them.
   */
  lemma FolderIndicesFacts(cs: seq<Node>)
    ensures var idx := FolderIndices(cs);
      |idx| == |SubfolderNames(cs)| &&
      (forall j :: 0 <= j < |idx| ==> idx[j] < |cs| && cs[idx[j]].Folder? && SubfolderNames(cs)[j] == cs[idx[j]].name) &&
      (forall a, b :: 0 <= a < b < |idx| ==> idx[a] < idx[b]) &&
      (forall k :: 0 <= k < |cs| && cs[k].Folder? ==> k in idx)
  {
    FolderIndicesAt(cs);
    FolderIndicesOrder(cs);
  }

  /** The indices of the files among the first `i` entries of `cs`: what the first loop has copied. */
  ghost function FilesBelow(cs: seq<Node>, i: nat): set<nat>
  {
    set k: nat | k < i && k < |cs| && cs[k].File?
  }

  /** The indices that occur in `s`. */
  ghost function Elems(s: seq<nat>): set<nat>
  {
    set k | k in s
  }

  /** One more entry seen by the first loop: it was not copied yet, and is once it is a file. */
  lemma FilesStep(cs: seq<Node>, i: nat)
    requires i < |cs|
    ensures i !in FilesBelow(cs, i)
    ensures FilesBelow(cs, i + 1) == FilesBelow(cs, i) + (if cs[i].File? then {i} else {})
  {
  }

  /**
   * The j-th folder set aside by the first loop: the entry it names, not yet
   * copied by either loop, and copied once the second loop has handled it.
   */
  lemma FoldersStep(cs: seq<Node>, j: nat)
    requires j < |SubfolderNames(cs)|
    ensures var idx := FolderIndices(cs);
      j < |idx| && idx[j] < |cs| && cs[idx[j]].Folder? && SubfolderNames(cs)[j] == cs[idx[j]].name &&
      idx[j] !in FilesBelow(cs, |cs|) + Elems(idx[..j]) &&
      Elems(idx[..j + 1]) == Elems(idx[..j]) + {idx[j]}
  {
    var idx := FolderIndices(cs);
    FolderIndicesFacts(cs);
    assert idx[..j + 1] == idx[..j] + [idx[j]];
    IncreasingFresh(idx, j);
  }

  /** In a strictly increasing sequence an element does not occur before its place. */
  lemma IncreasingFresh(idx: seq<nat>, j: nat)
    requires j < |idx| && forall a, b :: 0 <= a < b < |idx| ==> idx[a] < idx[b]
    ensures idx[j] !in Elems(idx[..j])
  {
  }

  /** After both loops every entry is copied: the files by the first, the folders by the second. */
  lemma AllEntries(cs: seq<Node>)
    ensures |FolderIndices(cs)| == |SubfolderNames(cs)|
    ensures forall k :: 0 <= k < |cs| ==> k in FilesBelow(cs, |cs|) + Elems(FolderIndices(cs))
  {
    FolderIndicesFacts(cs);
  }

  // ---------------------------------------------------------------------
  // Where names go, and what the store operations do there

  /** The i-th entry of the listing of the current folder: a valid name, locating that child. */
  lemma EntryAt(d: DiskState, n: Node, i: nat)
    requires DiskValid(d) && Locate(d.root, d.cwd.parts) == Some(n) && n.Folder? && i < |n.children|
    ensures Wf(n) && ValidName(n.children[i].name)
    ensures Resolve(d, n.children[i].name) == FilePath(d.cwd.parts + [n.children[i].name], true)
    ensures Locate(d.root, d.cwd.parts + [n.children[i].name]) == Some(n.children[i])
    ensures IsDirSpec(d, n.children[i].name) == n.children[i].Folder?
    ensures n.children[i].File? ==> ReadSpec(d, n.children[i].name) == Ok(n.children[i].contents)
  {
    Listing.WfLocate(d.root, d.cwd.parts);
    ChdirName(d.cwd, n.children[i].name);
    Listing.LocateSnoc(d.root, d.cwd.parts, n.children[i].name);
    Listing.ChildAt(n, i);
  }

  /** The listing of the current directory: its children's names when it is a folder, a failure otherwise. */
  lemma ListingHere(d: DiskState)
    requires DiskValid(d)
    ensures IsFolderAt(d.root, d.cwd.parts) ==> LsSpec(d) == Ok(Names(Locate(d.root, d.cwd.parts).value.children))
    ensures !IsFolderAt(d.root, d.cwd.parts) ==> LsSpec(d) == Err(NoSuchDirectory)
  {
    assert Chdir(d.cwd, d.cwd) == d.cwd;
  }

  /**
   * writeTo(name) in the target, the bytes of the file `f` written to the
   * stream, then its close: `f` is reproduced at one more segment, nothing
   * but that file is written, and the directories are as they were.
   */
  lemma FileStep(d0: DiskState, e: string, f: Node, target: Target, d1: DiskState, bytes: seq<byte>, o: Outcome, d2: DiskState)
    requires DiskValid(d0) && ValidName(e) && f.File? && e == f.name && bytes == f.contents
    requires WriteToSpec(d0, e) == (Ok(target), d1) && CommitSpec(d1, target, bytes) == (o, d2)
    ensures o == Pass && d2.cwd == d0.cwd && d2.stack == d0.stack && d2.state == d0.state
    ensures Kept(d0.root, d2.root, d0.cwd.parts + [e], f) && CopiedChild(d2.root, d0.cwd.parts, f)
  {
    ChdirName(d0.cwd, e);
    var p := d0.cwd.parts + [e];
    assert Resolve(d0, e).parts == p;
    CreateFileOk(d0.root, p, d0.nextId);
    var (m, t) := CreateFile(d0.root, p, d0.nextId).value;
    assert d1.root == m && target == FileNode(p, t.value);
    assert IsFileAt(d1.root, p) && Locate(d1.root, p).value.id == t.value;
    CreateFileKept(d0.root, p, d0.nextId, f);
    WriteContentsAt(d1.root, p, t.value, bytes);
    WriteContentsKept(d1.root, p, t.value, bytes, f);
    assert d2.root == WriteContents(d1.root, p, t.value, bytes);
    assert Holds(d2.root, p, f);
    KeptTrans(d0.root, d1.root, d2.root, p, f);
    FileCopied(d2.root, d0.cwd.parts, f);
  }

  /** mkdir(name) in the target: a folder at one more segment, the rest kept. */
  lemma MkdirStep(d: DiskState, x: string, m: Node)
    requires DiskValid(d) && ValidName(x) && m.Folder? && MkdirSpec(d, x).0.Pass?
    ensures var d1 := MkdirSpec(d, x).1;
      IsFolderAt(d1.root, d.cwd.parts + [x]) && Kept(d.root, d1.root, d.cwd.parts + [x], m) &&
      d1.cwd == d.cwd && d1.stack == d.stack && d1.state == d.state
  {
    ChdirName(d.cwd, x);
    CreateFolderOk(d.root, d.cwd.parts + [x]);
    CreateFolderKept(d.root, d.cwd.parts + [x], m);
  }

  /** pushd(name) on an open store: one more segment, the old directory on the stack. */
  lemma PushdStep(d: DiskState, x: string)
    requires DiskValid(d) && ValidName(x) && d.state == Open
    ensures ChdirSpec(d, x) == (Pass, d.(stack := d.stack + [d.cwd], cwd := FilePath(d.cwd.parts + [x], true)))
  {
    ChdirName(d.cwd, x);
  }

  // ---------------------------------------------------------------------
  // The copy

  /**
   * The first loop's body for the file listed as entry `i` of the source's
   * current folder: read it, write it under the same name in the target's
   * current directory, copy the bytes, close both streams.
   */
  method CopyFile(from: RamDisk, to: RamDisk, e: string, ghost n: Node, ghost i: nat, ghost t0: Node, ghost done: set<nat>)
    returns (o: Outcome)
    requires from != to && from.Valid() && to.Valid()
    requires Locate(from.root, from.cwd.parts) == Some(n) && n.Folder?
    requires i < |n.children| && n.children[i].File? && e == n.children[i].name
    requires Progress(t0, to.root, to.cwd.parts, n, done) && i !in done
    modifies to
    ensures to.Valid() && to.cwd == old(to.cwd) && to.dirStack == old(to.dirStack) && to.state == old(to.state)
    ensures o.Pass? ==> Progress(t0, to.root, to.cwd.parts, n, done + {i})
    ensures Compatible(t0, to.cwd.parts, n) ==> o.Pass?
  {
    ghost var f := n.children[i];
    EntryAt(from.Model(), n, i);
    var input := from.ReadFrom(e);
    ghost var d0 := to.Model();
    if Compatible(t0, to.cwd.parts, n) {
      CompatibleKept(t0, to.root, to.cwd.parts, n);
      WriteToPasses(d0, n, i);
    }
    var r := to.WriteTo(e);
    if r.Err? {
      return Fail(r.error);
    }
    var out := r.value;
    ghost var d1 := to.Model();
    StreamCopy.Copy(input.value, out.buffer);
    o := out.Close();
    FileStep(d0, e, f, out.target, d1, out.buffer.bytes, o, to.Model());
    Listing.WfLocate(from.root, from.cwd.parts);
    Advance(t0, d0.root, to.root, to.cwd.parts, n, done, i);
  }

  /**
   * The second loop's body for the folder listed as entry `i`: mkdir it in
   * the target, pushd into it on both sides, copy, popd on both sides.
   */
  method CopySubfolder(from: RamDisk, to: RamDisk, dir: string, ghost n: Node, ghost i: nat) returns (o: Outcome)
    requires from != to && from.Valid() && to.Valid()
    requires Locate(from.root, from.cwd.parts) == Some(n) && n.Folder?
    requires i < |n.children| && n.children[i].Folder? && dir == n.children[i].name
    modifies from, to
    ensures from.Valid() && to.Valid()
    ensures from.root == old(from.root) && from.state == old(from.state) && to.state == old(to.state)
    ensures o.Pass? ==> from.Model() == old(from.Model())
    ensures o.Pass? ==> to.cwd == old(to.cwd) && to.dirStack == old(to.dirStack)
    ensures o.Pass? ==> Kept(old(to.root), to.root, to.cwd.parts + [dir], n.children[i])
    ensures o.Pass? ==> CopiedChild(to.root, to.cwd.parts, n.children[i])
    ensures from.state == Open && to.state == Open && Compatible(old(to.root), old(to.cwd.parts), n) ==> o.Pass?
    decreases n, 0
  {
    ghost var ch := n.children[i];
    ghost var c := to.cwd.parts;
    EntryAt(from.Model(), n, i);
    ghost var d0 := to.Model();
    ghost var ready := from.state == Open && to.state == Open && Compatible(d0.root, c, n);
    if ready {
      MkdirPasses(d0, n, i);
    }
    o := to.Mkdir(dir);
    if o.Fail? {
      return;
    }
    MkdirStep(d0, dir, ch);
    ghost var t1 := to.root;
    if ready {
      KeptNarrow(d0.root, t1, c, n, i);
      CompatibleKept(d0.root, t1, c, n);
      CompatibleChild(t1, c, n, i);
    }
    if from.state != Open || to.state != Open {
      // pushd on a store that is not open fails
      o := from.Pushd(dir);
      if o.Fail? {
        return;
      }
      o := to.Pushd(dir);
      return;
    }
    PushdStep(from.Model(), dir);
    PushdStep(to.Model(), dir);
    o := from.Pushd(dir);
    o := to.Pushd(dir);
    ListingHere(from.Model());
    var listing := from.Ls();
    o := CopyFolder(from, to, ch, listing.value);
    if o.Fail? {
      return;
    }
    o := from.Popd();
    o := to.Popd();
    KeptTrans(d0.root, t1, to.root, c + [dir], ch);
  }

  /**
   * copy(from, to) on a source whose current directory is the folder `n`,
   * listed as `names`: the files first, in listing order, setting the
   * folders aside; then each folder set aside.
   */
  method CopyFolder(from: RamDisk, to: RamDisk, ghost n: Node, names: seq<string>) returns (o: Outcome)
    requires from != to && from.Valid() && to.Valid()
    requires Locate(from.root, from.cwd.parts) == Some(n) && n.Folder? && names == Names(n.children)
    modifies from, to
    ensures from.Valid() && to.Valid()
    ensures from.root == old(from.root) && from.state == old(from.state) && to.state == old(to.state)
    ensures o.Pass? ==> from.Model() == old(from.Model())
    ensures o.Pass? ==> to.cwd == old(to.cwd) && to.dirStack == old(to.dirStack)
    ensures o.Pass? ==> Copied(to.root, to.cwd.parts, n) && Kept(old(to.root), to.root, to.cwd.parts, n)
    ensures from.state == Open && to.state == Open && Compatible(old(to.root), old(to.cwd.parts), n) ==> o.Pass?
    decreases n, 2
  {
    ghost var c := to.cwd.parts;
    ghost var t0 := to.root;
    var folders;
    o, folders := CopyFiles(from, to, n, names);
    if o.Fail? {
      return;
    }
    o := CopySubfolders(from, to, n, folders, t0);
    if o.Pass? {
      AllEntries(n.children);
      Finish(t0, to.root, c, n, FilesBelow(n.children, |n.children|) + Elems(FolderIndices(n.children)));
    }
  }

  /**
   * The first loop of copy(from, to): each file of `n` copied in listing
   * order, each folder set aside for later.
   */
  method CopyFiles(from: RamDisk, to: RamDisk, ghost n: Node, names: seq<string>) returns (o: Outcome, folders: seq<string>)
    requires from != to && from.Valid() && to.Valid()
    requires Locate(from.root, from.cwd.parts) == Some(n) && n.Folder? && names == Names(n.children)
    modifies to
    ensures to.Valid() && to.cwd == old(to.cwd) && to.dirStack == old(to.dirStack) && to.state == old(to.state)
    ensures o.Pass? ==> folders == SubfolderNames(n.children)
    ensures o.Pass? ==> Progress(old(to.root), to.root, to.cwd.parts, n, FilesBelow(n.children, |n.children|))
    ensures Compatible(old(to.root), to.cwd.parts, n) ==> o.Pass?
  {
    ghost var cs := n.children;
    ghost var c := to.cwd.parts;
    ghost var t0 := to.root;
    Listing.WfLocate(from.root, from.cwd.parts);
    folders := [];
    o := Pass;
    var i := 0;
    while i < |names|
      invariant 0 <= i <= |names| == |cs|
      invariant to.Valid() && to.cwd == old(to.cwd) && to.dirStack == old(to.dirStack) && to.state == old(to.state)
      invariant Progress(t0, to.root, c, n, FilesBelow(cs, i))
      invariant folders == SubfolderNames(cs[..i])
      invariant o == Pass
    {
      SubfolderNamesStep(cs, i);
      var isDir;
      o, isDir := CopyEntry(from, to, names[i], n, i, t0);
      if o.Fail? {
        return;
      }
      if isDir {
        folders := folders + [names[i]];
      }
      i := i + 1;
    }
    assert cs[..i] == cs;
  }

  /** One entry of the first loop: a folder is set aside, a file is copied. */
  method CopyEntry(from: RamDisk, to: RamDisk, e: string, ghost n: Node, ghost i: nat, ghost t0: Node)
    returns (o: Outcome, isDir: bool)
    requires from != to && from.Valid() && to.Valid()
    requires Locate(from.root, from.cwd.parts) == Some(n) && n.Folder?
    requires i < |n.children| && e == n.children[i].name
    requires Progress(t0, to.root, to.cwd.parts, n, FilesBelow(n.children, i))
    modifies to
    ensures to.Valid() && to.cwd == old(to.cwd) && to.dirStack == old(to.dirStack) && to.state == old(to.state)
    ensures isDir == n.children[i].Folder?
    ensures isDir ==> o == Pass && to.root == old(to.root)
    ensures o.Pass? ==> Progress(t0, to.root, to.cwd.parts, n, FilesBelow(n.children, i + 1))
    ensures Compatible(t0, to.cwd.parts, n) ==> o.Pass?
  {
    EntryAt(from.Model(), n, i);
    FilesStep(n.children, i);
    isDir := from.IsDirectory(e);
    if isDir {
      return Pass, isDir;
    }
    o := CopyFile(from, to, e, n, i, t0, FilesBelow(n.children, i));
  }

  /**
   * The second loop of copy(from, to): each folder set aside, in order, after
   * the files of `n` are copied.
   */
  method CopySubfolders(from: RamDisk, to: RamDisk, ghost n: Node, folders: seq<string>, ghost t0: Node)
    returns (o: Outcome)
    requires from != to && from.Valid() && to.Valid()
    requires Locate(from.root, from.cwd.parts) == Some(n) && n.Folder? && folders == SubfolderNames(n.children)
    requires Progress(t0, to.root, to.cwd.parts, n, FilesBelow(n.children, |n.children|))
    modifies from, to
    ensures from.Valid() && to.Valid()
    ensures from.root == old(from.root) && from.state == old(from.state) && to.state == old(to.state)
    ensures o.Pass? ==> from.Model() == old(from.Model())
    ensures o.Pass? ==> to.cwd == old(to.cwd) && to.dirStack == old(to.dirStack)
    ensures o.Pass? ==>
      Progress(t0, to.root, to.cwd.parts, n, FilesBelow(n.children, |n.children|) + Elems(FolderIndices(n.children)))
    ensures from.state == Open && to.state == Open && Compatible(t0, old(to.cwd.parts), n) ==> o.Pass?
    decreases n, 1
  {
    ghost var cs := n.children;
    ghost var c := to.cwd.parts;
    ghost var idx := FolderIndices(cs);
    ghost var done := FilesBelow(cs, |cs|);
    Listing.WfLocate(from.root, from.cwd.parts);
    AllEntries(cs);
    var j := 0;
    while j < |folders|
      invariant 0 <= j <= |folders|
      invariant from.Valid() && to.Valid() && from.Model() == old(from.Model())
      invariant to.cwd == old(to.cwd) && to.dirStack == old(to.dirStack) && to.state == old(to.state)
      invariant Progress(t0, to.root, c, n, done)
      invariant done == FilesBelow(cs, |cs|) + Elems(idx[..j])
    {
      FoldersStep(cs, j);
      ghost var t := to.root;
      if from.state == Open && to.state == Open && Compatible(t0, c, n) {
        CompatibleKept(t0, t, c, n);
      }
      o := CopySubfolder(from, to, folders[j], n, idx[j]);
      if o.Fail? {
        return;
      }
      Advance(t0, t, to.root, c, n, done, idx[j]);
      done := done + {idx[j]};
      j := j + 1;
    }
    assert idx[..j] == idx;
    o := Pass;
  }

  /**
   * copy(from, to): the copy of the source's current folder into the
   * target's current directory. A source whose current directory is not a
   * folder fails at its listing, before anything changes.
   */
  method Copy(from: RamDisk, to: RamDisk) returns (o: Outcome)
    requires from != to && from.Valid() && to.Valid()
    modifies from, to
    ensures from.Valid() && to.Valid()
    ensures from.root == old(from.root) && from.state == old(from.state) && to.state == old(to.state)
    ensures !IsFolderAt(old(from.root), old(from.cwd.parts)) ==> o == Fail(NoSuchDirectory) && unchanged(from, to)
    ensures o.Pass? ==> from.Model() == old(from.Model()) && to.cwd == old(to.cwd) && to.dirStack == old(to.dirStack)
    ensures o.Pass? ==> IsFolderAt(old(from.root), old(from.cwd.parts))
    ensures o.Pass? ==>
      Copied(to.root, to.cwd.parts, Locate(old(from.root), old(from.cwd.parts)).value) &&
      Kept(old(to.root), to.root, to.cwd.parts, Locate(old(from.root), old(from.cwd.parts)).value)
    ensures (from.state == Open && to.state == Open && IsFolderAt(old(from.root), old(from.cwd.parts)) &&
             Compatible(old(to.root), old(to.cwd.parts), Locate(old(from.root), old(from.cwd.parts)).value)) ==> o.Pass?
  {
    ListingHere(from.Model());
    var listing := from.Ls();
    if listing.Err? {
      return Fail(listing.error);
    }
    o := CopyFolder(from, to, Locate(from.root, from.cwd.parts).value, listing.value);
  }
}
