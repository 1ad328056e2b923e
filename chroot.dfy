/**
 * The chroot store: a sub-directory of an inner store acts as the root.
 * Every operation that takes a path sends the inner store the chroot root
 * followed by the inner store's current directory; the path given by the
 * caller is not part of what is sent. The operations it does not override
 * (open, close, getSize, popd, pwd) are those of its filter.
 */
module ChrootStore {
  import opened FileSystem
  import opened FilePaths
  import opened RamTree
  import opened ByteStreams
  import opened RamStore
  import opened Filters

  /** getPath: the root's text, then the working directory, with exactly one "/" between them. */
  function RootedPath(rootText: string, wd: string): (s: string)
  {
    if StartsWithSlash(wd) then rootText + wd else rootText + "/" + wd
  }

  /** Whether or not the working directory starts with "/", one "/" joins it to the root. */
  lemma RootedPathJoins(rootText: string, wd: string)
    ensures RootedPath(rootText, wd) == rootText + "/" + (if StartsWithSlash(wd) then wd[1..] else wd)
  {
    if StartsWithSlash(wd) {
      assert wd == "/" + wd[1..];
    }
  }

  /** The working directory of a store in its invariant is absolute, so it is appended as it is. */
  lemma RootedPathOfStore(rootText: string, d: DiskState)
    requires DiskValid(d)
    ensures RootedPath(rootText, PwdSpec(d)) == rootText + PwdSpec(d)
  {
  }

  class Chroot {
    const filter: FilterFileSystem
    const root: FilePath

    constructor (inner: RamDisk, root: string)
      ensures fresh(filter) && filter.inner == inner && this.root == Parse(root)
    {
      filter := new FilterFileSystem(inner);
      this.root := Parse(root);
    }

    /** The path every overridden operation sends to the inner store. */
    function Redirect(): string
      reads filter.inner
    {
      RootedPath(ToString(root), PwdSpec(filter.inner.Model()))
    }

    /** getPath(path): the redirected path, the same whatever the argument. */
    method GetPath(path: string) returns (s: string)
      ensures s == Redirect()
    {
      var wd := filter.inner.Pwd();
      if StartsWithSlash(wd) {
        s := ToString(root) + wd;
      } else {
        s := ToString(root) + "/" + wd;
      }
    }

    method Ls() returns (r: Result<seq<string>>)
      ensures r == LsPathSpec(filter.inner.Model(), Redirect())
    {
      var p := GetPath("");
      r := filter.inner.LsPath(p);
    }

    method LsPath(path: string) returns (r: Result<seq<string>>)
      ensures r == LsPathSpec(filter.inner.Model(), Redirect())
    {
      var p := GetPath(path);
      r := filter.inner.LsPath(p);
    }

    method IsDirectory(path: string) returns (b: bool)
      ensures b == IsDirSpec(filter.inner.Model(), Redirect())
    {
      var p := GetPath(path);
      b := filter.inner.IsDirectory(p);
    }

    method IsFile(path: string) returns (b: bool)
      ensures b == IsFileSpec(filter.inner.Model(), Redirect())
    {
      var p := GetPath(path);
      b := filter.inner.IsFile(p);
    }

    method WriteTo(filename: string) returns (r: Result<RamOutputStream>)
      requires filter.inner.Valid()
      modifies filter.inner
      ensures filter.inner.Valid()
      ensures var (res, after) := WriteToSpec(old(filter.inner.Model()), old(Redirect()));
        filter.inner.Model() == after && r.Ok? == res.Ok? && (r.Err? ==> r.error == res.error) &&
        (r.Ok? ==> (fresh(r.value) && r.value.disk == filter.inner && r.value.target == res.value && r.value.buffer.bytes == []))
    {
      var p := GetPath(filename);
      r := filter.inner.WriteTo(p);
    }

    method ReadFrom(filename: string) returns (r: Result<ByteInputStream>)
      ensures var res := ReadSpec(filter.inner.Model(), Redirect());
        (res.Err? ==> r == Err(res.error)) &&
        (res.Ok? ==> r.Ok? && fresh(r.value) && r.value.Valid() && r.value.Remaining() == res.value)
    {
      var p := GetPath(filename);
      r := filter.inner.ReadFrom(p);
    }

    method Chdir(path: string) returns (o: Outcome)
      requires filter.inner.Valid()
      modifies filter.inner
      ensures filter.inner.Valid()
      ensures (o, filter.inner.Model()) == ChdirSpec(old(filter.inner.Model()), old(Redirect()))
    {
      var p := GetPath(path);
      o := filter.inner.Chdir(p);
    }

    method Pushd(path: string) returns (o: Outcome)
      requires filter.inner.Valid()
      modifies filter.inner
      ensures filter.inner.Valid()
      ensures (o, filter.inner.Model()) == ChdirSpec(old(filter.inner.Model()), old(Redirect()))
    {
      var p := GetPath(path);
      o := filter.inner.Pushd(p);
    }

    method Mkdir(path: string) returns (o: Outcome)
      requires filter.inner.Valid()
      modifies filter.inner
      ensures filter.inner.Valid()
      ensures (o, filter.inner.Model()) == MkdirSpec(old(filter.inner.Model()), old(Redirect()))
    {
      var p := GetPath(path);
      o := filter.inner.Mkdir(p);
    }

    method Rmdir(path: string) returns (o: Outcome)
      requires filter.inner.Valid()
      modifies filter.inner
      ensures filter.inner.Valid()
      ensures (o, filter.inner.Model()) == RmdirSpec(old(filter.inner.Model()), old(Redirect()))
    {
      var p := GetPath(path);
      o := filter.inner.Rmdir(p);
    }

    method Delete(path: string) returns (o: Outcome)
      requires filter.inner.Valid()
      modifies filter.inner
      ensures filter.inner.Valid()
      ensures (o, filter.inner.Model()) == DeleteSpec(old(filter.inner.Model()), old(Redirect()))
    {
      var p := GetPath(path);
      o := filter.inner.Delete(p);
    }
  }

  /**
   * A chroot at the folder "/a" over a store whose current directory is its
   * root lists that folder: its ls() is the inner store's ls("/a").
   */
  lemma ChrootListsItsRoot(d: DiskState, a: string)
    requires DiskValid(d) && d.cwd == FilePath([], true) && ValidName(a)
    ensures LsPathSpec(d, RootedPath(ToString(Parse(Join(["", a]))), PwdSpec(d))) == LsPathSpec(d, Join(["", a]))
  {
    var t1, t := Join(["", a]), Join(["", a, ""]);
    assert Resolve(d, t1) == FilePath([a], true) && ToString(Parse(t1)) == t1 by {
      RootFolder(a);
    }
    assert RootedPath(t1, PwdSpec(d)) == t by {
      assert PwdSpec(d) == "/" by { assert Join([]) == ""; }
      assert Join([a]) == a && Join([a, ""]) == a + "/" + "";
      assert ["", a][1..] == [a] && ["", a, ""][1..] == [a, ""];
    }
    assert Resolve(d, t) == FilePath([a], true) by {
      RootFolder(a);
    }
  }

  /** A chroot at "/def" over the sample store lists the two entries of def. */
  lemma ChrootSampleListing(s: SampleNaming, d: DiskState)
    requires Usable(s) && d == SampleDisk(s)
    ensures LsPathSpec(d, RootedPath(ToString(Parse(Join(["", s.def]))), PwdSpec(d))) == Ok([s.ghi, s.e])
  {
    ChrootListsItsRoot(d, s.def);
    SampleDefListing(s, d);
  }

  lemma SampleDefListing(s: SampleNaming, d: DiskState)
    requires Usable(s) && d.cwd == FilePath([], true) && d.root == SampleTree(s)
    ensures LsPathSpec(d, Join(["", s.def])) == Ok([s.ghi, s.e])
  {
    RootFolder(s.def);
    var root := SampleTree(s);
    assert Find(root.children, s.def) == 1;
    assert Locate(root, [s.def]) == Some(root.children[1]);
    assert Names(root.children[1].children) == [s.ghi, s.e];
  }
}
