/**
 * Reification of a store over the host: a lease taken on the store, and a
 * staging directory on the host into which paths are fetched on first use
 * and whose contents are written back to the store on commit.
 */
module Reification {
  import opened FileSystem
  import opened FilePaths
  import opened ByteStreams
  import opened HardDisks
  import StreamCopy

  /** The chunk size of the staging copy loop. */
  const StagingChunk := 8192

  // ---------------------------------------------------------------------
  // The string helpers

  /** stripLeadingSlash: one leading "/" removed, if there is one. */
  function StripLeadingSlash(p: string): (r: string)
    ensures StartsWithSlash(p) ==> p == "/" + r
    ensures !StartsWithSlash(p) ==> r == p
  {
    if StartsWithSlash(p) then p[1..] else p
  }

  /** lastIndexOf('/'): the index of the last "/", or -1 when there is none. */
  function LastSlash(p: string): (i: int)
    ensures -1 <= i < |p| && (i >= 0 ==> p[i] == '/')
    ensures forall j :: i < j < |p| ==> p[j] != '/'
  {
    if p == [] then -1
    else if p[|p| - 1] == '/' then |p| - 1
    else LastSlash(p[..|p| - 1])
  }

  /** parent: what comes before the last "/", or "/" when that "/" is missing or first. */
  function Parent(p: string): string
  {
    var i := LastSlash(p);
    if i <= 0 then "/" else p[..i]
  }

  /** Joining a list is joining its front, a "/", and its last piece. */
  lemma {:induction false} JoinSnoc(parts: seq<string>)
    requires |parts| >= 2
    ensures Join(parts) == Join(parts[..|parts| - 1]) + "/" + parts[|parts| - 1]
  {
    if |parts| == 2 {
      assert parts[..1] == [parts[0]];
      assert parts[1..] == [parts[1]];
    } else {
      var rest := parts[1..];
      JoinSnoc(rest);
      assert rest[..|rest| - 1] == parts[..|parts| - 1][1..];
      assert parts[..|parts| - 1][0] == parts[0];
    }
  }

  /** The last "/" of `x + "/" + y` is the one before `y` when `y` holds none. */
  lemma LastSlashAt(x: string, y: string)
    requires '/' !in y
    ensures LastSlash(x + "/" + y) == |x|
  {
    var p := x + "/" + y;
    var i := LastSlash(p);
    assert p[|x|] == '/';
  }

  /** parent of an absolute path "/a/.../b/c" is "/a/.../b", and "/" for a path of one name. */
  lemma ParentOfPath(parts: seq<string>)
    requires AllValid(parts) && parts != []
    ensures Parent(ToString(FilePath(parts, true))) == ToString(FilePath(parts[..|parts| - 1], true))
  {
    var p := ToString(FilePath(parts, true));
    var last := parts[|parts| - 1];
    assert ValidName(last);
    if |parts| == 1 {
      assert p == "" + "/" + last by {
        assert Join(parts) == last;
      }
      LastSlashAt("", last);
      assert parts[..0] == [];
    } else {
      var front := "/" + Join(parts[..|parts| - 1]);
      assert p == front + "/" + last by {
        JoinSnoc(parts);
      }
      LastSlashAt(front, last);
      assert p[..|front|] == front;
    }
  }

  /** stripLeadingSlash of an absolute path is its relative form "a/.../c". */
  lemma StripOfPath(parts: seq<string>)
    ensures StripLeadingSlash(ToString(FilePath(parts, true))) == Join(parts)
  {
    assert ToString(FilePath(parts, true)) == "/" + Join(parts);
  }

  // ---------------------------------------------------------------------
  // Host paths: Path.resolve, then Path.normalize

  /** The names of a host path string: the pieces between separators, empty ones dropped. */
  function HostNames(s: string): seq<string>
  {
    NonEmpty(Split(s))
  }

  /** Names with no "." and no "..". */
  predicate Plain(names: seq<string>)
  {
    forall i :: 0 <= i < |names| ==> names[i] != "." && names[i] != ".."
  }

  /**
   * Path.normalize on the names of a path: "." is dropped, and ".." drops
   * the name before it; with no name before it, it is dropped from an
   * absolute path and kept in a relative one.
   */
  function NormalizeNames(names: seq<string>, absolute: bool): (r: seq<string>)
    ensures "." !in r
    ensures absolute ==> ".." !in r
    ensures forall i :: 0 <= i < |r| ==> r[i] in names
  {
    if names == [] then []
    else
      var init := names[..|names| - 1];
      var s := NormalizeNames(init, absolute);
      var n := names[|names| - 1];
      assert forall i :: 0 <= i < |s| ==> s[i] in names by {
        forall i | 0 <= i < |s| ensures s[i] in names {
          var j :| 0 <= j < |init| && init[j] == s[i];
          assert names[j] == init[j];
        }
      }
      if n == "." then s
      else if n == ".." && s != [] && s[|s| - 1] != ".." then s[..|s| - 1]
      else if n == ".." && absolute then s
      else s + [n]
  }

  /**
   * What toLocalPath answers for the argument with its leading slash
   * stripped: the staging directory resolved against it, normalised, and
   * printed. An absolute argument replaces the staging directory.
   */
  function LocalPath(tmpRoot: string, rel: string): (r: string)
    ensures StartsWithSlash(rel) || StartsWithSlash(tmpRoot) ==> StartsWithSlash(r)
  {
    var absolute := StartsWithSlash(rel) || StartsWithSlash(tmpRoot);
    var names := if StartsWithSlash(rel) then HostNames(rel) else HostNames(tmpRoot) + HostNames(rel);
    (if absolute then "/" else "") + Join(NormalizeNames(names, absolute))
  }

  /** Names without "." and ".." are already normal. */
  lemma {:induction false} NormalizePlain(names: seq<string>, absolute: bool)
    requires Plain(names)
    ensures NormalizeNames(names, absolute) == names
  {
    if names != [] {
      var init := names[..|names| - 1];
      assert Plain(init) by {
        forall i | 0 <= i < |init| ensures init[i] != "." && init[i] != ".." {
          assert init[i] == names[i];
        }
      }
      var n := names[|names| - 1];
      assert n != "." && n != "..";
      NormalizePlain(init, absolute);
      assert NormalizeNames(names, absolute) == NormalizeNames(init, absolute) + [n];
      assert init + [n] == names;
    }
  }

  /** The names of joined valid names are those names. */
  lemma HostNamesOfJoin(parts: seq<string>)
    requires AllValid(parts)
    ensures HostNames(Join(parts)) == parts
  {
    if parts == [] {
      assert Split("") == [""];
      assert NonEmpty([""]) == NonEmpty([""][1..]);
    } else {
      forall i | 0 <= i < |parts| ensures '/' !in parts[i] {
        assert ValidName(parts[i]);
      }
      SplitJoin(parts);
      NonEmptyValid(parts);
    }
  }

  /**
   * Below an absolute staging directory without "." or "..", a relative
   * argument without them stays below the staging directory: its names
   * follow the staging directory's own.
   */
  lemma LocalPathInside(tmpRoot: string, rel: string)
    requires StartsWithSlash(tmpRoot) && Plain(HostNames(tmpRoot))
    requires !StartsWithSlash(rel) && Plain(HostNames(rel))
    ensures LocalPath(tmpRoot, rel) == "/" + Join(HostNames(tmpRoot) + HostNames(rel))
  {
    var a, b := HostNames(tmpRoot), HostNames(rel);
    assert Plain(a + b) by {
      forall i | 0 <= i < |a + b| ensures (a + b)[i] != "." && (a + b)[i] != ".." {
        if i < |a| {
          assert (a + b)[i] == a[i];
        } else {
          assert (a + b)[i] == b[i - |a|];
        }
      }
    }
    NormalizePlain(a + b, true);
  }

  /** For the printed form of a path of the store, the answer is that path below the staging directory. */
  lemma LocalPathOfStorePath(tmpRoot: string, parts: seq<string>)
    requires StartsWithSlash(tmpRoot) && Plain(HostNames(tmpRoot)) && AllValid(parts)
    ensures LocalPath(tmpRoot, StripLeadingSlash(ToString(FilePath(parts, true)))) ==
      "/" + Join(HostNames(tmpRoot) + parts)
  {
    StripOfPath(parts);
    HostNamesOfJoin(parts);
    if parts != [] {
      JoinShape(parts);
    }
    assert Plain(parts) by {
      forall i | 0 <= i < |parts| ensures parts[i] != "." && parts[i] != ".." {
        assert ValidName(parts[i]);
      }
    }
    LocalPathInside(tmpRoot, Join(parts));
  }

  /** The names of "/"-free pieces joined with "/" are the pieces that are not empty. */
  lemma HostNamesOfPieces(pieces: seq<string>)
    requires pieces != [] && forall i :: 0 <= i < |pieces| ==> '/' !in pieces[i]
    ensures HostNames(Join(pieces)) == NonEmpty(pieces)
  {
    SplitJoin(pieces);
  }

  /** A staging directory as the host creates it: absolute, without "." or "..". */
  predicate PlainRoot(tmpRoot: string)
  {
    StartsWithSlash(tmpRoot) && Plain(HostNames(tmpRoot))
  }

  /** One more name after names already normalised. */
  lemma {:induction false} NormalizeSnoc(names: seq<string>, n: string, absolute: bool)
    ensures var s := NormalizeNames(names, absolute);
      NormalizeNames(names + [n], absolute) ==
        if n == "." then s
        else if n == ".." && s != [] && s[|s| - 1] != ".." then s[..|s| - 1]
        else if n == ".." && absolute then s
        else s + [n]
  {
    assert (names + [n])[..|names|] == names;
  }

  /** A relative argument under an absolute staging directory: both lists of names, normalised as one. */
  lemma LocalPathRelative(tmpRoot: string, rel: string)
    requires StartsWithSlash(tmpRoot) && !StartsWithSlash(rel)
    ensures LocalPath(tmpRoot, rel) == "/" + Join(NormalizeNames(HostNames(tmpRoot) + HostNames(rel), true))
  {
  }

  /** A name other than "." and ".." is kept after the names before it. */
  lemma {:induction false} NormalizeSnocName(names: seq<string>, n: string, absolute: bool)
    requires n != "." && n != ".."
    ensures NormalizeNames(names + [n], absolute) == NormalizeNames(names, absolute) + [n]
  {
    NormalizeSnoc(names, n, absolute);
  }

  /** ".." after names that normalise to a last name other than ".." removes that name. */
  lemma {:induction false} NormalizeSnocUp(names: seq<string>, absolute: bool)
    requires var s := NormalizeNames(names, absolute); s != [] && s[|s| - 1] != ".."
    ensures var s := NormalizeNames(names, absolute); NormalizeNames(names + [".."], absolute) == s[..|s| - 1]
  {
    NormalizeSnoc(names, "..", absolute);
  }

  /** "a/../b" after plain names: a is removed again and b follows the plain names. */
  lemma {:induction false} NormalizeUpAndAcross(root: seq<string>, a: string, b: string)
    requires Plain(root) && ValidName(a) && ValidName(b)
    ensures NormalizeNames(root + [a, "..", b], true) == root + [b]
  {
    var r1 := root + [a];
    var r2 := r1 + [".."];
    NormalizePlain(root, true);
    NormalizeSnocName(root, a, true);
    assert NormalizeNames(r1, true) == r1;
    NormalizeSnocUp(r1, true);
    assert r1[..|r1| - 1] == root;
    assert NormalizeNames(r2, true) == root;
    NormalizeSnocName(r2, b, true);
    assert r2 + [b] == root + [a, "..", b];
  }

  /** "/a/../b" gives b in the staging directory: the ".." is normalised away. */
  lemma {:induction false} LocalPathUpAndAcross(tmpRoot: string, a: string, b: string)
    requires PlainRoot(tmpRoot) && ValidName(a) && ValidName(b)
    ensures LocalPath(tmpRoot, StripLeadingSlash("/" + Join([a, "..", b]))) == "/" + Join(HostNames(tmpRoot) + [b])
  {
    var rel := Join([a, "..", b]);
    assert StripLeadingSlash("/" + rel) == rel;
    HostNamesOfPieces([a, "..", b]);
    assert NonEmpty([a, "..", b]) == [a, "..", b] by {
      assert [a, "..", b][1..] == ["..", b] && ["..", b][1..] == [b] && [b][1..] == [];
      assert NonEmpty([b]) == [b];
      assert NonEmpty(["..", b]) == ["..", b];
    }
    assert !StartsWithSlash(rel) by {
      assert rel == a + "/" + Join(["..", b]);
      assert rel[0] == a[0];
    }
    LocalPathRelative(tmpRoot, rel);
    NormalizeUpAndAcross(HostNames(tmpRoot), a, b);
  }

  /** "/a/" gives a in the staging directory: the trailing separator is dropped. */
  lemma LocalPathTrailingSlash(tmpRoot: string, a: string)
    requires PlainRoot(tmpRoot) && ValidName(a)
    ensures LocalPath(tmpRoot, StripLeadingSlash("/" + a + "/")) == "/" + Join(HostNames(tmpRoot) + [a])
  {
    var root := HostNames(tmpRoot);
    assert "/" + a + "/" == "/" + Join([a, ""]);
    HostNamesOfPieces([a, ""]);
    assert [a, ""][1..] == [""] && [""][1..] == [];
    assert NonEmpty([a, ""]) == [a];
    NormalizePlain(root, true);
    NormalizeSnocName(root, a, true);
  }

  /** "//etc" keeps one leading slash once stripped, so it replaces the staging directory: "/etc". */
  lemma LocalPathEscapesBySlash(tmpRoot: string)
    ensures LocalPath(tmpRoot, StripLeadingSlash("//etc")) == "/etc"
  {
    assert StripLeadingSlash("//etc") == Join(["", "etc"]);
    HostNamesOfPieces(["", "etc"]);
    NormalizeSnocName([], "etc", true);
  }

  /** ".." right after plain names removes the last of them. */
  lemma {:induction false} NormalizeUp(root: seq<string>, x: string)
    requires Plain(root) && root != [] && ValidName(x)
    ensures NormalizeNames(root + ["..", x], true) == root[..|root| - 1] + [x]
  {
    NormalizePlain(root, true);
    assert root[|root| - 1] != "..";
    NormalizeSnocUp(root, true);
    NormalizeSnocName(root + [".."], x, true);
    assert root + [".."] + [x] == root + ["..", x];
  }

  /** "/../x" climbs out of the staging directory, to x beside it. */
  lemma {:induction false} LocalPathEscapesByUp(tmpRoot: string, x: string)
    requires PlainRoot(tmpRoot) && HostNames(tmpRoot) != [] && ValidName(x)
    ensures var root := HostNames(tmpRoot);
      LocalPath(tmpRoot, StripLeadingSlash("/" + Join(["..", x]))) == "/" + Join(root[..|root| - 1] + [x])
  {
    var rel := Join(["..", x]);
    assert StripLeadingSlash("/" + rel) == rel;
    HostNamesOfPieces(["..", x]);
    assert NonEmpty(["..", x]) == ["..", x] by {
      assert ["..", x][1..] == [x] && [x][1..] == [];
      assert NonEmpty([x]) == [x];
    }
    assert rel == "../" + x;
    LocalPathRelative(tmpRoot, rel);
    NormalizeUp(HostNames(tmpRoot), x);
  }

  // ---------------------------------------------------------------------
  // mkdirs

  /** The pieces that are not empty, in order. */
  function NonEmpty(pieces: seq<string>): seq<string>
  {
    if pieces == [] then []
    else if pieces[0] == "" then NonEmpty(pieces[1..])
    else [pieces[0]] + NonEmpty(pieces[1..])
  }

  /** The successive values of `cur` in the loop of mkdirs: "/" and a piece appended each time. */
  function Prefixes(pieces: seq<string>, cur: string): seq<string>
  {
    if pieces == [] then []
    else if pieces[0] == "" then Prefixes(pieces[1..], cur)
    else [cur + "/" + pieces[0]] + Prefixes(pieces[1..], cur + "/" + pieces[0])
  }

  /** The arguments mkdirs passes to mkdir, in order. */
  function MkdirsArgs(path: string): seq<string>
  {
    if path == "" || path == "/" then [] else Prefixes(Split(StripLeadingSlash(path)), "")
  }

  /**
   * mkdirs as a function of the store: mkdir on every argument in turn; a
   * failure stops everything unless the argument is a directory after all.
   */
  function MkdirsSpec(s: HdState, args: seq<string>): (Outcome, HdState)
    decreases |args|
  {
    if args == [] then (Pass, s)
    else
      var (o, s1) := MkdirSpec(s, args[0]);
      if o.Fail? && !IsDirSpec(s1, args[0]) then (o, s1) else MkdirsSpec(s1, args[1..])
  }

  /** The absolute paths of the prefixes of `parts` longer than `n`, shortest first. */
  function ChainFrom(parts: seq<string>, n: nat): (r: seq<string>)
    requires n <= |parts|
    ensures |r| == |parts| - n
    decreases |parts| - n
  {
    if n == |parts| then [] else [ToString(FilePath(parts[..n + 1], true))] + ChainFrom(parts, n + 1)
  }

  /** The `i`-th path of the chain beyond `n` names the first `n + i + 1` names. */
  lemma {:induction false} ChainFromAt(parts: seq<string>, n: nat)
    requires n <= |parts|
    ensures forall i :: 0 <= i < |parts| - n ==> ChainFrom(parts, n)[i] == ToString(FilePath(parts[..n + i + 1], true))
    decreases |parts| - n
  {
    if n < |parts| {
      ChainFromAt(parts, n + 1);
    }
  }

  /** Every entry of `a` is in `b`, the same. */
  predicate Grows(a: Host, b: Host)
  {
    forall k :: k in a ==> k in b && b[k] == a[k]
  }

  /** Joining the first `j + 1` names of `[p] + rest` is `p`, a "/", and the first `j` of `rest` joined. */
  lemma JoinFront(p: string, rest: seq<string>, j: nat)
    requires 0 < j <= |rest|
    ensures Join(([p] + rest)[..j + 1]) == p + "/" + Join(rest[..j])
  {
    var q := ([p] + rest)[..j + 1];
    assert q[0] == p && q[1..] == rest[..j];
  }

  /** `r` lists "cur/n1", "cur/n1/n2", ... for the names `ne`. */
  predicate Cumulative(r: seq<string>, ne: seq<string>, cur: string)
  {
    |r| == |ne| && forall j :: 0 <= j < |r| ==> r[j] == cur + "/" + Join(ne[..j + 1])
  }

  /** A name put in front of the names puts its own path in front of the paths. */
  lemma CumulativeCons(p: string, r: seq<string>, ne: seq<string>, cur: string)
    requires Cumulative(r, ne, cur + "/" + p)
    ensures Cumulative([cur + "/" + p] + r, [p] + ne, cur)
  {
    var r2 := [cur + "/" + p] + r;
    var ne2 := [p] + ne;
    forall j | 0 <= j < |r2|
      ensures r2[j] == cur + "/" + Join(ne2[..j + 1])
    {
      if j == 0 {
        assert ne2[..1] == [p];
      } else {
        assert r2[j] == r[j - 1];
        JoinFront(p, ne, j);
      }
    }
  }

  /**
   * The loop of mkdirs calls mkdir on each cumulative prefix "/a", "/a/b",
   * ... of the pieces that are not empty, in order.
   */
  lemma {:induction false} PrefixesShape(pieces: seq<string>, cur: string)
    ensures Cumulative(Prefixes(pieces, cur), NonEmpty(pieces), cur)
  {
    if pieces != [] {
      var p := pieces[0];
      if p == "" {
        PrefixesShape(pieces[1..], cur);
      } else {
        PrefixesShape(pieces[1..], cur + "/" + p);
        CumulativeCons(p, Prefixes(pieces[1..], cur + "/" + p), NonEmpty(pieces[1..]), cur);
      }
    }
  }

  lemma {:induction false} NonEmptyValid(parts: seq<string>)
    requires AllValid(parts)
    ensures NonEmpty(parts) == parts
  {
    if parts != [] {
      NonEmptyValid(parts[1..]);
    }
  }

  /** For a canonical absolute path, the loop of mkdirs starts from the path's own names. */
  lemma {:induction false} MkdirsArgsPrefixes(parts: seq<string>)
    requires AllValid(parts) && parts != []
    ensures MkdirsArgs(ToString(FilePath(parts, true))) == Prefixes(parts, "")
  {
    JoinShape(parts);
    StripOfPath(parts);
    forall i | 0 <= i < |parts| ensures '/' !in parts[i] { assert ValidName(parts[i]); }
    SplitJoin(parts);
  }

  /** On a canonical absolute path, mkdirs creates the chain of its prefixes, shortest first. */
  lemma {:induction false} MkdirsArgsOfPath(parts: seq<string>)
    requires AllValid(parts)
    ensures MkdirsArgs(ToString(FilePath(parts, true))) == ChainFrom(parts, 0)
  {
    var p := ToString(FilePath(parts, true));
    if parts == [] {
      assert p == "/";
    } else {
      MkdirsArgsPrefixes(parts);
      var r := Prefixes(parts, "");
      assert Cumulative(r, parts, "") by {
        NonEmptyValid(parts);
        PrefixesShape(parts, "");
      }
      ChainFromAt(parts, 0);
      forall j | 0 <= j < |parts|
        ensures r[j] == ToString(FilePath(parts[..j + 1], true))
      {
        assert "" + "/" + Join(parts[..j + 1]) == "/" + Join(parts[..j + 1]);
      }
    }
  }

  /** An absolute path with valid names designates its names, whatever the current directory. */
  lemma KeyOfPath(s: HdState, parts: seq<string>)
    requires AllValid(parts)
    ensures Key(s, ToString(FilePath(parts, true))) == parts
  {
    ChdirToString(s.cwd, FilePath(parts, true));
  }

  /** mkdir on the entry `k` itself. */
  function MkdirAt(s: HdState, k: seq<string>): (Outcome, HdState)
  {
    if s.state != Open then (Fail(NotOpen), s)
    else if ExistsKey(s.files, k) then (Pass, s)
    else if IsDirKey(s.files, k[..|k| - 1]) then (Pass, s.(files := s.files[k := Dir]))
    else (Fail(HostFailure), s)
  }

  /** mkdirs on the entries `ks` themselves. */
  function MkdirsAt(s: HdState, ks: seq<seq<string>>): (Outcome, HdState)
    decreases |ks|
  {
    if ks == [] then (Pass, s)
    else
      var (o, s1) := MkdirAt(s, ks[0]);
      if o.Fail? && !IsDirKey(s1.files, ks[0]) then (o, s1) else MkdirsAt(s1, ks[1..])
  }

  /** The entries the arguments designate from the directory `cwd`. */
  function Keys(cwd: FilePath, args: seq<string>): (ks: seq<seq<string>>)
    ensures |ks| == |args|
    decreases |args|
  {
    if args == [] then [] else [ChdirStr(cwd, args[0]).parts] + Keys(cwd, args[1..])
  }

  /** The prefixes of `parts` longer than `n`, shortest first. */
  function PrefixKeys(parts: seq<string>, n: nat): (ks: seq<seq<string>>)
    requires n <= |parts|
    ensures |ks| == |parts| - n
    decreases |parts| - n
  {
    if n == |parts| then [] else [parts[..n + 1]] + PrefixKeys(parts, n + 1)
  }

  /** The `i`-th prefix beyond `n` is the first `n + i + 1` names, valid when `parts` is. */
  lemma {:induction false} PrefixKeysAt(parts: seq<string>, n: nat)
    requires n <= |parts|
    ensures forall i :: 0 <= i < |parts| - n ==> PrefixKeys(parts, n)[i] == parts[..n + i + 1]
    ensures AllValid(parts) ==> forall i :: 0 <= i < |parts| - n ==> AllValid(PrefixKeys(parts, n)[i])
    decreases |parts| - n
  {
    if n < |parts| {
      PrefixKeysAt(parts, n + 1);
    }
  }

  /** mkdirs on path strings is mkdirs on the entries they designate. */
  lemma {:induction false} MkdirsKeys(s: HdState, args: seq<string>)
    ensures MkdirsSpec(s, args) == MkdirsAt(s, Keys(s.cwd, args))
    decreases |args|
  {
    if args != [] {
      var ks := Keys(s.cwd, args);
      var s1 := MkdirSpec(s, args[0]).1;
      MkdirKey(s, args[0], ks[0]);
      MkdirsKeys(s1, args[1..]);
    }
  }

  lemma MkdirKey(s: HdState, path: string, k: seq<string>)
    requires k == Key(s, path)
    ensures MkdirSpec(s, path) == MkdirAt(s, k)
    ensures MkdirSpec(s, path).1.cwd == s.cwd
    ensures IsDirSpec(MkdirSpec(s, path).1, path) == IsDirKey(MkdirSpec(s, path).1.files, k)
  {
  }

  /** The chain of a canonical path designates the chain of its prefixes. */
  lemma {:induction false} ChainKeys(cwd: FilePath, parts: seq<string>, n: nat)
    requires AllValid(parts) && n <= |parts|
    ensures Keys(cwd, ChainFrom(parts, n)) == PrefixKeys(parts, n)
    decreases |parts| - n
  {
    if n < |parts| {
      var p := parts[..n + 1];
      ChainKeys(cwd, parts, n + 1);
      assert AllValid(p);
      PathKey(cwd, p);
    }
  }

  lemma PathKey(cwd: FilePath, parts: seq<string>)
    requires AllValid(parts)
    ensures ChdirStr(cwd, ToString(FilePath(parts, true))).parts == parts
  {
    ChdirToString(cwd, FilePath(parts, true));
  }

  /**
   * mkdirs keeps the tree valid and keeps every entry; it only adds
   * directories, and when it passes, every entry it was given exists
   * afterwards.
   */
  lemma {:induction false} MkdirsKeeps(s: HdState, ks: seq<seq<string>>)
    requires HdValid(s) && forall i :: 0 <= i < |ks| ==> AllValid(ks[i])
    ensures var (o, t) := MkdirsAt(s, ks);
      HdValid(t) && t.state == s.state && t.cwd == s.cwd && t.stack == s.stack &&
      Grows(s.files, t.files) && (forall k :: k in t.files && k !in s.files ==> t.files[k] == Dir) &&
      (o.Pass? ==> forall i :: 0 <= i < |ks| ==> ExistsKey(t.files, ks[i]))
    decreases |ks|
  {
    if ks != [] {
      var (o1, s1) := MkdirAt(s, ks[0]);
      var k := ks[0];
      if s.state == Open && !ExistsKey(s.files, k) && IsDirKey(s.files, k[..|k| - 1]) {
        AddValid(s.files, k, Dir);
      }
      MkdirsKeeps(s1, ks[1..]);
      var (o, t) := MkdirsAt(s, ks);
      if !(o1.Fail? && !IsDirKey(s1.files, k)) {
        assert (o, t) == MkdirsAt(s1, ks[1..]);
        assert ExistsKey(s1.files, k);
        if o.Pass? {
          forall i | 0 <= i < |ks|
            ensures ExistsKey(t.files, ks[i])
          {
            if i > 0 {
              assert ks[i] == ks[1..][i - 1];
            }
          }
        }
      }
    }
  }

  /**
   * The first step of mkdirs along `parts` beyond `n`, where the first `n`
   * names lead to a directory: mkdir passes; it adds a directory unless
   * something is there already.
   */
  lemma ChainStep(s: HdState, parts: seq<string>, n: nat)
    requires HdValid(s) && s.state == Open && AllValid(parts)
    requires n < |parts| && IsDirKey(s.files, parts[..n])
    ensures var k1 := parts[..n + 1]; var (o1, s1) := MkdirAt(s, k1);
      o1 == Pass && HdValid(s1) && s1.state == Open &&
      MkdirsAt(s, PrefixKeys(parts, n)) == MkdirsAt(s1, PrefixKeys(parts, n + 1)) &&
      (ExistsKey(s.files, k1) ==> s1 == s) &&
      (!ExistsKey(s.files, k1) ==> s1 == s.(files := s.files[k1 := Dir]))
  {
    var k1 := parts[..n + 1];
    assert k1[..n] == parts[..n];
    var c := PrefixKeys(parts, n);
    assert c[0] == k1;
    assert c[1..] == PrefixKeys(parts, n + 1);
    assert AllValid(k1);
    if !ExistsKey(s.files, k1) {
      AddValid(s.files, k1, Dir);
    }
  }

  /** Past a file on the way, mkdir fails: the parent of the next prefix is not a directory. */
  lemma ChainBlocked(s: HdState, parts: seq<string>, n: nat)
    requires HdValid(s) && s.state == Open
    requires n + 1 < |parts| && IsFileKey(s.files, parts[..n + 1])
    ensures MkdirsAt(s, PrefixKeys(parts, n + 1)) == (Fail(HostFailure), s)
  {
    var c1 := PrefixKeys(parts, n + 1);
    var k2 := parts[..n + 2];
    assert c1[0] == k2;
    assert k2[..n + 1] == parts[..n + 1];
    assert k2 !in s.files by {
      if k2 in s.files {
        EntryValid(s.files, k2);
      }
    }
    assert MkdirAt(s, k2) == (Fail(HostFailure), s);
  }

  /**
   * mkdirs on the prefixes beyond `n` of `parts`, on an open store where
   * the first `n` names lead to a directory: it passes exactly when no
   * prefix on the way is a file; it then leaves every prefix on the way a
   * directory and `parts` itself present; it keeps every entry, and the
   * only entries it adds are prefixes of `parts`.
   */
  lemma {:induction false} MkdirsChain(s: HdState, parts: seq<string>, n: nat)
    requires HdValid(s) && s.state == Open && AllValid(parts)
    requires n <= |parts| && IsDirKey(s.files, parts[..n])
    ensures var (o, t) := MkdirsAt(s, PrefixKeys(parts, n));
      (o.Pass? <==> forall j :: n < j < |parts| ==> !IsFileKey(s.files, parts[..j])) &&
      (o.Pass? ==> (forall j :: n <= j < |parts| ==> IsDirKey(t.files, parts[..j])) && ExistsKey(t.files, parts)) &&
      Grows(s.files, t.files) &&
      (forall k :: k in t.files && k !in s.files ==> 0 < |k| <= |parts| && k == parts[..|k|])
    decreases |parts| - n, 1
  {
    if n == |parts| {
      assert parts[..n] == parts;
    } else if IsFileKey(s.files, parts[..n + 1]) {
      ChainStep(s, parts, n);
      if n + 1 < |parts| {
        ChainBlocked(s, parts, n);
      } else {
        assert parts[..n + 1] == parts;
      }
    } else {
      MkdirsChainDir(s, parts, n);
    }
  }

  /** The case of MkdirsChain where the next prefix is not a file: it becomes, or stays, a directory. */
  lemma {:induction false} MkdirsChainDir(s: HdState, parts: seq<string>, n: nat)
    requires HdValid(s) && s.state == Open && AllValid(parts)
    requires n < |parts| && IsDirKey(s.files, parts[..n]) && !IsFileKey(s.files, parts[..n + 1])
    ensures var (o, t) := MkdirsAt(s, PrefixKeys(parts, n));
      (o.Pass? <==> forall j :: n < j < |parts| ==> !IsFileKey(s.files, parts[..j])) &&
      (o.Pass? ==> (forall j :: n <= j < |parts| ==> IsDirKey(t.files, parts[..j])) && ExistsKey(t.files, parts)) &&
      Grows(s.files, t.files) &&
      (forall k :: k in t.files && k !in s.files ==> 0 < |k| <= |parts| && k == parts[..|k|])
    decreases |parts| - n, 0
  {
    var k1 := parts[..n + 1];
    var s1 := MkdirAt(s, k1).1;
    ChainStep(s, parts, n);
    assert IsDirKey(s1.files, k1);
    assert Grows(s.files, s1.files);
    MkdirsChain(s1, parts, n + 1);
    assert forall j :: n + 1 < j < |parts| ==> IsFileKey(s1.files, parts[..j]) == IsFileKey(s.files, parts[..j]) by {
      forall j | n + 1 < j < |parts|
        ensures IsFileKey(s1.files, parts[..j]) == IsFileKey(s.files, parts[..j])
      {
        assert |parts[..j]| != |k1|;
      }
    }
  }

  /** One step of the loop of mkdirs: an empty piece is skipped, another one is a mkdir. */
  lemma MkdirsStep(s: HdState, piece: string, rest: seq<string>, cur: string)
    ensures MkdirsSpec(s, Prefixes([piece] + rest, cur)) ==
      if piece == "" then MkdirsSpec(s, Prefixes(rest, cur))
      else
        var c := cur + "/" + piece;
        var (o, s1) := MkdirSpec(s, c);
        if o.Fail? && !IsDirSpec(s1, c) then (o, s1) else MkdirsSpec(s1, Prefixes(rest, c))
  {
    assert ([piece] + rest)[1..] == rest;
  }

  /**
   * mkdirs, as the source writes it: "/" and the empty path need nothing;
   * otherwise one leading "/" goes, the rest is split at every "/", empty
   * pieces are skipped, and mkdir runs on each cumulative prefix, a failure
   * being forgiven when the prefix is a directory after all.
   */
  method Mkdirs(fs: HardDisk, path: string) returns (o: Outcome)
    requires fs.Valid()
    modifies fs
    ensures fs.Valid() && fs.Lease() == old(fs.Lease())
    ensures (o, fs.Model()) == MkdirsSpec(old(fs.Model()), MkdirsArgs(path))
  {
    if path == "" || path == "/" {
      return Pass;
    }
    var pieces := Split(StripLeadingSlash(path));
    var cur := "";
    var i := 0;
    assert pieces[0..] == pieces;
    while i < |pieces|
      invariant 0 <= i <= |pieces| && fs.Valid() && fs.Lease() == old(fs.Lease())
      invariant MkdirsSpec(old(fs.Model()), MkdirsArgs(path)) == MkdirsSpec(fs.Model(), Prefixes(pieces[i..], cur))
    {
      ghost var s := fs.Model();
      assert pieces[i..] == [pieces[i]] + pieces[i + 1..];
      MkdirsStep(s, pieces[i], pieces[i + 1..], cur);
      if pieces[i] != "" {
        cur := cur + "/" + pieces[i];
        o := fs.Mkdir(cur);
        if o.Fail? {
          var isDir := fs.IsDirectory(cur);
          if !isDir {
            return;
          }
        }
      }
      i := i + 1;
    }
    o := Pass;
  }

  // ---------------------------------------------------------------------
  // materialize

  /**
   * materialize as a function of the backing store and the staging store:
   * nothing when the path is already staged; a backing directory becomes a
   * chain of staged directories; a backing file gets its parent chain and a
   * copy of its bytes; a missing path gets its parent chain only.
   */
  function MaterializeSpec(b: HdState, l: HdState, path: string): (Outcome, HdState)
  {
    if IsFileSpec(l, path) || IsDirSpec(l, path) then (Pass, l)
    else if IsDirSpec(b, path) then MkdirsSpec(l, MkdirsArgs(path))
    else if IsFileSpec(b, path) then
      var (o1, l1) := MkdirsSpec(l, MkdirsArgs(Parent(path)));
      if o1.Fail? then (o1, l1) else FetchSpec(b, l1, path)
    else MkdirsSpec(l, MkdirsArgs(Parent(path)))
  }

  /** The fetch of a backing file: read it, create the staged file, copy the bytes, close. */
  function FetchSpec(b: HdState, l: HdState, path: string): (Outcome, HdState)
  {
    var bytes := ReadSpec(b, path);
    if bytes.Err? then (Fail(bytes.error), l)
    else
      var (w, l2) := WriteToSpec(l, path);
      if w.Err? then (Fail(w.error), l2) else (Pass, CommitSpec(l2, w.value, bytes.value))
  }

  /**
   * materialize on the entry `k`, given the entries of its own chain and of
   * its parent's chain.
   */
  function MaterializeAt(b: HdState, l: HdState, k: seq<string>, chain: seq<seq<string>>, up: seq<seq<string>>): (Outcome, HdState)
  {
    if ExistsKey(l.files, k) then (Pass, l)
    else if IsDirKey(b.files, k) then MkdirsAt(l, chain)
    else if IsFileKey(b.files, k) then
      var (o1, l1) := MkdirsAt(l, up);
      if o1.Fail? then (o1, l1)
      else if b.state != Open || l1.state != Open then (Fail(NotOpen), l1)
      else if IsDirKey(l1.files, k) || !IsDirKey(l1.files, k[..|k| - 1]) then (Fail(HostFailure), l1)
      else (Pass, l1.(files := l1.files[k := b.files[k]]))
    else MkdirsAt(l, up)
  }

  /** mkdir never moves the current directory, the stack or the lifecycle. */
  lemma {:induction false} MkdirsFrame(s: HdState, ks: seq<seq<string>>)
    ensures var t := MkdirsAt(s, ks).1; t.state == s.state && t.cwd == s.cwd && t.stack == s.stack
    decreases |ks|
  {
    if ks != [] {
      MkdirsFrame(MkdirAt(s, ks[0]).1, ks[1..]);
    }
  }

  /**
   * materialize on a path both stores resolve to the same entry is
   * materialize on that entry, given the entries mkdirs creates for the
   * path and for its parent.
   */
  lemma MaterializeKeys(b: HdState, l: HdState, path: string, chain: seq<seq<string>>, up: seq<seq<string>>)
    requires Key(b, path) == Key(l, path)
    requires MkdirsSpec(l, MkdirsArgs(path)) == MkdirsAt(l, chain)
    requires MkdirsSpec(l, MkdirsArgs(Parent(path))) == MkdirsAt(l, up)
    ensures MaterializeSpec(b, l, path) == MaterializeAt(b, l, Key(l, path), chain, up)
  {
    var k := Key(l, path);
    if !ExistsKey(l.files, k) && IsFileKey(b.files, k) {
      MkdirsFrame(l, up);
      var (o1, l1) := MkdirsAt(l, up);
      assert Key(l1, path) == k;
      assert !IsFileSpec(l, path) && !IsDirSpec(l, path) && !IsDirSpec(b, path) && IsFileSpec(b, path);
      if o1.Pass? {
        FetchFileKeys(b, l1, path, k);
      }
    }
  }

  /** The fetch of a backing file into a staging store where its parent chain is in place. */
  lemma FetchFileKeys(b: HdState, l1: HdState, path: string, k: seq<string>)
    requires k == Key(b, path) && k == Key(l1, path) && IsFileKey(b.files, k)
    ensures FetchSpec(b, l1, path) == if b.state != Open || l1.state != Open then (Fail(NotOpen), l1)
      else if IsDirKey(l1.files, k) || !IsDirKey(l1.files, k[..|k| - 1]) then (Fail(HostFailure), l1)
      else (Pass, l1.(files := l1.files[k := b.files[k]]))
  {
    if b.state != Open {
      assert ReadSpec(b, path) == Err(NotOpen);
    } else if l1.state != Open {
      assert ReadSpec(b, path) == Ok(b.files[k].bytes);
      assert WriteToSpec(l1, path) == (Err(NotOpen), l1);
    } else if IsDirKey(l1.files, k) || !IsDirKey(l1.files, k[..|k| - 1]) {
      assert ReadSpec(b, path) == Ok(b.files[k].bytes);
      assert WriteToSpec(l1, path) == (Err(HostFailure), l1);
    } else {
      var bytes := b.files[k].bytes;
      assert ReadSpec(b, path) == Ok(bytes);
      var l2 := l1.(files := l1.files[k := Data([])]);
      assert WriteToSpec(l1, path) == (Ok(k), l2);
      assert CommitSpec(l2, k, bytes) == l1.(files := l1.files[k := b.files[k]]) by {
        assert l2.files[k := Data(bytes)] == l1.files[k := b.files[k]];
      }
    }
  }

  /**
   * What a first materialize of the entry `parts` leaves behind: it passes,
   * keeps every staged entry, makes every proper prefix a directory, and
   * stages a backing directory as a directory, a backing file as a
   * byte-exact copy, and nothing for a path the backing store lacks.
   */
  predicate Fetched(b: HdState, l: HdState, parts: seq<string>, o: Outcome, l1: HdState)
  {
    o == Pass && Grows(l.files, l1.files) &&
    (forall j :: 0 <= j < |parts| ==> IsDirKey(l1.files, parts[..j])) &&
    (IsDirKey(b.files, parts) ==> IsDirKey(l1.files, parts)) &&
    (IsFileKey(b.files, parts) ==> parts in l1.files && l1.files[parts] == b.files[parts]) &&
    (!ExistsKey(b.files, parts) ==> !ExistsKey(l1.files, parts))
  }

  /** The key-level account of materialize on a canonical path; see MaterializeFetches. */
  lemma MaterializeAtFetches(b: HdState, l: HdState, parts: seq<string>)
    requires HdValid(b) && HdValid(l) && b.state == Open && l.state == Open
    requires AllValid(parts) && parts != [] && parts !in l.files
    requires forall j :: 0 < j < |parts| ==> !IsFileKey(l.files, parts[..j])
    ensures var (o, l1) := MaterializeAt(b, l, parts, PrefixKeys(parts, 0), PrefixKeys(parts[..|parts| - 1], 0));
      Fetched(b, l, parts, o, l1)
  {
    if IsDirKey(b.files, parts) {
      FetchDirAt(b, l, parts);
    } else {
      FetchUpAt(b, l, parts);
    }
  }

  lemma FetchDirAt(b: HdState, l: HdState, parts: seq<string>)
    requires HdValid(b) && HdValid(l) && b.state == Open && l.state == Open
    requires AllValid(parts) && parts != [] && parts !in l.files
    requires forall j :: 0 < j < |parts| ==> !IsFileKey(l.files, parts[..j])
    requires IsDirKey(b.files, parts)
    ensures var (o, l1) := MaterializeAt(b, l, parts, PrefixKeys(parts, 0), PrefixKeys(parts[..|parts| - 1], 0));
      Fetched(b, l, parts, o, l1)
  {
    var chain := PrefixKeys(parts, 0);
    var up := PrefixKeys(parts[..|parts| - 1], 0);
    FetchDirChain(l, parts);
    assert MaterializeAt(b, l, parts, chain, up) == MkdirsAt(l, chain);
  }

  lemma FetchUpAt(b: HdState, l: HdState, parts: seq<string>)
    requires HdValid(b) && HdValid(l) && b.state == Open && l.state == Open
    requires AllValid(parts) && parts != [] && parts !in l.files
    requires forall j :: 0 < j < |parts| ==> !IsFileKey(l.files, parts[..j])
    requires !IsDirKey(b.files, parts)
    ensures var (o, l1) := MaterializeAt(b, l, parts, PrefixKeys(parts, 0), PrefixKeys(parts[..|parts| - 1], 0));
      Fetched(b, l, parts, o, l1)
  {
    FetchUpChain(l, parts);
    FetchUpGiven(b, l, parts, PrefixKeys(parts, 0), PrefixKeys(parts[..|parts| - 1], 0));
  }

  /** materialize of a path that is no backing directory, given what mkdirs of its parent does. */
  lemma FetchUpGiven(b: HdState, l: HdState, parts: seq<string>, chain: seq<seq<string>>, up: seq<seq<string>>)
    requires b.state == Open && parts != [] && parts !in l.files && !IsDirKey(b.files, parts)
    requires var (o1, l1) := MkdirsAt(l, up);
      o1 == Pass && Grows(l.files, l1.files) && l1.state == Open &&
      (forall j :: 0 <= j < |parts| ==> IsDirKey(l1.files, parts[..j])) &&
      parts !in l1.files
    ensures var (o, l1) := MaterializeAt(b, l, parts, chain, up);
      Fetched(b, l, parts, o, l1)
  {
    var (o1, l1) := MkdirsAt(l, up);
    if IsFileKey(b.files, parts) {
      assert IsDirKey(l1.files, parts[..|parts| - 1]) && !IsDirKey(l1.files, parts);
      assert MaterializeAt(b, l, parts, chain, up) == (Pass, l1.(files := l1.files[parts := b.files[parts]]));
    } else {
      assert MaterializeAt(b, l, parts, chain, up) == (o1, l1);
    }
  }

  /**
   * mkdirs on the chain of `p`, with no file on the way or at `p`, passes
   * and leaves every prefix of `p`, `p` included, a directory.
   */
  lemma {:induction false} ChainEndDir(l: HdState, p: seq<string>)
    requires HdValid(l) && l.state == Open && AllValid(p)
    requires forall j :: 0 < j <= |p| ==> !IsFileKey(l.files, p[..j])
    ensures var (o, l1) := MkdirsAt(l, PrefixKeys(p, 0));
      o == Pass && Grows(l.files, l1.files) && l1.state == Open &&
      (forall j :: 0 <= j <= |p| ==> IsDirKey(l1.files, p[..j])) &&
      (forall k :: k in l1.files && k !in l.files ==> 0 < |k| <= |p| && k == p[..|k|])
  {
    assert p[..0] == [];
    var ks := PrefixKeys(p, 0);
    PrefixKeysAt(p, 0);
    MkdirsChain(l, p, 0);
    MkdirsKeeps(l, ks);
    var (o, l1) := MkdirsAt(l, ks);
    assert p[..|p|] == p;
    if p != [] {
      assert IsDirKey(l1.files, p) by {
        if p in l.files {
          assert !IsFileKey(l.files, p[..|p|]);
        }
      }
    }
  }

  /** mkdirs on the chain of a path with no staged file in the way makes every prefix a directory. */
  lemma FetchDirChain(l: HdState, parts: seq<string>)
    requires HdValid(l) && l.state == Open
    requires AllValid(parts) && parts != [] && parts !in l.files
    requires forall j :: 0 < j < |parts| ==> !IsFileKey(l.files, parts[..j])
    ensures var (o, l1) := MkdirsAt(l, PrefixKeys(parts, 0));
      o == Pass && Grows(l.files, l1.files) &&
      (forall j :: 0 <= j < |parts| ==> IsDirKey(l1.files, parts[..j])) && IsDirKey(l1.files, parts)
  {
    assert parts[..|parts|] == parts;
    ChainEndDir(l, parts);
  }

  /**
   * mkdirs on the chain of a path's parent, with no staged file in the way,
   * makes every proper prefix a directory and leaves the path itself out.
   */
  lemma FetchUpChain(l: HdState, parts: seq<string>)
    requires HdValid(l) && l.state == Open
    requires AllValid(parts) && parts != [] && parts !in l.files
    requires forall j :: 0 < j < |parts| ==> !IsFileKey(l.files, parts[..j])
    ensures var (o, l1) := MkdirsAt(l, PrefixKeys(parts[..|parts| - 1], 0));
      o == Pass && Grows(l.files, l1.files) && l1.state == Open &&
      (forall j :: 0 <= j < |parts| ==> IsDirKey(l1.files, parts[..j])) &&
      parts !in l1.files
  {
    var init := parts[..|parts| - 1];
    assert AllValid(init);
    forall j | 0 < j <= |init| ensures init[..j] == parts[..j] { }
    ChainEndDir(l, init);
  }

  /**
   * materialize on an absolute path that is not staged yet, both stores
   * open and no staged file in the way: it passes and stages the path's
   * parent chain as directories; a backing directory is staged as a
   * directory, a backing file as a byte-exact copy, and a path missing from
   * the backing store stays missing; nothing staged before changes.
   */
  lemma MaterializeFetches(b: HdState, l: HdState, parts: seq<string>)
    requires HdValid(b) && HdValid(l) && b.state == Open && l.state == Open
    requires AllValid(parts) && parts != [] && parts !in l.files
    requires forall j :: 0 < j < |parts| ==> !IsFileKey(l.files, parts[..j])
    ensures var (o, l1) := MaterializeSpec(b, l, ToString(FilePath(parts, true)));
      Fetched(b, l, parts, o, l1) && l1.cwd == l.cwd
  {
    var path := ToString(FilePath(parts, true));
    var init := parts[..|parts| - 1];
    MaterializeOnPath(b, l, parts);
    MaterializeAtFetches(b, l, parts);
    MkdirsFrame(l, PrefixKeys(parts, 0));
    MkdirsFrame(l, PrefixKeys(init, 0));
  }

  /** materialize on a canonical absolute path is materialize on its entry, its chain and its parent's chain. */
  lemma MaterializeOnPath(b: HdState, l: HdState, parts: seq<string>)
    requires AllValid(parts) && parts != []
    ensures MaterializeSpec(b, l, ToString(FilePath(parts, true))) ==
      MaterializeAt(b, l, parts, PrefixKeys(parts, 0), PrefixKeys(parts[..|parts| - 1], 0))
  {
    var path := ToString(FilePath(parts, true));
    var init := parts[..|parts| - 1];
    assert AllValid(init);
    KeyOfPath(l, parts);
    KeyOfPath(b, parts);
    var chain := PrefixKeys(parts, 0);
    var up := PrefixKeys(init, 0);
    assert MkdirsSpec(l, MkdirsArgs(path)) == MkdirsAt(l, chain) by {
      MkdirsArgsOfPath(parts);
      MkdirsKeys(l, ChainFrom(parts, 0));
      ChainKeys(l.cwd, parts, 0);
    }
    assert MkdirsSpec(l, MkdirsArgs(Parent(path))) == MkdirsAt(l, up) by {
      ParentOfPath(parts);
      MkdirsArgsOfPath(init);
      MkdirsKeys(l, ChainFrom(init, 0));
      ChainKeys(l.cwd, init, 0);
    }
    MaterializeKeys(b, l, path, chain, up);
  }

  /**
   * Each path is fetched from the backing store at most once: once staged
   * by materialize, a second materialize of it changes nothing, whatever
   * the backing store holds by then.
   */
  lemma MaterializeOnce(b: HdState, b2: HdState, l: HdState, parts: seq<string>)
    requires HdValid(b) && HdValid(l) && b.state == Open && l.state == Open
    requires AllValid(parts) && parts != [] && parts !in l.files
    requires forall j :: 0 < j < |parts| ==> !IsFileKey(l.files, parts[..j])
    requires ExistsKey(b.files, parts)
    ensures var path := ToString(FilePath(parts, true));
      var l1 := MaterializeSpec(b, l, path).1;
      MaterializeSpec(b2, l1, path) == (Pass, l1)
  {
    MaterializeFetches(b, l, parts);
    KeyOfPath(MaterializeSpec(b, l, ToString(FilePath(parts, true))).1, parts);
  }

  // ---------------------------------------------------------------------
  // Commit

  /** What a staged entry requires of the backing store once committed. */
  predicate Landed(h: Host, k: seq<string>, e: Entry)
  {
    if e.Dir? then ExistsKey(h, k) else k in h && h[k] == e
  }

  /** Every entry of `a` but `k` is in `b`, the same. */
  predicate GrowsBut(a: Host, b: Host, k: seq<string>)
  {
    forall c :: c in a && c != k ==> c in b && b[c] == a[c]
  }

  /** Every staged entry of `done` has landed in `h`. */
  predicate AllLanded(h: Host, staged: Host, done: set<seq<string>>)
  {
    forall c :: c in done ==> c in staged && Landed(h, c, staged[c])
  }

  /** Writing `k` back keeps every other entry that has landed where it landed. */
  lemma LandedKept(before: Host, after: Host, k: seq<string>, done: set<seq<string>>, staged: Host)
    requires GrowsBut(before, after, k) && k !in done && AllLanded(before, staged, done)
    requires k in staged && Landed(after, k, staged[k])
    ensures AllLanded(after, staged, done + {k})
  {
    forall c | c in done + {k} ensures c in staged && Landed(after, c, staged[c]) {
      if c != k {
        assert Landed(before, c, staged[c]);
      }
    }
  }

  /** Every entry of `a` outside `ks` is in `b`, the same. */
  predicate KeptOutside(a: Host, b: Host, ks: set<seq<string>>)
  {
    forall c :: c in a && c !in ks ==> c in b && b[c] == a[c]
  }

  /** Keeping everything outside `done`, then everything but `k`, keeps everything outside `done` and `k`. */
  lemma KeptStep(a: Host, b: Host, c: Host, done: set<seq<string>>, k: seq<string>)
    requires KeptOutside(a, b, done) && GrowsBut(b, c, k)
    ensures KeptOutside(a, c, done + {k})
  {
  }

  lemma KeptOutsideWiden(a: Host, b: Host, ks: set<seq<string>>, ks': set<seq<string>>)
    requires KeptOutside(a, b, ks) && ks <= ks'
    ensures KeptOutside(a, b, ks')
  {
  }

  /** Every entry that `b` adds to `a`, or changes, is a staged entry, and of the same kind. */
  predicate AddsOnlyStaged(a: Host, b: Host, staged: Host)
  {
    forall c :: c in b && (c !in a || b[c] != a[c]) ==> c in staged && b[c].Dir? == staged[c].Dir?
  }

  /** No staged entry meets an entry of the other kind in `h`. */
  predicate Compatible(h: Host, staged: Host)
  {
    forall c :: c in staged && c in h ==> h[c].Dir? == staged[c].Dir?
  }

  /** Every proper prefix of a staged entry is a staged directory. */
  lemma {:induction false} StagedAncestors(h: Host, k: seq<string>)
    requires HostValid(h) && k in h
    ensures forall j :: 0 < j < |k| ==> k[..j] in h && h[k[..j]].Dir?
    decreases |k|
  {
    EntryValid(h, k);
    var p := k[..|k| - 1];
    if p != [] {
      StagedAncestors(h, p);
      forall j | 0 < j < |k| ensures k[..j] in h && h[k[..j]].Dir? {
        if j < |p| { assert k[..j] == p[..j]; }
      }
    }
  }

  /** On a compatible store, no proper prefix of a staged entry is a file. */
  lemma NoFileAbove(h: Host, staged: Host, k: seq<string>)
    requires HostValid(staged) && k in staged && Compatible(h, staged)
    ensures forall j :: 0 < j < |k| ==> !IsFileKey(h, k[..j])
  {
    StagedAncestors(staged, k);
  }

  /** Adding directories at prefixes of a staged entry, up to length `n`, adds only staged entries. */
  lemma PrefixesStaged(a: Host, b: Host, staged: Host, k: seq<string>, n: nat)
    requires HostValid(staged) && k in staged && n <= |k| && (n == |k| ==> staged[k].Dir?)
    requires Grows(a, b)
    requires forall c :: c in b && c !in a ==> b[c] == Dir && 0 < |c| <= n && c == k[..|c|]
    ensures AddsOnlyStaged(a, b, staged)
  {
    StagedAncestors(staged, k);
    forall c | c in b && (c !in a || b[c] != a[c]) ensures c in staged && b[c].Dir? == staged[c].Dir? {
      if |c| == |k| { assert c == k; }
    }
  }

  /** Adding only staged entries of their kind keeps a store compatible with the staged ones. */
  lemma CompatibleKept(a: Host, b: Host, staged: Host)
    requires Compatible(a, staged) && AddsOnlyStaged(a, b, staged)
    ensures Compatible(b, staged)
  {
    forall c | c in staged && c in b ensures b[c].Dir? == staged[c].Dir? {
      if c in a && b[c] == a[c] {
        assert a[c].Dir? == staged[c].Dir?;
      }
    }
  }

  /** Two steps that each add only staged entries add only staged entries. */
  lemma AddsTrans(a: Host, b: Host, c: Host, staged: Host)
    requires AddsOnlyStaged(a, b, staged) && AddsOnlyStaged(b, c, staged)
    ensures AddsOnlyStaged(a, c, staged)
  {
    forall x | x in c && (x !in a || c[x] != a[x]) ensures x in staged && c[x].Dir? == staged[x].Dir? {
      if x in b && c[x] == b[x] {
        assert x !in a || b[x] != a[x];
      }
    }
  }

  /** mkdirs on a closed store changes nothing. */
  lemma {:induction false} MkdirsAtClosed(s: HdState, ks: seq<seq<string>>)
    requires s.state != Open
    ensures MkdirsAt(s, ks).1 == s
    ensures MkdirsAt(s, ks).0.Pass? ==> forall i :: 0 <= i < |ks| ==> IsDirKey(s.files, ks[i])
    decreases |ks|
  {
    if ks != [] {
      MkdirsAtClosed(s, ks[1..]);
      if MkdirsAt(s, ks).0.Pass? {
        forall i | 0 < i < |ks| ensures IsDirKey(s.files, ks[i]) {
          assert ks[i] == ks[1..][i - 1];
        }
      }
    }
  }

  /**
   * mkdirs along the prefixes of `p` keeps the store's entries and only adds
   * directories on the way to `p`; on an open store it passes when no
   * proper prefix is a file, and `p` then exists.
   */
  lemma ChainFacts(s: HdState, p: seq<string>)
    requires HdValid(s) && AllValid(p)
    ensures var (o, t) := MkdirsAt(s, PrefixKeys(p, 0));
      HdValid(t) && t.state == s.state && t.cwd == s.cwd && t.stack == s.stack && Grows(s.files, t.files) &&
      (forall c :: c in t.files && c !in s.files ==> t.files[c] == Dir && 0 < |c| <= |p| && c == p[..|c|]) &&
      (o.Pass? ==> ExistsKey(t.files, p)) &&
      (s.state == Open && (forall j :: 0 < j < |p| ==> !IsFileKey(s.files, p[..j])) ==> o.Pass?)
  {
    if s.state == Open {
      ChainFactsOpen(s, p);
    } else {
      var ks := PrefixKeys(p, 0);
      MkdirsAtClosed(s, ks);
      if p != [] {
        PrefixKeysAt(p, 0);
        assert ks[|p| - 1] == p;
      }
    }
  }

  lemma ChainFactsOpen(s: HdState, p: seq<string>)
    requires HdValid(s) && AllValid(p) && s.state == Open
    ensures var (o, t) := MkdirsAt(s, PrefixKeys(p, 0));
      HdValid(t) && t.state == s.state && t.cwd == s.cwd && t.stack == s.stack && Grows(s.files, t.files) &&
      (forall c :: c in t.files && c !in s.files ==> t.files[c] == Dir && 0 < |c| <= |p| && c == p[..|c|]) &&
      (o.Pass? ==> ExistsKey(t.files, p)) &&
      ((forall j :: 0 < j < |p| ==> !IsFileKey(s.files, p[..j])) ==> o.Pass?)
  {
    PrefixKeysAt(p, 0);
    MkdirsKeeps(s, PrefixKeys(p, 0));
    assert p[..0] == [];
    MkdirsChain(s, p, 0);
  }

  /**
   * mkdirs of a staged directory's path keeps the store's entries and only
   * adds directories on the way to it; when it passes, the directory exists,
   * and on an open store it passes when no prefix on the way is a file.
   */
  lemma CommitDirFacts(s: HdState, k: seq<string>)
    requires HdValid(s) && AllValid(k) && k != []
    ensures var (o, t) := MkdirsSpec(s, MkdirsArgs(ToString(FilePath(k, true))));
      HdValid(t) && t.state == s.state && t.cwd == s.cwd && t.stack == s.stack && Grows(s.files, t.files) &&
      (forall c :: c in t.files && c !in s.files ==> t.files[c] == Dir && 0 < |c| <= |k| && c == k[..|c|]) &&
      (o.Pass? ==> ExistsKey(t.files, k)) &&
      (s.state == Open && (forall j :: 0 < j < |k| ==> !IsFileKey(s.files, k[..j])) ==> o.Pass?)
  {
    MkdirsArgsOfPath(k);
    MkdirsKeys(s, ChainFrom(k, 0));
    ChainKeys(s.cwd, k, 0);
    ChainFacts(s, k);
  }

  /**
   * mkdirs of a staged file's parent keeps the store's entries and only adds
   * directories on the way to the parent; on an open store it passes when
   * no prefix on the way is a file, and the parent then exists.
   */
  lemma CommitFileFacts(s: HdState, k: seq<string>)
    requires HdValid(s) && AllValid(k) && k != []
    ensures var (o, t) := MkdirsSpec(s, MkdirsArgs(Parent(ToString(FilePath(k, true)))));
      var init := k[..|k| - 1];
      HdValid(t) && t.state == s.state && t.cwd == s.cwd && t.stack == s.stack && Grows(s.files, t.files) &&
      (forall c :: c in t.files && c !in s.files ==> t.files[c] == Dir && 0 < |c| < |k| && c == k[..|c|]) &&
      (s.state == Open && (forall j :: 0 < j < |init| ==> !IsFileKey(s.files, init[..j])) ==>
         o.Pass? && ExistsKey(t.files, init))
  {
    var init := k[..|k| - 1];
    assert AllValid(init);
    ParentOfPath(k);
    MkdirsArgsOfPath(init);
    MkdirsKeys(s, ChainFrom(init, 0));
    ChainKeys(s.cwd, init, 0);
    ChainFacts(s, init);
    var t := MkdirsAt(s, PrefixKeys(init, 0)).1;
    forall c | c in t.files && c !in s.files ensures c == k[..|c|] {
      assert init[..|c|] == k[..|c|];
    }
  }

  /** writeTo on the canonical path of an entry: it opens exactly when the parent is a directory and the entry is not. */
  lemma WriteToEntry(s: HdState, k: seq<string>)
    requires AllValid(k) && k != []
    ensures var (r, t) := WriteToSpec(s, ToString(FilePath(k, true)));
      (r.Ok? <==> s.state == Open && IsDirKey(s.files, k[..|k| - 1]) && !IsDirKey(s.files, k)) &&
      (r.Ok? ==> r.value == k && t == s.(files := s.files[k := Data([])])) &&
      (r.Err? ==> t == s)
  {
    KeyOfPath(s, k);
  }

  /** Committing a staged directory, as a function of the store. */
  lemma CommitDirEntry(s: HdState, k: seq<string>, staged: Host)
    requires HdValid(s) && HostValid(staged) && k in staged && staged[k].Dir?
    ensures var (o, t) := MkdirsSpec(s, MkdirsArgs(ToString(FilePath(k, true))));
      HdValid(t) && t.state == s.state && t.cwd == s.cwd && t.stack == s.stack &&
      GrowsBut(s.files, t.files, k) && AddsOnlyStaged(s.files, t.files, staged) &&
      (o.Pass? ==> Landed(t.files, k, staged[k])) &&
      (s.state == Open && Compatible(s.files, staged) ==> o.Pass?)
  {
    EntryValid(staged, k);
    CommitDirFacts(s, k);
    var t := MkdirsSpec(s, MkdirsArgs(ToString(FilePath(k, true)))).1;
    PrefixesStaged(s.files, t.files, staged, k, |k|);
    if s.state == Open && Compatible(s.files, staged) {
      NoFileAbove(s.files, staged, k);
    }
  }

  /**
   * Creating the parents of a staged file, as a function of the store: only
   * staged directories are added, and on an open, compatible store it passes
   * and leaves the file's path ready to be written.
   */
  lemma CommitParents(s: HdState, k: seq<string>, staged: Host)
    requires HdValid(s) && HostValid(staged) && k in staged && staged[k].Data?
    ensures k != []
    ensures var (o, t) := MkdirsSpec(s, MkdirsArgs(Parent(ToString(FilePath(k, true)))));
      HdValid(t) && t.state == s.state && t.cwd == s.cwd && t.stack == s.stack &&
      GrowsBut(s.files, t.files, k) && (k in t.files ==> k in s.files && t.files[k] == s.files[k]) &&
      AddsOnlyStaged(s.files, t.files, staged) &&
      (s.state == Open && Compatible(s.files, staged) ==>
         o.Pass? && IsDirKey(t.files, k[..|k| - 1]) && !IsDirKey(t.files, k))
  {
    EntryValid(staged, k);
    CommitFileFacts(s, k);
    var t := MkdirsSpec(s, MkdirsArgs(Parent(ToString(FilePath(k, true))))).1;
    PrefixesStaged(s.files, t.files, staged, k, |k| - 1);
    if s.state == Open && Compatible(s.files, staged) {
      NoFileAbove(s.files, staged, k);
      var init := k[..|k| - 1];
      assert forall j :: 0 < j < |init| ==> init[..j] == k[..j];
      CommitFileReady(s, t, k, staged);
    }
  }

  /** Writing a staged file's bytes after its parents adds only staged entries, and keeps every other entry. */
  lemma CommitFileEnd(a: Host, b: Host, c: Host, k: seq<string>, staged: Host)
    requires k in staged && staged[k].Data?
    requires GrowsBut(a, b, k) && AddsOnlyStaged(a, b, staged)
    requires c == b || c == b[k := staged[k]]
    ensures GrowsBut(a, c, k) && AddsOnlyStaged(a, c, staged)
  {
    AddsTrans(a, b, c, staged);
  }

  /**
   * After the parent chain of a staged file is in place on a compatible
   * store, the parent is a directory and the file's own path is not.
   */
  lemma CommitFileReady(s: HdState, t: HdState, k: seq<string>, staged: Host)
    requires HostValid(staged) && k != [] && k in staged && staged[k].Data? && Compatible(s.files, staged)
    requires Grows(s.files, t.files) && ExistsKey(t.files, k[..|k| - 1])
    requires forall c :: c in t.files && c !in s.files ==> t.files[c] == Dir && 0 < |c| < |k|
    ensures IsDirKey(t.files, k[..|k| - 1]) && !IsDirKey(t.files, k)
  {
    StagedAncestors(staged, k);
    EntryValid(staged, k);
    var init := k[..|k| - 1];
    if init != [] && init in s.files {
      assert init in staged;
    }
  }

  // ---------------------------------------------------------------------
  // The reified file system

  class TmpReified {
    const backing: HardDisk
    const local: HardDisk
    const tmpRoot: string
    const token: nat
    var released: bool
    var committed: bool

    predicate Valid()
      reads this, backing, local
    {
      backing != local && backing.Valid() && local.Valid()
    }

    /** The staging store: a store rooted at the fresh, empty staging directory, opened. */
    constructor (backing: HardDisk, tmpRoot: string, token: nat)
      requires backing.Valid()
      ensures Valid() && fresh(local) && this.backing == backing && this.tmpRoot == tmpRoot && this.token == token
      ensures local.Model() == HdState(OpenState.Open, Parse(""), [], map[]) && local.root == Parse(tmpRoot)
      ensures !released && !committed
    {
      this.backing := backing;
      this.tmpRoot := tmpRoot;
      this.token := token;
      released := false;
      committed := false;
      var disk := new HardDisk(tmpRoot, map[]);
      var _ := disk.Open();
      local := disk;
    }

    /** materialize, with a bypass of the backing store's lease around every fetch. */
    method Materialize(path: string) returns (o: Outcome)
      requires Valid()
      modifies backing, local
      ensures Valid() && backing.Model() == old(backing.Model()) && backing.Lease() == old(backing.Lease())
      ensures local.Lease() == old(local.Lease())
      ensures (o, local.Model()) == MaterializeSpec(old(backing.Model()), old(local.Model()), path)
    {
      var isFile := local.IsFile(path);
      var isDir := local.IsDirectory(path);
      if isFile || isDir {
        return Pass;
      }
      backing.BeginBypass();
      var backingDir := backing.IsDirectory(path);
      if backingDir {
        o := Mkdirs(local, path);
        backing.EndBypass();
        return;
      }
      var backingFile := backing.IsFile(path);
      if backingFile {
        o := Mkdirs(local, Parent(path));
        if o.Fail? {
          backing.EndBypass();
          return;
        }
        o := Fetch(path);
        backing.EndBypass();
        return;
      }
      o := Mkdirs(local, Parent(path));
      backing.EndBypass();
    }

    /** The copy of a backing file into the staging store, through the chunked copy loop. */
    method Fetch(path: string) returns (o: Outcome)
      requires Valid()
      modifies local
      ensures Valid() && local.Lease() == old(local.Lease())
      ensures (o, local.Model()) == FetchSpec(backing.Model(), old(local.Model()), path)
    {
      ghost var bytes := ReadSpec(backing.Model(), path);
      var input := backing.ReadFrom(path);
      if input.Err? {
        return Fail(input.error);
      }
      ghost var (w, l2) := WriteToSpec(local.Model(), path);
      var output := local.WriteTo(path);
      if output.Err? {
        return Fail(output.error);
      }
      var stream := output.value;
      assert local.Model() == l2 && stream.key == w.value && stream.disk == local;
      StreamCopy.CopyChunks(input.value, stream.buffer, StagingChunk);
      assert stream.buffer.bytes == bytes.value;
      assert local.Model() == l2 && local.Valid();
      stream.Close();
      return Pass;
    }

    /** toLocalPath: the host path for a store path, resolved against the staging directory, once the path is materialized. */
    method ToLocalPath(path: string) returns (r: Result<string>)
      requires Valid()
      modifies backing, local
      ensures Valid() && backing.Model() == old(backing.Model()) && backing.Lease() == old(backing.Lease())
      ensures released ==> r == Err(ReifiedReleased) && local.Model() == old(local.Model())
      ensures !released ==>
        var (m, l1) := MaterializeSpec(old(backing.Model()), old(local.Model()), path);
        local.Model() == l1 && (m.Fail? ==> r == Err(m.error)) &&
        (m.Pass? ==> r == Ok(LocalPath(tmpRoot, StripLeadingSlash(path))))
    {
      if released {
        return Err(ReifiedReleased);
      }
      var m := Materialize(path);
      if m.Fail? {
        return Err(m.error);
      }
      r := Ok(LocalPath(tmpRoot, StripLeadingSlash(path)));
    }

    /**
     * Write one staged entry back: a directory chain, or a file's parents and
     * its bytes. The entries it adds or changes are staged ones, of their
     * kind; on an open store where no staged entry meets an entry of the
     * other kind, it passes.
     */
    method CommitEntry(k: seq<string>) returns (o: Outcome)
      requires Valid() && k in local.files
      modifies backing
      ensures Valid() && backing.Lease() == old(backing.Lease())
      ensures backing.state == old(backing.state) && backing.cwd == old(backing.cwd)
      ensures backing.dirStack == old(backing.dirStack)
      ensures GrowsBut(old(backing.files), backing.files, k)
      ensures AddsOnlyStaged(old(backing.files), backing.files, local.files)
      ensures o.Pass? ==> Landed(backing.files, k, local.files[k])
      ensures old(backing.state) == OpenState.Open && Compatible(old(backing.files), local.files) ==> o.Pass?
    {
      EntryValid(local.files, k);
      ghost var s0 := backing.Model();
      var abs := "/" + Join(k);
      assert abs == ToString(FilePath(k, true));
      if local.files[k].Dir? {
        CommitDirEntry(s0, k, local.files);
        o := Mkdirs(backing, abs);
      } else {
        CommitParents(s0, k, local.files);
        o := Mkdirs(backing, Parent(abs));
        ghost var s1 := backing.Model();
        if o.Pass? {
          o := CommitFile(k, abs);
          CommitFileEnd(s0.files, s1.files, backing.files, k, local.files);
        }
      }
    }

    /**
     * Write a staged file's bytes back at its path. It passes exactly when
     * the store is open, the parent is a directory and the path is not; the
     * file then holds the staged bytes, and nothing else changes.
     */
    method CommitFile(k: seq<string>, abs: string) returns (o: Outcome)
      requires Valid() && k != [] && k in local.files && local.files[k].Data? && abs == ToString(FilePath(k, true))
      modifies backing
      ensures Valid() && backing.Lease() == old(backing.Lease())
      ensures backing.state == old(backing.state) && backing.cwd == old(backing.cwd)
      ensures backing.dirStack == old(backing.dirStack)
      ensures o.Pass? <==>
        old(backing.state) == OpenState.Open && IsDirKey(old(backing.files), k[..|k| - 1]) && !IsDirKey(old(backing.files), k)
      ensures backing.files == if o.Pass? then old(backing.files)[k := local.files[k]] else old(backing.files)
    {
      EntryValid(local.files, k);
      ghost var s0 := backing.Model();
      WriteToEntry(s0, k);
      var output := backing.WriteTo(abs);
      if output.Err? {
        return Fail(output.error);
      }
      var stream := output.value;
      ghost var s2 := backing.Model();
      assert stream.key == k && s2.files == s0.files[k := Data([])];
      var input := new ByteInputStream(local.files[k].bytes);
      StreamCopy.CopyChunks(input, stream.buffer, StagingChunk);
      assert stream.buffer.bytes == local.files[k].bytes;
      assert backing.Model() == s2 && backing.Valid();
      stream.Close();
      assert s2.files[k := Data(local.files[k].bytes)] == s0.files[k := local.files[k]];
      o := Pass;
    }

    /**
     * commit: every staged entry, in the host's walk order, is written back
     * at "/" and its names; the first failure stops the walk; committed is
     * set only when the whole walk passes; the bypass opened for the walk is
     * closed on every exit. An entry of the backing store that is not staged
     * stays as it was, and every entry added or changed is a staged one, of
     * its kind. The walk passes on an open backing store where no staged
     * entry meets an entry of the other kind.
     */
    method Commit() returns (o: Outcome)
      requires Valid()
      modifies this, backing
      ensures Valid() && released == old(released) && backing.Lease() == old(backing.Lease())
      ensures backing.state == old(backing.state) && backing.cwd == old(backing.cwd)
      ensures backing.dirStack == old(backing.dirStack)
      ensures old(released) ==> o == Fail(ReifiedReleased) && backing.Model() == old(backing.Model())
      ensures committed == (old(committed) || o.Pass?)
      ensures o.Pass? ==> forall k :: k in local.files ==> Landed(backing.files, k, local.files[k])
      ensures KeptOutside(old(backing.files), backing.files, local.files.Keys)
      ensures AddsOnlyStaged(old(backing.files), backing.files, local.files)
      ensures !old(released) && backing.state == OpenState.Open && Compatible(old(backing.files), local.files) ==> o.Pass?
    {
      if released {
        return Fail(ReifiedReleased);
      }
      backing.BeginBypass();
      o := CommitAll();
      if o.Pass? {
        committed := true;
      }
      backing.EndBypass();
    }

    /**
     * The walk of commit: every staged entry written back, the first failure
     * ending it; unstaged entries are kept, only staged ones are added or
     * changed, and on an open, compatible backing store the walk passes.
     */
    method CommitAll() returns (o: Outcome)
      requires Valid()
      modifies backing
      ensures Valid() && backing.Lease() == old(backing.Lease())
      ensures backing.state == old(backing.state) && backing.cwd == old(backing.cwd)
      ensures backing.dirStack == old(backing.dirStack)
      ensures o.Pass? ==> AllLanded(backing.files, local.files, local.files.Keys)
      ensures KeptOutside(old(backing.files), backing.files, local.files.Keys)
      ensures AddsOnlyStaged(old(backing.files), backing.files, local.files)
      ensures backing.state == OpenState.Open && Compatible(old(backing.files), local.files) ==> o.Pass?
    {
      ghost var staged := local.files;
      ghost var start := backing.files;
      var left := local.files.Keys;
      ghost var done: set<seq<string>> := {};
      o := Pass;
      while left != {}
        invariant Valid() && local.files == staged
        invariant left <= staged.Keys && done == staged.Keys - left
        invariant o == Pass && AllLanded(backing.files, staged, done)
        invariant KeptOutside(start, backing.files, done)
        invariant AddsOnlyStaged(start, backing.files, staged)
        invariant Compatible(start, staged) ==> Compatible(backing.files, staged)
        invariant backing.Lease() == old(backing.Lease())
        invariant backing.state == old(backing.state) && backing.cwd == old(backing.cwd)
        invariant backing.dirStack == old(backing.dirStack)
        decreases |left|
      {
        var k :| k in left;
        ghost var before := backing.files;
        ghost var ready := backing.state == OpenState.Open && Compatible(before, staged);
        o := CommitEntry(k);
        assert ready ==> o.Pass?;
        KeptStep(start, before, backing.files, done, k);
        AddsTrans(start, before, backing.files, staged);
        if Compatible(start, staged) {
          CompatibleKept(before, backing.files, staged);
        }
        if o.Fail? {
          assert !ready;
          KeptOutsideWiden(start, backing.files, done + {k}, staged.Keys);
          return;
        }
        LandedKept(before, backing.files, k, done, staged);
        done := done + {k};
        left := left - {k};
      }
      assert done == staged.Keys;
    }

    /**
     * release: nothing on a second call. The first marks the reification
     * released, deletes the staging tree (`deleted` is whether the host
     * managed to) and releases the lease in any case; a failure of the
     * latter is the one reported.
     */
    method Release(deleted: bool) returns (o: Outcome)
      requires Valid()
      modifies this, backing, local
      ensures Valid() && released && committed == old(committed) && backing.Model() == old(backing.Model())
      ensures local.state == old(local.state) && local.cwd == old(local.cwd) && local.dirStack == old(local.dirStack)
      ensures local.Lease() == old(local.Lease())
      ensures old(released) ==> o == Pass && local.files == old(local.files) && backing.Lease() == old(backing.Lease())
      ensures !old(released) ==>
        var (lo, lease) := ReleaseSpec(old(backing.Lease()), token);
        backing.Lease() == lease && local.files == (if deleted then map[] else old(local.files)) &&
        o == (if lo.Fail? then lo else if deleted then Pass else Fail(HostFailure))
    {
      if released {
        return Pass;
      }
      released := true;
      if deleted {
        local.files := map[];
      }
      var lo := backing.ReleaseLease(token);
      o := if lo.Fail? then lo else if deleted then Pass else Fail(HostFailure);
    }

    method Open() returns (o: Outcome)
      requires Valid()
      modifies local
      ensures Valid() && local.Lease() == old(local.Lease())
      ensures released ==> o == Fail(ReifiedReleased) && local.Model() == old(local.Model())
      ensures !released ==> (o, local.Model()) == OpenSpec(old(local.Model()))
    {
      if released {
        return Fail(ReifiedReleased);
      }
      o := local.Open();
    }

    method Ls() returns (r: Result<seq<string>>)
      requires Valid()
      ensures released ==> r == Err(ReifiedReleased)
      ensures !released && LsSpec(local.Model()).Err? ==> r == Err(LsSpec(local.Model()).error)
      ensures !released && LsSpec(local.Model()).Ok? ==> r.Ok? && Lists(r.value, LsSpec(local.Model()).value)
    {
      if released {
        return Err(ReifiedReleased);
      }
      r := local.Ls();
    }

    method LsPath(path: string) returns (r: Result<seq<string>>)
      requires Valid()
      modifies backing, local
      ensures Valid() && backing.Model() == old(backing.Model()) && backing.Lease() == old(backing.Lease())
      ensures released ==> r == Err(ReifiedReleased) && local.Model() == old(local.Model())
      ensures !released ==>
        var (m, l1) := MaterializeSpec(old(backing.Model()), old(local.Model()), path);
        local.Model() == l1 && (m.Fail? ==> r == Err(m.error)) &&
        (m.Pass? && ListSpec(l1, path).Err? ==> r == Err(HostFailure)) &&
        (m.Pass? && ListSpec(l1, path).Ok? ==> r.Ok? && Lists(r.value, ListSpec(l1, path).value))
    {
      if released {
        return Err(ReifiedReleased);
      }
      var m := Materialize(path);
      if m.Fail? {
        return Err(m.error);
      }
      r := local.LsPath(path);
    }

    method IsDirectory(path: string) returns (r: Result<bool>)
      requires Valid()
      modifies backing, local
      ensures Valid() && backing.Model() == old(backing.Model()) && backing.Lease() == old(backing.Lease())
      ensures released ==> r == Err(ReifiedReleased) && local.Model() == old(local.Model())
      ensures !released ==>
        var (m, l1) := MaterializeSpec(old(backing.Model()), old(local.Model()), path);
        local.Model() == l1 && r == (if m.Fail? then Err(m.error) else Ok(IsDirSpec(l1, path)))
    {
      if released {
        return Err(ReifiedReleased);
      }
      var m := Materialize(path);
      if m.Fail? {
        return Err(m.error);
      }
      var b := local.IsDirectory(path);
      r := Ok(b);
    }

    method IsFile(path: string) returns (r: Result<bool>)
      requires Valid()
      modifies backing, local
      ensures Valid() && backing.Model() == old(backing.Model()) && backing.Lease() == old(backing.Lease())
      ensures released ==> r == Err(ReifiedReleased) && local.Model() == old(local.Model())
      ensures !released ==>
        var (m, l1) := MaterializeSpec(old(backing.Model()), old(local.Model()), path);
        local.Model() == l1 && r == (if m.Fail? then Err(m.error) else Ok(IsFileSpec(l1, path)))
    {
      if released {
        return Err(ReifiedReleased);
      }
      var m := Materialize(path);
      if m.Fail? {
        return Err(m.error);
      }
      var b := local.IsFile(path);
      r := Ok(b);
    }

    /** getSize; `dirSize` is what the host reports for a directory. */
    method GetSize(path: string, dirSize: nat) returns (r: Result<nat>)
      requires Valid()
      modifies backing, local
      ensures Valid() && backing.Model() == old(backing.Model()) && backing.Lease() == old(backing.Lease())
      ensures released ==> r == Err(ReifiedReleased) && local.Model() == old(local.Model())
      ensures !released ==>
        var (m, l1) := MaterializeSpec(old(backing.Model()), old(local.Model()), path);
        local.Model() == l1 && r == (if m.Fail? then Err(m.error) else SizeSpec(l1, path, dirSize))
    {
      if released {
        return Err(ReifiedReleased);
      }
      var m := Materialize(path);
      if m.Fail? {
        return Err(m.error);
      }
      r := local.GetSize(path, dirSize);
    }

    /** writeTo: the parent chain is staged first, then the staging store's stream. */
    method WriteTo(path: string) returns (r: Result<HostOutputStream>)
      requires Valid()
      modifies local
      ensures Valid() && local.Lease() == old(local.Lease())
      ensures released ==> r == Err(ReifiedReleased) && local.Model() == old(local.Model())
      ensures !released ==>
        var (m, l1) := MkdirsSpec(old(local.Model()), MkdirsArgs(Parent(path)));
        (m.Fail? ==> r == Err(m.error) && local.Model() == l1) &&
        (m.Pass? ==>
          var (res, l2) := WriteToSpec(l1, path);
          local.Model() == l2 && r.Ok? == res.Ok? && (r.Err? ==> r.error == res.error) &&
          (r.Ok? ==> fresh(r.value) && r.value.disk == local && r.value.key == res.value && r.value.buffer.bytes == []))
    {
      if released {
        return Err(ReifiedReleased);
      }
      var m := Mkdirs(local, Parent(path));
      if m.Fail? {
        return Err(m.error);
      }
      r := local.WriteTo(path);
    }

    method ReadFrom(path: string) returns (r: Result<ByteInputStream>)
      requires Valid()
      modifies backing, local
      ensures Valid() && backing.Model() == old(backing.Model()) && backing.Lease() == old(backing.Lease())
      ensures released ==> r == Err(ReifiedReleased) && local.Model() == old(local.Model())
      ensures !released ==>
        var (m, l1) := MaterializeSpec(old(backing.Model()), old(local.Model()), path);
        local.Model() == l1 && (m.Fail? ==> r == Err(m.error)) &&
        (m.Pass? && ReadSpec(l1, path).Err? ==> r == Err(ReadSpec(l1, path).error)) &&
        (m.Pass? && ReadSpec(l1, path).Ok? ==>
          r.Ok? && fresh(r.value) && r.value.Valid() && r.value.Remaining() == ReadSpec(l1, path).value)
    {
      if released {
        return Err(ReifiedReleased);
      }
      var m := Materialize(path);
      if m.Fail? {
        return Err(m.error);
      }
      r := local.ReadFrom(path);
    }

    method Chdir(path: string) returns (o: Outcome)
      requires Valid()
      modifies local
      ensures Valid() && local.Lease() == old(local.Lease())
      ensures released ==> o == Fail(ReifiedReleased) && local.Model() == old(local.Model())
      ensures !released ==> (o, local.Model()) == ChdirSpec(old(local.Model()), path)
    {
      if released {
        return Fail(ReifiedReleased);
      }
      o := local.Chdir(path);
    }

    method Pushd(path: string) returns (o: Outcome)
      requires Valid()
      modifies local
      ensures Valid() && local.Lease() == old(local.Lease())
      ensures released ==> o == Fail(ReifiedReleased) && local.Model() == old(local.Model())
      ensures !released ==> (o, local.Model()) == ChdirSpec(old(local.Model()), path)
    {
      if released {
        return Fail(ReifiedReleased);
      }
      o := local.Pushd(path);
    }

    method Popd() returns (o: Outcome)
      requires Valid()
      modifies local
      ensures Valid() && local.Lease() == old(local.Lease())
      ensures released ==> o == Fail(ReifiedReleased) && local.Model() == old(local.Model())
      ensures !released ==> (o, local.Model()) == PopdSpec(old(local.Model()))
    {
      if released {
        return Fail(ReifiedReleased);
      }
      o := local.Popd();
    }

    method Mkdir(path: string) returns (o: Outcome)
      requires Valid()
      modifies local
      ensures Valid() && local.Lease() == old(local.Lease())
      ensures released ==> o == Fail(ReifiedReleased) && local.Model() == old(local.Model())
      ensures !released ==> (o, local.Model()) == MkdirSpec(old(local.Model()), path)
    {
      if released {
        return Fail(ReifiedReleased);
      }
      o := local.Mkdir(path);
    }

    method Rmdir(path: string) returns (o: Outcome)
      requires Valid()
      modifies local
      ensures Valid() && local.Lease() == old(local.Lease())
      ensures released ==> o == Fail(ReifiedReleased) && local.Model() == old(local.Model())
      ensures !released ==> (o, local.Model()) == RmdirSpec(old(local.Model()), path)
    {
      if released {
        return Fail(ReifiedReleased);
      }
      o := local.Rmdir(path);
    }

    method Delete(path: string) returns (o: Outcome)
      requires Valid()
      modifies local
      ensures Valid() && local.Lease() == old(local.Lease())
      ensures released ==> o == Fail(ReifiedReleased) && local.Model() == old(local.Model())
      ensures !released ==> (o, local.Model()) == DeleteSpec(old(local.Model()), path)
    {
      if released {
        return Fail(ReifiedReleased);
      }
      o := local.Delete(path);
    }

    method Pwd() returns (r: Result<string>)
      requires Valid()
      ensures r == if released then Err(ReifiedReleased) else PwdSpec(local.Model())
    {
      if released {
        return Err(ReifiedReleased);
      }
      r := local.Pwd();
    }

    /** close: closes the staging store only. */
    method Close() returns (o: Outcome)
      requires Valid()
      modifies local
      ensures Valid() && local.Lease() == old(local.Lease())
      ensures released ==> o == Fail(ReifiedReleased) && local.Model() == old(local.Model())
      ensures !released ==> (o, local.Model()) == CloseSpec(old(local.Model()))
    {
      if released {
        return Fail(ReifiedReleased);
      }
      o := local.Close();
    }
  }

  /**
   * reify: the lease first; when the host fails to create the staging
   * directory (`created` is whether it managed to) the lease is released
   * again; otherwise a reification over the new staging directory that
   * holds the token just acquired.
   */
  method Reify(fs: HardDisk, tmpRoot: string, created: bool) returns (r: Result<TmpReified>)
    requires fs.Valid()
    modifies fs
    ensures fs.Valid() && fs.Model() == old(fs.Model())
    ensures var (a, l1) := AcquireSpec(old(fs.Lease()));
      (a.Err? ==> r == Err(a.error) && fs.Lease() == old(fs.Lease())) &&
      (a.Ok? && !created ==> r == Err(HostFailure) && fs.Lease() == old(fs.Lease()).(next := l1.next)) &&
      (a.Ok? && created ==>
        r.Ok? && fresh(r.value) && fresh(r.value.local) && r.value.Valid() && r.value.backing == fs &&
        r.value.token == a.value && !r.value.released && !r.value.committed && fs.Lease() == l1)
  {
    var token := fs.AcquireLease();
    if token.Err? {
      return Err(token.error);
    }
    if !created {
      var _ := fs.ReleaseLease(token.value);
      return Err(HostFailure);
    }
    var t := new TmpReified(fs, tmpRoot, token.value);
    r := Ok(t);
  }
}
