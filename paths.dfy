/**
 * Paths of the file-system abstraction: a sequence of segment names plus a
 * flag saying whether the path is absolute. Parsing splits on "/", trims
 * every piece, drops empty and "." pieces, and then cancels ".." against
 * the nearest preceding surviving segment.
 */
module FilePaths {

  /** The immutable path value: its segments and its absolute flag. */
  datatype FilePath = FilePath(parts: seq<string>, absolute: bool)

  /** Characters removed by trimming: every code point up to the space. */
  predicate IsBlank(c: char) { c <= ' ' }

  function TrimStart(s: string): string
  {
    if s != [] && IsBlank(s[0]) then TrimStart(s[1..]) else s
  }

  function TrimEnd(s: string): string
  {
    if s != [] && IsBlank(s[|s| - 1]) then TrimEnd(s[..|s| - 1]) else s
  }

  /** Removal of leading and trailing blanks, as string trimming does. */
  function Trim(s: string): string
  {
    TrimEnd(TrimStart(s))
  }

  lemma {:induction false} TrimStartFacts(s: string)
    ensures var t := TrimStart(s); (t == [] || !IsBlank(t[0])) && forall c :: c in t ==> c in s
  {
    if s != [] && IsBlank(s[0]) {
      TrimStartFacts(s[1..]);
      assert forall c :: c in s[1..] ==> c in s;
    }
  }

  lemma {:induction false} TrimEndFacts(s: string)
    ensures var t := TrimEnd(s); (t == [] || !IsBlank(t[|t| - 1])) && forall c :: c in t ==> c in s
    ensures s != [] && !IsBlank(s[0]) ==> TrimEnd(s) != [] && TrimEnd(s)[0] == s[0]
  {
    if s != [] && IsBlank(s[|s| - 1]) {
      TrimEndFacts(s[..|s| - 1]);
      assert forall c :: c in s[..|s| - 1] ==> c in s;
    }
  }

  /** A trimmed string has non-blank ends and only characters of the original. */
  lemma TrimFacts(s: string)
    ensures var t := Trim(s); (t == [] || (!IsBlank(t[0]) && !IsBlank(t[|t| - 1])))
    ensures forall c :: c in Trim(s) ==> c in s
  {
    TrimStartFacts(s);
    TrimEndFacts(TrimStart(s));
  }

  /** Trimming leaves a string that starts and ends with a non-blank unchanged. */
  lemma TrimNonBlankEnds(s: string)
    requires s != [] && !IsBlank(s[0]) && !IsBlank(s[|s| - 1])
    ensures Trim(s) == s
  {
  }

  /** The pieces of a string between "/" separators, empty pieces included. */
  function Split(s: string): (pieces: seq<string>)
    ensures |pieces| >= 1
  {
    if s == [] then [""]
    else
      var rest := Split(s[1..]);
      if s[0] == '/' then [""] + rest
      else [[s[0]] + rest[0]] + rest[1..]
  }

  lemma {:induction false} SplitFacts(s: string)
    ensures forall i :: 0 <= i < |Split(s)| ==> '/' !in Split(s)[i]
  {
    if s != [] {
      SplitFacts(s[1..]);
    }
  }

  /** The pieces joined back with "/" between neighbours. */
  function Join(pieces: seq<string>): string
  {
    if pieces == [] then ""
    else if |pieces| == 1 then pieces[0]
    else pieces[0] + "/" + Join(pieces[1..])
  }

  lemma {:induction false} SplitSlash(s: string)
    ensures Split("/" + s) == [""] + Split(s)
  {
    var t := "/" + s;
    assert t[0] == '/' && t[1..] == s;
    assert Split(t) == [""] + Split(t[1..]);
  }

  /** A prefix free of "/" is glued onto the first piece of what follows. */
  lemma {:induction false} SplitPrefix(x: string, s: string)
    requires '/' !in x
    ensures Split(x + s) == [x + Split(s)[0]] + Split(s)[1..]
  {
    if x == [] {
      assert x + s == s;
      assert x + Split(s)[0] == Split(s)[0];
      assert Split(s) == [Split(s)[0]] + Split(s)[1..];
    } else {
      assert (x + s)[0] == x[0];
      assert (x + s)[1..] == x[1..] + s;
      SplitPrefix(x[1..], s);
      assert [x[0]] + (x[1..] + Split(s)[0]) == x + Split(s)[0];
    }
  }

  /** Splitting is the inverse of joining for non-empty lists of "/"-free pieces. */
  lemma {:induction false} SplitJoin(pieces: seq<string>)
    requires pieces != []
    requires forall i :: 0 <= i < |pieces| ==> '/' !in pieces[i]
    ensures Split(Join(pieces)) == pieces
  {
    if |pieces| == 1 {
      assert Join(pieces) == pieces[0] + "";
      SplitPrefix(pieces[0], "");
      assert Split("") == [""];
      assert pieces[0] + "" == pieces[0];
      assert pieces == [pieces[0]];
    } else {
      SplitJoin(pieces[1..]);
      assert pieces[0] + "/" + Join(pieces[1..]) == pieces[0] + ("/" + Join(pieces[1..]));
      SplitPrefix(pieces[0], "/" + Join(pieces[1..]));
      SplitSlash(Join(pieces[1..]));
      assert pieces[0] + "" == pieces[0];
      assert pieces == [pieces[0]] + pieces[1..];
    }
  }

  /** A segment that parsing can produce and that is not "..". */
  predicate ValidName(n: string)
  {
    n != "" && n != "." && n != ".." && '/' !in n && !IsBlank(n[0]) && !IsBlank(n[|n| - 1])
  }

  /** What one valid name contributes to the fragment list: itself. */
  lemma KeepValid(n: string)
    requires ValidName(n)
    ensures Keep(n) == [n]
  {
    TrimNonBlankEnds(n);
  }

  /** What one split piece contributes to the fragment list. */
  function Keep(piece: string): seq<string>
  {
    var t := Trim(piece);
    if t == "" || t == "." then [] else [t]
  }

  /** The fragments kept from a list of split pieces, in order. */
  function KeepAll(pieces: seq<string>): seq<string>
  {
    if pieces == [] then []
    else KeepAll(pieces[..|pieces| - 1]) + Keep(pieces[|pieces| - 1])
  }

  /** A segment that is valid or "..". */
  predicate NameOrUp(n: string) { n == ".." || ValidName(n) }

  /** Kept fragments from "/"-free pieces are valid names or "..". */
  lemma {:induction false} KeepAllShape(pieces: seq<string>)
    requires forall i :: 0 <= i < |pieces| ==> '/' !in pieces[i]
    ensures forall i :: 0 <= i < |KeepAll(pieces)| ==> NameOrUp(KeepAll(pieces)[i])
  {
    if pieces != [] {
      var last := pieces[|pieces| - 1];
      KeepAllShape(pieces[..|pieces| - 1]);
      TrimFacts(last);
    }
  }

  lemma {:induction false} KeepAllAppend(a: seq<string>, b: seq<string>)
    ensures KeepAll(a + b) == KeepAll(a) + KeepAll(b)
  {
    if b != [] {
      assert (a + b)[..|a + b| - 1] == a + b[..|b| - 1];
      KeepAllAppend(a, b[..|b| - 1]);
    } else {
      assert a + b == a;
    }
  }

  /** A non-empty sequence is its front followed by its last element. */
  lemma LastSplit<T>(s: seq<T>)
    requires s != []
    ensures s[..|s| - 1] + [s[|s| - 1]] == s
  {
  }

  /** The piece is its own single fragment. */
  predicate Kept(n: string) { Keep(n) == [n] }

  /** Pieces that are their own fragments survive the filter unchanged. */
  lemma {:induction false} KeepAllFixed(names: seq<string>)
    requires forall i :: 0 <= i < |names| ==> Kept(names[i])
    ensures KeepAll(names) == names
  {
    if names != [] {
      var init := names[..|names| - 1];
      assert Kept(names[|names| - 1]);
      KeepAllFixed(init);
      LastSplit(names);
    }
  }

  lemma KeepAllValid(names: seq<string>)
    requires forall i :: 0 <= i < |names| ==> ValidName(names[i])
    ensures KeepAll(names) == names
  {
    forall i | 0 <= i < |names| ensures Kept(names[i]) { KeepValid(names[i]); }
    KeepAllFixed(names);
  }


  /**
   * The fragments of a path string: its "/"-separated pieces, trimmed, with
   * the empty and "." pieces dropped (a trailing run of empty pieces, which
   * string splitting discards, is dropped here by the same filter).
   */
  function Pieces(path: string): (r: seq<string>)
    ensures forall i :: 0 <= i < |r| ==> NameOrUp(r[i])
  {
    SplitFacts(path);
    KeepAllShape(Split(path));
    KeepAll(Split(path))
  }

  /** fragment: the loop over the split pieces. */
  method Fragment(path: string) returns (parts: seq<string>)
    ensures parts == Pieces(path)
  {
    var fragments := Split(path);
    parts := [];
    var i := 0;
    while i < |fragments|
      invariant 0 <= i <= |fragments|
      invariant parts == KeepAll(fragments[..i])
    {
      var fragment := Trim(fragments[i]);
      if fragment != "" && fragment != "." {
        parts := parts + [fragment];
      }
      assert fragments[..i + 1][..i] == fragments[..i];
      i := i + 1;
    }
    assert fragments[..i] == fragments;
  }

  /**
   * The reference normaliser: a left-to-right stack where ".." pops the
   * last surviving segment (or does nothing on an empty stack) and every
   * other segment is pushed.
   */
  function Normalized(parts: seq<string>): seq<string>
  {
    if parts == [] then []
    else
      var s := Normalized(parts[..|parts| - 1]);
      if parts[|parts| - 1] == ".." then
        (if s == [] then [] else s[..|s| - 1])
      else s + [parts[|parts| - 1]]
  }

  /** The right-to-left reading of the same parts with `eat` pending "..". */
  function Eaten(parts: seq<string>, eat: nat): seq<string>
  {
    if parts == [] then []
    else
      var p, init := parts[|parts| - 1], parts[..|parts| - 1];
      if p == ".." then Eaten(init, eat + 1)
      else if eat == 0 then Eaten(init, 0) + [p]
      else Eaten(init, eat - 1)
  }

  function DropLast(s: seq<string>, k: nat): seq<string>
  {
    if k <= |s| then s[..|s| - k] else []
  }

  /** Reading from the right with k pending ".." drops the last k survivors. */
  lemma {:induction false} EatenIsDropLast(parts: seq<string>, eat: nat)
    ensures Eaten(parts, eat) == DropLast(Normalized(parts), eat)
  {
    if parts != [] {
      var p, init := parts[|parts| - 1], parts[..|parts| - 1];
      var s := Normalized(init);
      if p == ".." {
        EatenIsDropLast(init, eat + 1);
      } else if eat == 0 {
        EatenIsDropLast(init, 0);
      } else {
        EatenIsDropLast(init, eat - 1);
        assert DropLast(s + [p], eat) == DropLast(s, eat - 1) by {
          if eat <= |s| + 1 {
            assert (s + [p])[..|s| + 1 - eat] == s[..|s| + 1 - eat];
          }
        }
      }
    }
  }

  /**
   * simplify: the source's loop from the last part to the first, counting
   * pending ".." in `eat` and inserting survivors at the front. It computes
   * the stack normaliser.
   */
  method Simplify(parts: seq<string>) returns (newParts: seq<string>)
    ensures newParts == Normalized(parts)
  {
    newParts := [];
    var eat: nat := 0;
    var i := |parts|;
    assert parts[..i] == parts;
    while i > 0
      invariant 0 <= i <= |parts|
      invariant Eaten(parts[..i], eat) + newParts == Eaten(parts, 0)
    {
      i := i - 1;
      var p := parts[i];
      assert parts[..i + 1][..i] == parts[..i];
      if p == ".." {
        eat := eat + 1;
      } else {
        if eat == 0 {
          newParts := [p] + newParts;
        }
        eat := if eat == 0 then 0 else eat - 1;
      }
    }
    assert parts[..|parts|] == parts;
    EatenIsDropLast(parts, 0);
  }

  /** Every surviving segment is one of the input parts, and ".." never survives. */
  lemma {:induction false} NormalizedElements(parts: seq<string>)
    ensures ".." !in Normalized(parts)
    ensures forall x :: x in Normalized(parts) ==> x in parts
  {
    if parts != [] {
      var init := parts[..|parts| - 1];
      NormalizedElements(init);
      var s := Normalized(init);
      forall x | x in init ensures x in parts {
        var i :| 0 <= i < |init| && init[i] == x;
        assert parts[i] == x;
      }
      if parts[|parts| - 1] == ".." && s != [] {
        forall x | x in s[..|s| - 1] ensures x in s {
          var i :| 0 <= i < |s| - 1 && s[..|s| - 1][i] == x;
          assert s[i] == x;
        }
      }
    }
  }

  /** Normalising parts that are valid names or ".." leaves only valid names. */
  lemma NormalizedValid(parts: seq<string>)
    requires forall i :: 0 <= i < |parts| ==> NameOrUp(parts[i])
    ensures AllValid(Normalized(parts))
  {
    NormalizedElements(parts);
    var r := Normalized(parts);
    forall i | 0 <= i < |r| ensures ValidName(r[i]) {
      assert r[i] in r;
      var j :| 0 <= j < |parts| && parts[j] == r[i];
    }
  }

  /** Parts followed by ".."-free parts normalise to the normalised prefix followed by them. */
  lemma {:induction false} NormalizedAppend(a: seq<string>, b: seq<string>)
    requires ".." !in b
    ensures Normalized(a + b) == Normalized(a) + b
  {
    if b == [] {
      assert a + b == a;
    } else {
      assert (a + b)[..|a + b| - 1] == a + b[..|b| - 1];
      NormalizedAppend(a, b[..|b| - 1]);
      assert b == b[..|b| - 1] + [b[|b| - 1]];
    }
  }

  /** Normalisation is the identity on parts without "..", hence idempotent. */
  lemma NormalizedIdentity(parts: seq<string>)
    requires ".." !in parts
    ensures Normalized(parts) == parts
  {
    NormalizedAppend([], parts);
    assert [] + parts == parts;
  }

  lemma NormalizedIdempotent(parts: seq<string>)
    ensures Normalized(Normalized(parts)) == Normalized(parts)
  {
    NormalizedElements(parts);
    NormalizedIdentity(Normalized(parts));
  }

  /** ".." cancels the nearest surviving segment; an unmatched ".." is dropped. */
  lemma NormalizedExamples()
    ensures Normalized(["foo", "bar", ".."]) == ["foo"]
    ensures Normalized(["foo", "..", "baz"]) == ["baz"]
    ensures Normalized(["foo", "..", ".."]) == []
    ensures Normalized(["..", "foo", "bar"]) == ["foo", "bar"]
  {
    assert ["foo", "bar", ".."][..2] == ["foo", "bar"];
    assert ["foo", "bar"][..1] == ["foo"];
    assert ["foo", "..", "baz"][..2] == ["foo", ".."];
    assert ["foo", ".."][..1] == ["foo"];
    assert ["foo", "..", ".."][..2] == ["foo", ".."];
    assert ["..", "foo", "bar"][..2] == ["..", "foo"];
    assert ["..", "foo"][..1] == [".."];
    assert [".."][..0] == [];
  }

  /** The list constructor: the parts are simplified, the flag kept. */
  function Make(parts: seq<string>, absolute: bool): (p: FilePath)
    ensures ".." !in p.parts && p.absolute == absolute
  {
    NormalizedElements(parts);
    FilePath(Normalized(parts), absolute)
  }

  predicate StartsWithSlash(s: string) { |s| > 0 && s[0] == '/' }

  /**
   * The string constructor: "." alone is kept as the single part "."; any
   * other string is fragmented and simplified. The path is absolute when the
   * string is empty or starts with "/".
   */
  function Parse(path: string): (p: FilePath)
    ensures p.absolute <==> (path == "" || StartsWithSlash(path))
    ensures path != "." ==> AllValid(p.parts)
    ensures path == "." ==> p.parts == ["."]
  {
    if path == "." then FilePath(["."], false)
    else
      NormalizedValid(Pieces(path));
      FilePath(Normalized(Pieces(path)), path == "" || StartsWithSlash(path))
  }

  /** chdir with a path argument: an absolute argument replaces the receiver. */
  function Chdir(base: FilePath, path: FilePath): (r: FilePath)
    ensures path.absolute ==> r == path
    ensures !path.absolute ==> r.absolute == base.absolute && ".." !in r.parts
  {
    if path.absolute then path else Make(base.parts + path.parts, base.absolute)
  }

  /**
   * chdir with a string argument: the argument is trimmed; if it then starts
   * with "/" it is parsed on its own, otherwise its fragments are appended to
   * the receiver's parts and the whole is simplified.
   */
  function ChdirStr(base: FilePath, path: string): (r: FilePath)
  {
    var t := Trim(path);
    if StartsWithSlash(t) then Parse(t) else Make(base.parts + Pieces(t), base.absolute)
  }

  /** toString: a leading "/" when absolute, then the parts joined with "/". */
  function ToString(p: FilePath): string
  {
    (if p.absolute then "/" else "") + Join(p.parts)
  }

  predicate AllValid(parts: seq<string>)
  {
    forall i :: 0 <= i < |parts| ==> ValidName(parts[i])
  }

  /** A path as the stores keep it: absolute, with only valid segments. */
  predicate Normal(p: FilePath)
  {
    p.absolute && AllValid(p.parts)
  }

  lemma {:induction false} JoinShape(parts: seq<string>)
    requires AllValid(parts) && parts != []
    ensures Join(parts) != [] && !IsBlank(Join(parts)[0]) && Join(parts)[0] != '/'
    ensures !IsBlank(Join(parts)[|Join(parts)| - 1]) && Join(parts)[|Join(parts)| - 1] != '/'
  {
    assert ValidName(parts[0]);
    assert parts[0][0] in parts[0];
    if |parts| > 1 {
      JoinShape(parts[1..]);
      var j := Join(parts[1..]);
      assert Join(parts) == parts[0] + "/" + j;
      assert Join(parts)[0] == parts[0][0];
      assert Join(parts)[|Join(parts)| - 1] == j[|j| - 1];
    } else {
      var n := parts[0];
      assert n[|n| - 1] in n;
    }
  }

  /**
   * toString: a leading "/" exactly when absolute, never a trailing "/"
   * unless the path is the empty absolute path, which prints "/".
   */
  lemma ToStringShape(p: FilePath)
    requires AllValid(p.parts)
    ensures StartsWithSlash(ToString(p)) <==> p.absolute
    ensures p.absolute && p.parts == [] ==> ToString(p) == "/"
    ensures p.parts != [] ==> ToString(p)[|ToString(p)| - 1] != '/'
  {
    if p.parts != [] {
      JoinShape(p.parts);
    }
  }

  /**
   * Parsing the printed form of a path whose segments are valid gives the
   * path back, except for the empty relative path, which prints as the
   * empty string and parses as the absolute root.
   */
  lemma PiecesToString(p: FilePath)
    requires AllValid(p.parts)
    ensures Pieces(ToString(p)) == p.parts
  {
    assert KeepAll([""]) == [] by { assert [""][..0] == []; }
    assert Split("") == [""];
    if p.parts == [] {
      if p.absolute {
        assert ToString(p) == "/" + "";
        SplitSlash("");
        assert Split(ToString(p)) == [""] + [""];
        KeepAllAppend([""], [""]);
      } else {
        assert ToString(p) == "";
      }
    } else {
      SplitJoin(p.parts);
      KeepAllValid(p.parts);
      if !p.absolute {
        assert ToString(p) == Join(p.parts);
      } else {
        assert ToString(p) == "/" + Join(p.parts);
        SplitSlash(Join(p.parts));
        KeepAllAppend([""], p.parts);
      }
    }
  }

  lemma ParseToString(p: FilePath)
    requires AllValid(p.parts) && (p.absolute || p.parts != [])
    ensures Parse(ToString(p)) == p
  {
    var s := ToString(p);
    ToStringShape(p);
    if !p.absolute {
      assert ValidName(p.parts[0]);
      assert s != "." by {
        if |p.parts| == 1 { assert s == p.parts[0]; }
        else { assert s == p.parts[0] + "/" + Join(p.parts[1..]); assert s[|p.parts[0]|] == '/'; }
      }
      assert s != "";
    }
    PiecesToString(p);
    NormalizedIdentity(p.parts);
  }

  /** The printed form of an absolute path is already trimmed. */
  lemma TrimToString(p: FilePath)
    requires Normal(p)
    ensures Trim(ToString(p)) == ToString(p)
  {
    ToStringShape(p);
    if p.parts != [] {
      JoinShape(p.parts);
    }
    TrimNonBlankEnds(ToString(p));
  }

  /** chdir to the printed form of a normal path lands exactly on that path. */
  lemma ChdirToString(base: FilePath, p: FilePath)
    requires Normal(p)
    ensures ChdirStr(base, ToString(p)) == p
  {
    TrimToString(p);
    ToStringShape(p);
    ParseToString(p);
  }

  /** chdir to a single valid name appends exactly that name. */
  lemma AllValidNoUp(parts: seq<string>)
    requires AllValid(parts)
    ensures ".." !in parts
  {
    forall i | 0 <= i < |parts| ensures parts[i] != ".." {
      assert ValidName(parts[i]);
    }
  }

  /** A valid name is its own single fragment. */
  lemma PiecesOfName(name: string)
    requires ValidName(name)
    ensures Pieces(name) == [name]
  {
    SplitPrefix(name, "");
    assert Split("") == [""];
    assert name + "" == name;
    assert Split(name) == [name];
    assert [name][..0] == [];
    KeepValid(name);
    assert KeepAll([name]) == KeepAll([]) + Keep(name);
  }

  lemma ChdirName(base: FilePath, name: string)
    requires AllValid(base.parts) && ValidName(name)
    ensures ChdirStr(base, name) == FilePath(base.parts + [name], base.absolute)
  {
    TrimNonBlankEnds(name);
    assert name[0] != '/' by { assert name[0] in name; }
    PiecesOfName(name);
    AllValidNoUp(base.parts);
    assert ".." !in base.parts + [name];
    NormalizedIdentity(base.parts + [name]);
  }


  /** chdir with an empty (or blank) argument leaves a ".."-free path unchanged. */
  lemma ChdirEmpty(base: FilePath)
    requires ".." !in base.parts
    ensures ChdirStr(base, "") == base
  {
    assert Split("") == [""];
    assert KeepAll([""]) == [] by { assert [""][..0] == []; }
    assert base.parts + [] == base.parts;
    NormalizedIdentity(base.parts);
  }

  /** The empty string parses as the absolute root, which prints as "/". */
  lemma ParseEmpty()
    ensures Parse("") == FilePath([], true) && ToString(Parse("")) == "/"
  {
    assert Split("") == [""];
    assert KeepAll([""]) == [] by { assert [""][..0] == []; }
    assert "/" + Join([]) == "/";
  }

  /** chdir keeps every segment valid when the receiver's segments are. */
  lemma ChdirStrValid(base: FilePath, path: string)
    requires AllValid(base.parts)
    ensures AllValid(ChdirStr(base, path).parts)
    ensures !StartsWithSlash(Trim(path)) ==> ChdirStr(base, path).absolute == base.absolute
    ensures StartsWithSlash(Trim(path)) ==> ChdirStr(base, path).absolute
  {
    var t := Trim(path);
    if !StartsWithSlash(t) {
      AppendedValid(base.parts, Pieces(t));
    }
  }

  /** Valid segments followed by fragments normalise to valid segments. */
  lemma AppendedValid(parts: seq<string>, pieces: seq<string>)
    requires AllValid(parts) && forall i :: 0 <= i < |pieces| ==> NameOrUp(pieces[i])
    ensures AllValid(Normalized(parts + pieces))
  {
    var all := parts + pieces;
    forall i | 0 <= i < |all| ensures NameOrUp(all[i]) {
      if i >= |parts| {
        assert all[i] == pieces[i - |parts|];
      }
    }
    NormalizedValid(all);
  }

  /**
   * The string "." parses as the relative path ["."]; chdir("../b") from
   * there lets ".." eat the "." and yields the relative path "b".
   */
  lemma DotThenUp(b: string)
    requires ValidName(b)
    ensures Parse(".") == FilePath(["."], false)
    ensures ChdirStr(Parse("."), Join(["..", b])) == FilePath([b], false)
  {
    var t := Join(["..", b]);
    assert t == ".." + "/" + b by { assert ["..", b][1..] == [b]; assert Join([b]) == b; }
    assert t[0] == '.' && t[|t| - 1] == b[|b| - 1];
    TrimNonBlankEnds(t);
    PiecesUpName(b);
    NormalizedDotUp(b);
    assert ["."] + ["..", b] == [".", "..", b];
  }

  lemma PiecesUpName(b: string)
    requires ValidName(b)
    ensures Pieces(Join(["..", b])) == ["..", b]
  {
    assert '/' !in "..";
    SplitJoin(["..", b]);
    assert Kept("..") by { TrimNonBlankEnds(".."); }
    KeepValid(b);
    KeepAllFixed(["..", b]);
  }

  lemma NormalizedDotUp(b: string)
    requires b != ".."
    ensures Normalized([".", "..", b]) == [b]
  {
    var all := [".", "..", b];
    assert all[..2] == [".", ".."];
    assert all[..2][..1] == ["."];
    assert ["."][..0] == [];
    assert Normalized(["."]) == ["."];
    assert Normalized([".", ".."]) == [];
  }

  /** The string "../a/b/" is its own trim, starts with ".", and has the fragments "..", a, b. */
  lemma PiecesUpAndAcross(a: string, b: string)
    requires ValidName(a) && ValidName(b)
    ensures var t := Join(["..", a, b, ""]);
      Trim(t) == t && !StartsWithSlash(t) && Pieces(t) == ["..", a, b]
  {
    var pieces := ["..", a, b, ""];
    var t := Join(pieces);
    assert pieces[1..] == [a, b, ""];
    assert Join([""]) == "";
    assert Join([b, ""]) == b + "/" + "";
    assert Join([a, b, ""]) == a + "/" + Join([b, ""]);
    assert t == ".." + "/" + Join([a, b, ""]);
    assert t[0] == '.' && t[|t| - 1] == '/';
    TrimNonBlankEnds(t);
    SplitJoin(pieces);
    KeepAllUpAndAcross(a, b);
  }

  lemma KeepAllUpAndAcross(a: string, b: string)
    requires ValidName(a) && ValidName(b)
    ensures KeepAll(["..", a, b, ""]) == ["..", a, b]
  {
    var names := ["..", a, b];
    assert ["..", a, b, ""] == names + [""];
    KeepAllAppend(names, [""]);
    assert KeepAll([""]) == [] by { assert [""][..0] == []; }
    assert Keep("..") == [".."] by { TrimNonBlankEnds(".."); }
    KeepValid(a);
    KeepValid(b);
    KeepAllFixed(names);
  }

  /** Climbing out of "/c" and into "a/b", written with a trailing "/", leads to "/a/b". */
  lemma UpAndAcross(c: string, a: string, b: string)
    requires ValidName(c) && ValidName(a) && ValidName(b)
    ensures ChdirStr(FilePath([c], true), Join(["..", a, b, ""])) == FilePath([a, b], true)
  {
    PiecesUpAndAcross(a, b);
    var all := [c, "..", a, b];
    assert [c] + ["..", a, b] == all;
    assert all[..3] == [c, "..", a] && all[..3][..2] == [c, ".."] && all[..3][..2][..1] == [c];
    assert [c][..0] == [];
    assert Normalized([c]) == [c];
    assert Normalized([c, ".."]) == [];
    assert Normalized([c, "..", a]) == [a];
    assert Normalized(all) == [a, b];
  }

  /**
   * A root folder written "/a" or "/a/" parses to the same one-part
   * absolute path, which prints back as "/a".
   */
  lemma RootFolder(a: string)
    requires ValidName(a)
    ensures Parse(Join(["", a])) == FilePath([a], true)
    ensures Parse(Join(["", a, ""])) == FilePath([a], true)
    ensures ToString(FilePath([a], true)) == Join(["", a])
    ensures Trim(Join(["", a, ""])) == Join(["", a, ""])
    ensures Trim(Join(["", a])) == Join(["", a])
  {
    RootJoin(a);
    RootTrim(a);
    RootPieces(a);
    RootPiecesSlash(a);
    assert Normalized([a]) == [a] by { assert [a][..0] == []; }
  }

  lemma RootJoin(a: string)
    requires ValidName(a)
    ensures Join(["", a]) == "/" + a
    ensures Join(["", a, ""]) == "/" + a + "/"
  {
    assert Join([a]) == a;
    assert Join([a, ""]) == a + "/" + "";
    assert ["", a][1..] == [a] && ["", a, ""][1..] == [a, ""];
  }

  lemma RootTrim(a: string)
    requires ValidName(a)
    ensures Trim("/" + a) == "/" + a
    ensures Trim("/" + a + "/") == "/" + a + "/"
  {
    var t1, t2 := "/" + a, "/" + a + "/";
    assert t1[|t1| - 1] == a[|a| - 1];
    TrimNonBlankEnds(t1);
    assert t2[0] == '/' && t2[|t2| - 1] == '/';
    TrimNonBlankEnds(t2);
  }

  lemma RootPieces(a: string)
    requires ValidName(a)
    ensures Pieces(Join(["", a])) == [a]
  {
    assert '/' !in a;
    SplitJoin(["", a]);
    KeepAllAppend([""], [a]);
    assert [""] + [a] == ["", a];
    assert KeepAll([""]) == [] by { assert [""][..0] == []; }
    KeepAllValid([a]);
  }

  lemma RootPiecesSlash(a: string)
    requires ValidName(a)
    ensures Pieces(Join(["", a, ""])) == [a]
  {
    assert '/' !in a;
    SplitJoin(["", a, ""]);
    KeepAllAppend(["", a], [""]);
    assert ["", a] + [""] == ["", a, ""];
    assert KeepAll([""]) == [] by { assert [""][..0] == []; }
    assert KeepAll(["", a]) == [a] by { RootPieces(a); }
  }
}
