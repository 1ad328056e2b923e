/**
 * The number of bytes held by the files of a tree, and how the tree
 * operations change it: creating a file adds nothing (it starts empty), the
 * content assignment of a closing stream replaces the file's bytes, and
 * removing a file takes its bytes away. The throttled store keeps a running
 * total that these facts show to be exact.
 */
module TreeSizes {
  import opened FileSystem
  import opened RamTree

  /** The bytes held by the files of a tree, by structural recursion. */
  function TreeBytes(n: Node): nat
    decreases n, 1
  {
    match n
    case File(_, _, contents) => |contents|
    case Folder(_, children) => ChildrenBytes(n, |children|)
  }

  /** The bytes held below the first i children of a folder. */
  function ChildrenBytes(parent: Node, i: nat): nat
    requires parent.Folder? && i <= |parent.children|
    decreases parent, 0, i
  {
    if i == 0 then 0 else ChildrenBytes(parent, i - 1) + TreeBytes(parent.children[i - 1])
  }

  // ---------------------------------------------------------------------
  // Sums over children

  /** The sum over the first i children only depends on those children. */
  lemma {:induction false} ChildrenBytesPrefix(a: Node, b: Node, i: nat)
    requires a.Folder? && b.Folder? && i <= |a.children| && i <= |b.children|
    requires a.children[..i] == b.children[..i]
    ensures ChildrenBytes(a, i) == ChildrenBytes(b, i)
  {
    if i > 0 {
      assert a.children[..i - 1] == a.children[..i][..i - 1];
      assert b.children[..i - 1] == b.children[..i][..i - 1];
      assert a.children[i - 1] == a.children[..i][i - 1];
      assert b.children[i - 1] == b.children[..i][i - 1];
      ChildrenBytesPrefix(a, b, i - 1);
    }
  }

  /** A new last child adds its bytes. */
  lemma AppendBytes(name: string, cs: seq<Node>, c: Node)
    ensures TreeBytes(Folder(name, cs + [c])) == TreeBytes(Folder(name, cs)) + TreeBytes(c)
  {
    assert (cs + [c])[..|cs|] == cs[..|cs|];
    ChildrenBytesPrefix(Folder(name, cs + [c]), Folder(name, cs), |cs|);
  }

  /** Replacing child k swaps its bytes for the new child's, in every sum past k. */
  lemma {:induction false} ReplaceBytesFrom(name: string, cs: seq<Node>, k: nat, c: Node, i: nat)
    requires k < i <= |cs|
    ensures ChildrenBytes(Folder(name, cs[k := c]), i) + TreeBytes(cs[k]) ==
            ChildrenBytes(Folder(name, cs), i) + TreeBytes(c)
  {
    if i == k + 1 {
      assert cs[k := c][..k] == cs[..k];
      ChildrenBytesPrefix(Folder(name, cs[k := c]), Folder(name, cs), k);
    } else {
      ReplaceBytesFrom(name, cs, k, c, i - 1);
    }
  }

  lemma ReplaceBytes(name: string, cs: seq<Node>, k: nat, c: Node)
    requires k < |cs|
    ensures TreeBytes(Folder(name, cs[k := c])) + TreeBytes(cs[k]) == TreeBytes(Folder(name, cs)) + TreeBytes(c)
  {
    ReplaceBytesFrom(name, cs, k, c, |cs|);
  }

  /** Dropping child k takes its bytes away, in every sum past k. */
  lemma {:induction false} RemoveBytesFrom(name: string, cs: seq<Node>, k: nat, i: nat)
    requires k <= i < |cs|
    ensures ChildrenBytes(Folder(name, cs[..k] + cs[k + 1..]), i) + TreeBytes(cs[k]) ==
            ChildrenBytes(Folder(name, cs), i + 1)
  {
    var rest := cs[..k] + cs[k + 1..];
    if i == k {
      assert rest[..k] == cs[..k];
      ChildrenBytesPrefix(Folder(name, rest), Folder(name, cs), k);
    } else {
      RemoveBytesFrom(name, cs, k, i - 1);
      assert rest[i - 1] == cs[i];
    }
  }

  lemma RemoveBytes(name: string, cs: seq<Node>, k: nat)
    requires k < |cs|
    ensures TreeBytes(Folder(name, cs[..k] + cs[k + 1..])) + TreeBytes(cs[k]) == TreeBytes(Folder(name, cs))
  {
    RemoveBytesFrom(name, cs, k, |cs| - 1);
  }

  // ---------------------------------------------------------------------
  // The tree operations

  /** A chain of new folders ending in a new file holds no bytes. */
  lemma {:induction false} FileChainBytes(parts: seq<string>, id: nat)
    requires parts != []
    ensures TreeBytes(FileChain(parts, id)) == 0
    decreases |parts|
  {
    if |parts| > 1 {
      var c := FileChain(parts[1..], id);
      FileChainBytes(parts[1..], id);
      AppendBytes(parts[0], [], c);
      assert [] + [c] == [c];
      assert TreeBytes(Folder(parts[0], [])) == 0;
    }
  }

  /** writeTo adds no bytes: the file it yields is the existing one or a new empty one. */
  lemma {:induction false} CreateFileBytes(n: Node, parts: seq<string>, id: nat)
    requires n.Folder? && CreateFile(n, parts, id).Ok?
    ensures TreeBytes(CreateFile(n, parts, id).value.0) == TreeBytes(n)
    decreases |parts|
  {
    if parts != [] {
      var k := Find(n.children, parts[0]);
      if k == |n.children| {
        FileChainBytes(parts, id);
        AppendBytes(n.name, n.children, FileChain(parts, id));
      } else if |parts| > 1 {
        var c := CreateFile(n.children[k], parts[1..], id).value.0;
        CreateFileBytes(n.children[k], parts[1..], id);
        ReplaceBytes(n.name, n.children, k, c);
      }
    }
  }

  /**
   * The content assignment of a closing stream replaces the bytes of the
   * file it is bound to: the total loses the old contents and gains the new.
   */
  lemma {:induction false} WriteContentsBytes(n: Node, parts: seq<string>, id: nat, bytes: seq<byte>)
    requires IsFileAt(n, parts) && Locate(n, parts).value.id == id
    ensures TreeBytes(WriteContents(n, parts, id, bytes)) + |Locate(n, parts).value.contents| ==
            TreeBytes(n) + |bytes|
    decreases |parts|
  {
    if parts != [] {
      var k := Find(n.children, parts[0]);
      var c := WriteContents(n.children[k], parts[1..], id, bytes);
      WriteContentsBytes(n.children[k], parts[1..], id, bytes);
      ReplaceBytes(n.name, n.children, k, c);
    }
  }

  /** delete takes the bytes of the removed file away from the total. */
  lemma {:induction false} RemoveAtBytes(n: Node, parts: seq<string>)
    requires parts != [] && IsFileAt(n, parts)
    ensures TreeBytes(RemoveAt(n, parts)) + |Locate(n, parts).value.contents| == TreeBytes(n)
    decreases |parts|
  {
    var k := Find(n.children, parts[0]);
    if |parts| == 1 {
      assert parts[1..] == [];
      RemoveBytes(n.name, n.children, k);
    } else {
      var c := RemoveAt(n.children[k], parts[1..]);
      RemoveAtBytes(n.children[k], parts[1..]);
      ReplaceBytes(n.name, n.children, k, c);
    }
  }
}
