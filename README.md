# lif-fs in Dafny

lif-fs is a Java library for working with file systems through one interface. A store is opened, used and closed; its
operations list folders, test whether a path is a file or a folder, give a file's size, read and write files through
streams, move the current folder (`chdir`, `pushd`, `popd`), and create and delete folders and files. The library
builds many stores and decorators on that interface. This project models the core of the library and proves
properties of the model.

- **Paths** (`FilePaths`, paths.dfy): `FilePath` as a datatype of parts and an absolute flag. It covers parsing,
  `fragment`, `simplify`, both `chdir` overloads and `toString`. `simplify` is the source's right-to-left loop, proved
  against a left-to-right reference.
- **In-memory store** (`RamTree`, `RamStore`): the `RamDisk` node tree as a datatype, with a pure step function for
  every operation over the store's state. The class `RamDisk` is proved against those functions, and so is its output
  stream, which writes its bytes to the file node at close.
- **Host disk** (`HardDisks`): `HardDisk`'s open/close machine, its folder stack, `getPath` and the lease and bypass
  bookkeeping of a reifiable store. The host's files are an abstract map from path to folder or bytes. The module also
  holds the identity reification, `HardDisk.IdentityReifiedFileSystem`. No code path of the library builds one:
  `AbstractReifiableFileSystem.reify` always builds a `TmpReifiedFileSystem`, and nothing overrides
  `createReifiedFileSystem`. It is modelled as written, as code that nothing reaches.
- **Reification** (`Reification`): the staging store of `TmpReifiedFileSystem`, which fetches each path at most once,
  writes everything back on commit, and releases the lease once.
- **Decorators** (`Filters`, `ChrootStore`, `MirrorStore`, `Noop`, `Throttle`, `FlatNames`, `FlatStore`): the
  pass-through filter, the read-only, buffered and base 64 stores, chroot, the mirror over replicas, the inert store,
  the throttled streams and store, and the flat store with its hexadecimal file names.
- **Streams and codecs** (`ByteStreams`, `ProxyStreams`, `Base64`, `Mementos`, `FileProxies`): byte streams, the proxy
  streams that transform their whole content once, base 64 as in section 4 of RFC 4648, the filter and base 64
  mementos, and the file proxy.
- **Traversals** (`Listing`, `TreeSizes`, `StreamCopy`, `StoreCopy`): `RecursiveListing.crawl`, `FileUtils.getSize`,
  the listing filter, the stream copy and the copy of a whole store.

Where a doc comment or a test disagrees with the code, the model follows the code:
- `simplify` drops a ".." that has nothing to cancel.
- `Chroot.getPath` ignores its argument.
- `FileUtils.getSize` crawls from the root whatever path it is given.
- `RamDisk` checks that the store is open only in `chdir` and `popd`.
- The sample tree of the `RamDisk` tests has `e.txt` at the root and an empty `jkl`.

## Model

| member | source | states |
|---|---|---|
| FilePaths.SplitJoin | Source/Core/src/ca/uqac/lif/fs/FilePath.java:176 | splitting on "/" inverts joining with "/" for any non-empty list of "/"-free pieces, so the split step loses nothing |
| FilePaths.Pieces | Source/Core/src/ca/uqac/lif/fs/FilePath.java:173-186 | every fragment kept is a valid segment name or ".." (empty, blank and "." pieces never survive) |
| FilePaths.Fragment | Source/Core/src/ca/uqac/lif/fs/FilePath.java:173-186 | the fragment loop returns exactly the trimmed, non-empty, non-"." pieces of the split, in order |
| FilePaths.KeepAllAppend | Source/Core/src/ca/uqac/lif/fs/FilePath.java:177-184 | the fragment filter works piece by piece: filtering a concatenation is concatenating the filtered parts |
| FilePaths.KeepAllShape | Source/Core/src/ca/uqac/lif/fs/FilePath.java:177-184 | from "/"-free pieces the filter keeps only valid names and ".." |
| FilePaths.KeepAllValid | Source/Core/src/ca/uqac/lif/fs/FilePath.java:177-184 | a list of valid names passes the filter unchanged |
| FilePaths.PiecesOfName | Source/Core/src/ca/uqac/lif/fs/FilePath.java:173-186 | a single valid name fragments to itself alone |
| FilePaths.EatenIsDropLast | Source/Core/src/ca/uqac/lif/fs/FilePath.java:196-212 | reading the parts right to left with k pending ".." keeps the stack normal form minus its last k segments |
| FilePaths.Simplify | Source/Core/src/ca/uqac/lif/fs/FilePath.java:193-214 | the right-to-left `eat` loop with front insertion computes the left-to-right stack normal form of the parts |
| FilePaths.NormalizedElements | Source/Core/src/ca/uqac/lif/fs/FilePath.java:193-214 | simplify never outputs "..", and every segment it outputs is one of its input parts |
| FilePaths.NormalizedValid | Source/Core/src/ca/uqac/lif/fs/FilePath.java:193-214 | simplifying valid names and ".." leaves only valid names |
| FilePaths.NormalizedAppend | Source/Core/src/ca/uqac/lif/fs/FilePath.java:193-214 | appending ".."-free parts commutes with simplify |
| FilePaths.NormalizedIdentity | Source/Core/src/ca/uqac/lif/fs/FilePath.java:193-214 | simplify is the identity on parts without ".." |
| FilePaths.NormalizedIdempotent | Source/Core/src/ca/uqac/lif/fs/FilePath.java:193-214 | simplify is idempotent |
| FilePaths.NormalizedExamples | Source/Core/src/ca/uqac/lif/fs/FilePath.java:197-213 | [foo,bar,..] gives [foo], [foo,..,baz] gives [baz], and an unmatched ".." is dropped: [foo,..,..] gives [] and [..,foo,bar] gives [foo,bar] |
| FilePaths.Make | Source/Core/src/ca/uqac/lif/fs/FilePath.java:66-71 | the list constructor keeps the flag and stores parts free of ".." |
| FilePaths.Parse | Source/Core/src/ca/uqac/lif/fs/FilePath.java:77-90 | a parsed path is absolute iff the string is empty or starts with "/"; "." alone gives the single part "."; any other string gives valid segments only |
| FilePaths.Chdir | Source/Core/src/ca/uqac/lif/fs/FilePath.java:107-117 | an absolute argument is returned as is; a relative one keeps the receiver's absolute flag and yields parts free of ".." |
| FilePaths.ChdirStrValid | Source/Core/src/ca/uqac/lif/fs/FilePath.java:125-136 | chdir with a string keeps segments valid, is absolute when the trimmed argument starts with "/", and otherwise keeps the receiver's flag |
| FilePaths.ChdirName | Source/Core/src/ca/uqac/lif/fs/FilePath.java:125-136 | chdir to one valid name appends exactly that name |
| FilePaths.ChdirEmpty | Source/Core/src/ca/uqac/lif/fs/FilePath.java:125-136 | chdir with the empty string leaves a ".."-free path unchanged |
| FilePaths.ToStringShape | Source/Core/src/ca/uqac/lif/fs/FilePath.java:148-165 | the printed path starts with "/" iff it is absolute, the empty absolute path prints "/", and a non-empty path never ends with "/" |
| FilePaths.PiecesToString | Source/Core/src/ca/uqac/lif/fs/FilePath.java:148-186 | fragmenting the printed form of a path with valid segments gives its segments back |
| FilePaths.ParseToString | Source/Core/src/ca/uqac/lif/fs/FilePath.java:77-90 | parsing the printed form gives the path back, for every path with valid segments except the empty relative one |
| FilePaths.ChdirToString | Source/Core/src/ca/uqac/lif/fs/FilePath.java:125-136 | chdir to the printed form of an absolute normal path lands exactly on that path, whatever the receiver |
| FilePaths.ParseEmpty | Source/Core/src/ca/uqac/lif/fs/FilePath.java:77-90 | the empty string parses as the absolute root, which prints "/" |
| FilePaths.DotThenUp | Source/Core/src/ca/uqac/lif/fs/FilePath.java:80-84 | "." parses as the relative path ["."], and chdir("../b") from it gives the relative path "b" (the ".." eats the ".") |
| FilePaths.UpAndAcross | Source/Core/src/ca/uqac/lif/fs/FilePath.java:125-136 | from "/c", chdir("../a/b/") gives "/a/b" |
| FilePaths.RootFolder | Source/Core/src/ca/uqac/lif/fs/FilePath.java:77-90 | "/a" and "/a/" parse to the same one-part absolute path, which prints as "/a" |
| RamTree.Find | Source/Core/src/ca/uqac/lif/fs/RamDisk.java:289-296 | the child search returns the first child with the wanted name, or the number of children when none has it |
| RamTree.Names | Source/Core/src/ca/uqac/lif/fs/RamDisk.java:103-107 | the listing has one entry per child, the child's name, in child order |
| RamTree.FindUnique | Source/Core/src/ca/uqac/lif/fs/RamDisk.java:259-275 | among siblings with distinct names, searching for a child's name finds that child |
| RamTree.FolderChainWf | Source/Core/src/ca/uqac/lif/fs/RamDisk.java:297-302 | the chain of new folders built for missing segments is well formed and holds a folder at the end of the path |
| RamTree.FileChainWf | Source/Core/src/ca/uqac/lif/fs/RamDisk.java:334-347 | the chain of new folders ending in a new empty file node is well formed and locates that file at the end of the path |
| RamTree.CreateFolderFails | Source/Core/src/ca/uqac/lif/fs/RamDisk.java:282-312 | mkdir's walk fails exactly when a file lies on the path, and then with "Invalid path" |
| RamTree.CreateFolderOk | Source/Core/src/ca/uqac/lif/fs/RamDisk.java:282-312 | a successful walk keeps the tree well formed (sibling names stay distinct) and leaves a folder at the path |
| RamTree.CreateFolderExisting | Source/Core/src/ca/uqac/lif/fs/RamDisk.java:303-310 | mkdir on an existing folder changes nothing |
| RamTree.CreateFolderKeeps | Source/Core/src/ca/uqac/lif/fs/RamDisk.java:282-312 | every existing file stays as it was and every existing folder stays a folder |
| RamTree.CreateFolderNew | Source/Core/src/ca/uqac/lif/fs/RamDisk.java:282-312 | after mkdir every node at a path either was there already, of the same kind, or is a new folder at a prefix of the created path |
| RamTree.CreateFileFails | Source/Core/src/ca/uqac/lif/fs/RamDisk.java:319-370 | writeTo's walk fails with "Invalid path" exactly when a file lies on the way to the last segment, and with "folder exists" exactly when the last segment names a folder; no other failure |
| RamTree.CreateFileOk | Source/Core/src/ca/uqac/lif/fs/RamDisk.java:319-370 | a successful walk keeps the tree well formed and returns a file node: the existing file, untouched, or a new empty file with the fresh identity |
| RamTree.CreateFileKeeps | Source/Core/src/ca/uqac/lif/fs/RamDisk.java:319-370 | creating a file keeps every other existing file and folder as it was |
| RamTree.CreateFileNew | Source/Core/src/ca/uqac/lif/fs/RamDisk.java:319-370 | after writeTo's walk every node at a path either was there already, of the same kind, or is the new file at the path, or a new folder on the way to it |
| RamTree.RemoveAtWf | Source/Core/src/ca/uqac/lif/fs/RamDisk.java:211-215 | detaching a located node from its parent keeps the tree well formed and the root a folder with its name |
| RamTree.RemoveAtGone | Source/Core/src/ca/uqac/lif/fs/RamDisk.java:211-215 | after detaching, the path locates nothing while its parent folder remains |
| RamTree.RemoveAtSubtree | Source/Core/src/ca/uqac/lif/fs/RamDisk.java:211-215 | nothing below the detached node can be located any more |
| RamTree.RemoveAtKeeps | Source/Core/src/ca/uqac/lif/fs/RamDisk.java:211-215 | every file and folder outside the detached subtree stays as it was |
| RamTree.WriteContentsWf | Source/Core/src/ca/uqac/lif/fs/RamDisk.java:491-496 | replacing a file node's bytes keeps the tree well formed |
| RamTree.WriteContentsAt | Source/Core/src/ca/uqac/lif/fs/RamDisk.java:491-496 | the bound file node, when still in the tree, holds exactly the new bytes; a node no longer in the tree leaves the tree unchanged |
| RamTree.WriteContentsKeeps | Source/Core/src/ca/uqac/lif/fs/RamDisk.java:491-496 | every other file and folder stays as it was |
| RamTree.WriteContentsShape | Source/Core/src/ca/uqac/lif/fs/RamDisk.java:491-496 | writing a file's bytes leaves every file and every folder where it was: nothing appears or disappears |
| RamTree.CreateFileIds | Source/Core/src/ca/uqac/lif/fs/RamDisk.java:344-346 | creating a file with a fresh identity keeps every identity below the next one, so node identities never repeat |
| RamStore.IsFileSpec | Source/Core/src/ca/uqac/lif/fs/RamDisk.java:111-125 | a path is never both a file and a directory |
| RamStore.ReadSpec | Source/Core/src/ca/uqac/lif/fs/RamDisk.java:147-159 | readFrom succeeds exactly on a file, and otherwise fails with "<path> is not a file" |
| RamStore.SizeSpec | Source/Core/src/ca/uqac/lif/fs/RamDisk.java:127-137 | getSize succeeds exactly on a file, with the length of its contents, and otherwise fails with "Path is a directory" |
| RamStore.FreshValid | Source/Core/src/ca/uqac/lif/fs/RamDisk.java:58-65 | a new store satisfies the store invariant and its working directory prints "/" |
| RamStore.ResolveNormal | Source/Core/src/ca/uqac/lif/fs/RamDisk.java:142 | resolving any string against a normal working directory gives a normal absolute path |
| RamStore.WriteToValid | Source/Core/src/ca/uqac/lif/fs/RamDisk.java:139-145 | writeTo keeps the store invariant: distinct sibling names, identities below the next one, normal directories |
| RamStore.MkdirValid | Source/Core/src/ca/uqac/lif/fs/RamDisk.java:195-200 | mkdir keeps the store invariant |
| RamStore.RmdirValid | Source/Core/src/ca/uqac/lif/fs/RamDisk.java:202-220 | rmdir keeps the store invariant |
| RamStore.DeleteValid | Source/Core/src/ca/uqac/lif/fs/RamDisk.java:222-236 | delete keeps the store invariant |
| RamStore.ChdirValid | Source/Core/src/ca/uqac/lif/fs/RamDisk.java:161-170 | chdir keeps the store invariant |
| RamStore.PopdValid | Source/Core/src/ca/uqac/lif/fs/RamDisk.java:178-193 | popd keeps the store invariant |
| RamStore.CommitValid | Source/Core/src/ca/uqac/lif/fs/RamDisk.java:490-496 | closing an output stream keeps the store invariant |
| RamStore.OpenCloseLifecycle | Source/Core/src/ca/uqac/lif/fs/RamDisk.java:67-81 | open fails, changing nothing, exactly when the store is closed, and otherwise opens it; close always succeeds and closes; the state never moves backwards |
| RamStore.NavigationNeedsOpen | Source/Core/src/ca/uqac/lif/fs/RamDisk.java:161-193 | chdir, pushd and popd fail with "not open", changing nothing, exactly when the store is not open |
| RamStore.CommandsIgnoreState | Source/Core/src/ca/uqac/lif/fs/RamDisk.java:195-236 | mkdir, rmdir and delete neither check nor change the lifecycle state |
| RamStore.QueriesIgnoreState | Source/Core/src/ca/uqac/lif/fs/RamDisk.java:89-159 | writeTo, ls(path) and readFrom neither check nor change the lifecycle state |
| RamStore.PopdUndoesChdir | Source/Core/src/ca/uqac/lif/fs/RamDisk.java:161-193 | popd after a successful chdir restores the whole previous state |
| RamStore.PopdEmptyStack | Source/Core/src/ca/uqac/lif/fs/RamDisk.java:185-188 | popd on an empty stack succeeds and returns to "/" |
| RamStore.ChdirIntoName | Source/Core/src/ca/uqac/lif/fs/RamDisk.java:168-169 | chdir into one valid name appends it to the working directory |
| RamStore.WriteToFails | Source/Core/src/ca/uqac/lif/fs/RamDisk.java:349-366 | writeTo fails with "Invalid path" exactly when a file lies on the way to the last name, with "folder exists" exactly when the last name is a folder, and changes nothing when it fails |
| RamStore.WriteToRoot | Source/Core/src/ca/uqac/lif/fs/RamDisk.java:319-370 | writeTo on the root itself returns a stream bound to no node and leaves the tree unchanged |
| RamStore.WriteToCreates | Source/Core/src/ca/uqac/lif/fs/RamDisk.java:139-145 | a successful writeTo puts a file at the path at once (the existing one untouched, or a new empty one) and binds the stream to that node |
| RamStore.WriteToKeeps | Source/Core/src/ca/uqac/lif/fs/RamDisk.java:139-145 | writeTo keeps every existing file and folder |
| RamStore.WriteThenRead | Source/Core/src/ca/uqac/lif/fs/RamDisk.java:484-496 | closing the stream writeTo returned makes readFrom on the path return exactly the bytes written |
| RamStore.RecreatedFile | Source/Core/src/ca/uqac/lif/fs/RamDisk.java:222-236 | after delete, writeTo on the same path creates a new, empty file node with a new identity |
| RamStore.StaleStreamWritesNothing | Source/Core/src/ca/uqac/lif/fs/RamDisk.java:471-496 | a stream whose file was deleted and re-created writes to the detached node: closing it changes no node of the tree |
| RamStore.MkdirFacts | Source/Core/src/ca/uqac/lif/fs/RamDisk.java:195-200 | mkdir fails with "Invalid path", changing nothing, exactly when a file lies on the path; otherwise a folder is there; on an existing folder nothing changes |
| RamStore.MkdirKeeps | Source/Core/src/ca/uqac/lif/fs/RamDisk.java:195-200 | mkdir keeps every file and every folder |
| RamStore.DeleteFacts | Source/Core/src/ca/uqac/lif/fs/RamDisk.java:222-236 | delete fails with "No such file", changing nothing, exactly when the path is not a file; afterwards the path is neither file nor folder, and its parent folder remains |
| RamStore.DeleteKeeps | Source/Core/src/ca/uqac/lif/fs/RamDisk.java:222-236 | delete keeps everything that is not at or below the path |
| RamStore.RmdirFacts | Source/Core/src/ca/uqac/lif/fs/RamDisk.java:202-220 | rmdir fails with "No such directory", changing nothing, exactly when the path is not a folder; afterwards nothing at or below the path remains, the parent folder does, and on the root every child goes |
| RamStore.RmdirKeeps | Source/Core/src/ca/uqac/lif/fs/RamDisk.java:202-220 | rmdir keeps everything that is not at or below the path |
| RamStore.SampleDisk | Source/Core/srctest/ca/uqac/lif/fs/TempFolderTest.java:174-216 | the sample tree the tests populate is a valid store whose working directory is "/" |
| RamStore.SampleRootListing | Source/Core/srctest/ca/uqac/lif/fs/RamDiskTest.java:105-110 | the root of the sample tree lists abc, def, jkl and e.txt, in that order |
| RamStore.SampleChdirListing | Source/Core/srctest/ca/uqac/lif/fs/RamDiskTest.java:111-115 | after chdir("abc") the working directory is "/abc" and it lists a.txt and b.txt |
| RamStore.SampleClimbListing | Source/Core/srctest/ca/uqac/lif/fs/RamDiskTest.java:116-119 | from "/abc", ls("../def/ghi/") lists c.txt and d.txt |
| RamStore.RamDisk.constructor | Source/Core/src/ca/uqac/lif/fs/RamDisk.java:58-65 | a new store is uninitialised, at "/", with an empty stack and an empty root folder |
| RamStore.RamDisk.Open | Source/Core/src/ca/uqac/lif/fs/RamDisk.java:67-75 | open follows its specification function and keeps the invariant |
| RamStore.RamDisk.Close | Source/Core/src/ca/uqac/lif/fs/RamDisk.java:77-81 | close sets the state to closed and nothing else |
| RamStore.RamDisk.List | Source/Core/src/ca/uqac/lif/fs/RamDisk.java:95-109 | the listing loop returns the names of the children of the folder at the resolved path, in order, or "No such directory" |
| RamStore.RamDisk.Ls | Source/Core/src/ca/uqac/lif/fs/RamDisk.java:83-87 | ls() lists the working directory |
| RamStore.RamDisk.LsPath | Source/Core/src/ca/uqac/lif/fs/RamDisk.java:89-93 | ls(path) lists the path resolved against the working directory |
| RamStore.RamDisk.IsDirectory | Source/Core/src/ca/uqac/lif/fs/RamDisk.java:111-117 | isDirectory holds exactly when the resolved path locates a folder |
| RamStore.RamDisk.IsFile | Source/Core/src/ca/uqac/lif/fs/RamDisk.java:119-125 | isFile holds exactly when the resolved path locates a file |
| RamStore.RamDisk.GetSize | Source/Core/src/ca/uqac/lif/fs/RamDisk.java:127-137 | getSize follows its specification function |
| RamStore.RamDisk.WriteTo | Source/Core/src/ca/uqac/lif/fs/RamDisk.java:139-145 | writeTo creates the node at once and returns a fresh stream bound to it, with an empty buffer |
| RamStore.RamDisk.ReadFrom | Source/Core/src/ca/uqac/lif/fs/RamDisk.java:147-159 | readFrom returns a fresh stream over exactly the file's bytes, or the error |
| RamStore.RamDisk.Chdir | Source/Core/src/ca/uqac/lif/fs/RamDisk.java:161-170 | chdir pushes the working directory and moves to it resolved against the path, on an open store only |
| RamStore.RamDisk.Pushd | Source/Core/src/ca/uqac/lif/fs/RamDisk.java:172-176 | pushd is chdir |
| RamStore.RamDisk.Popd | Source/Core/src/ca/uqac/lif/fs/RamDisk.java:178-193 | popd pops the stack, or returns to "/" on an empty stack, on an open store only |
| RamStore.RamDisk.Mkdir | Source/Core/src/ca/uqac/lif/fs/RamDisk.java:195-200 | mkdir follows its specification function |
| RamStore.RamDisk.Rmdir | Source/Core/src/ca/uqac/lif/fs/RamDisk.java:202-220 | rmdir follows its specification function |
| RamStore.RamDisk.Delete | Source/Core/src/ca/uqac/lif/fs/RamDisk.java:222-236 | delete follows its specification function |
| RamStore.RamDisk.Pwd | Source/Core/src/ca/uqac/lif/fs/RamDisk.java:372-376 | pwd prints the working directory |
| RamStore.RamOutputStream.Write | Source/Core/src/ca/uqac/lif/fs/RamDisk.java:484-488 | each write appends the low byte of its argument to the buffer |
| RamStore.RamOutputStream.WriteRange | Source/Core/src/ca/uqac/lif/fs/RamDisk.java:470-497 | write(b, off, len), inherited from OutputStream: a valid range appends b[off..off+len] to the buffer; a bad range fails as out of bounds and appends nothing |
| RamStore.RamOutputStream.Close | Source/Core/src/ca/uqac/lif/fs/RamDisk.java:490-496 | close gives the buffered bytes to the bound node; a stream bound to no node fails with a null reference |
| Listing.LocateSnoc | Source/Core/src/ca/uqac/lif/fs/RamDisk.java:259-275 | locating one more segment is looking that name up among the children of what the prefix locates |
| Listing.FilesInSound | Source/Core/src/ca/uqac/lif/fs/RecursiveListing.java:48-58 | every path visited directly in a folder is the folder's path plus the name of one of its file entries |
| Listing.FilesInHas | Source/Core/src/ca/uqac/lif/fs/RecursiveListing.java:48-58 | every file entry of a folder is visited with its full path |
| Listing.FilesInDistinct | Source/Core/src/ca/uqac/lif/fs/RecursiveListing.java:48-58 | the files of one folder are visited at most once each |
| Listing.FolderChildren | Source/Core/src/ca/uqac/lif/fs/RecursiveListing.java:51-54 | the folders set aside are children of the folder, and directories |
| Listing.FolderChildrenHas | Source/Core/src/ca/uqac/lif/fs/RecursiveListing.java:51-54 | every directory entry is set aside for recursion |
| Listing.VisitsSound | Source/Core/src/ca/uqac/lif/fs/RecursiveListing.java:45-64 | every visited path lies strictly below the start path and locates a file; directories are never visited |
| Listing.VisitsComplete | Source/Core/src/ca/uqac/lif/fs/RecursiveListing.java:45-64 | every file below the start folder is visited, with its full absolute path |
| Listing.VisitsDistinct | Source/Core/src/ca/uqac/lif/fs/RecursiveListing.java:45-64 | no path is visited twice |
| Listing.CrawlVisitsEachFileOnce | Source/Core/src/ca/uqac/lif/fs/RecursiveListing.java:45-64 | a path is visited iff it is a file below the start folder, and exactly once |
| Listing.ListingOf | Source/Core/src/ca/uqac/lif/fs/RecursiveListing.java:48 | listing the printed form of an absolute folder path gives the names of its children |
| Listing.EntryFacts | Source/Core/src/ca/uqac/lif/fs/RecursiveListing.java:50-51 | path.chdir(entry) appends the entry's name, and isDirectory of its printed form tells whether the entry is a folder |
| Listing.SplitStep | Source/Core/src/ca/uqac/lif/fs/RecursiveListing.java:48-59 | one more entry either adds one visit (a file) or one folder to recurse into (a directory) |
| Listing.Classify | Source/Core/src/ca/uqac/lif/fs/RecursiveListing.java:50-51 | the entry's path is the folder's path plus its name, and it is classified as a directory exactly when it is a folder |
| Listing.Entries | Source/Core/src/ca/uqac/lif/fs/RecursiveListing.java:47-59 | the first loop visits exactly the file entries, in listing order, and collects exactly the folder entries with their paths |
| Listing.Crawl | Source/Core/src/ca/uqac/lif/fs/RecursiveListing.java:45-64 | crawl(path) visits, in order, the files of the folder and then everything below each subfolder in listing order |
| Listing.CrawlAll | Source/Core/src/ca/uqac/lif/fs/RecursiveListing.java:39-43 | crawl() starts at the absolute root, visits a path iff it locates a file, and never visits a path twice |
| Listing.VisitedBytesAppend | Source/Core/src/ca/uqac/lif/fs/FileUtils.java:211-215 | the sum of the sizes of visited files is additive over concatenated visit lists |
| Listing.ChildrenSplit | Source/Core/src/ca/uqac/lif/fs/FileUtils.java:194-226 | the sizes visited among a folder's first i children add up to the bytes held below those children |
| Listing.TreeBytesVisited | Source/Core/src/ca/uqac/lif/fs/FileUtils.java:160-167 | the sizes of the files visited below a folder add up to the total bytes held below it |
| Listing.SumSizes | Source/Core/src/ca/uqac/lif/fs/FileUtils.java:211-215 | the visit hook's accumulator ends as the sum of getSize over the visited files |
| Listing.GetSize | Source/Core/src/ca/uqac/lif/fs/FileUtils.java:160-167 | getSize(fs, path) on an open store is the number of bytes of every file of the store (the crawl starts at the root whatever the path), restores the store's state, and fails when the store is not open |
| Listing.SizeOf | Source/Core/src/ca/uqac/lif/fs/FileUtils.java:214 | getSize of a visited file's printed path is its content length |
| Listing.Filter | Source/Core/src/ca/uqac/lif/fs/FileUtils.java:52-65 | the filtered listing is never longer than the listing |
| Listing.FilterMembers | Source/Core/src/ca/uqac/lif/fs/FileUtils.java:52-65 | an entry is kept iff it is in the listing and matches the pattern |
| Listing.FilterAppend | Source/Core/src/ca/uqac/lif/fs/FileUtils.java:55-63 | filtering works entry by entry, preserving order |
| Listing.LsMatching | Source/Core/src/ca/uqac/lif/fs/FileUtils.java:52-65 | ls(fs, path, pattern) is the listing with exactly the matching entries kept, in order, or the listing's error |
| Listing.RemoveUnmatched | Source/Core/src/ca/uqac/lif/fs/FileUtils.java:55-63 | the iterator loop that removes unmatched entries leaves the filtered listing |
| TreeSizes.AppendBytes | Source/Core/src/ca/uqac/lif/fs/RamDisk.java:414-418 | adding a child adds its bytes to the folder's total |
| TreeSizes.ReplaceBytes | Source/Core/src/ca/uqac/lif/fs/RamDisk.java:319-370 | replacing a child changes the folder's total by the difference of the two children's totals |
| TreeSizes.RemoveBytes | Source/Core/src/ca/uqac/lif/fs/RamDisk.java:425-429 | removing a child removes its bytes from the folder's total |
| TreeSizes.FileChainBytes | Source/Core/src/ca/uqac/lif/fs/RamDisk.java:334-347 | the new folders and empty file that writeTo creates hold no bytes |
| TreeSizes.CreateFileBytes | Source/Core/src/ca/uqac/lif/fs/RamDisk.java:139-145 | writeTo does not change the number of bytes in the store |
| TreeSizes.WriteContentsBytes | Source/Core/src/ca/uqac/lif/fs/RamDisk.java:490-496 | closing the stream replaces the file's bytes: the total changes by the new length minus the old one |
| TreeSizes.RemoveAtBytes | Source/Core/src/ca/uqac/lif/fs/RamDisk.java:222-236 | deleting a file removes exactly its length from the total |
| StreamCopy.Copy | Source/Core/src/ca/uqac/lif/fs/FileUtils.java:90-105 | copy(in, out) appends to out exactly the remaining bytes of in, in order, and leaves in exhausted; neither stream is closed |
| StreamCopy.CopyChunks | Source/Core/src/ca/uqac/lif/fs/FileUtils.java:92-100 | the chunked read/write loop appends exactly the remaining bytes, for any chunk size |
| StreamCopy.ReadChunk | Source/Core/src/ca/uqac/lif/fs/FileUtils.java:96 | one read of the loop: -1 at the end of the input, otherwise between 1 and the array's length of bytes, taken from the front of the input into the front of the array |
| StreamCopy.ToBytes | Source/Core/src/ca/uqac/lif/fs/FileUtils.java:74-79 | toBytes returns all the remaining bytes of the stream |
| StoreCopy.KeptTrans | Source/Core/src/ca/uqac/lif/fs/FileUtils.java:115-149 | what one step of the copy keeps and the next step keeps, the two steps together keep |
| StoreCopy.KeptNarrow | Source/Core/src/ca/uqac/lif/fs/FileUtils.java:140-148 | what the copy of a subfolder may overwrite or create, the copy of its parent may overwrite or create too |
| StoreCopy.CreateFolderKept | Source/Core/src/ca/uqac/lif/fs/FileUtils.java:142 | the target's mkdir disturbs no existing file and no existing folder, and the only new folders are at the copied folder's destination or on the way to it |
| StoreCopy.CreateFileKept | Source/Core/src/ca/uqac/lif/fs/FileUtils.java:127 | the target's writeTo disturbs no existing file and no existing folder; the only new file is at the copied file's destination and the only new folders are on the way to it |
| StoreCopy.WriteContentsKept | Source/Core/src/ca/uqac/lif/fs/FileUtils.java:132 | closing the output stream changes only the file being copied and creates no file and no folder |
| StoreCopy.ChildKept | Source/Core/src/ca/uqac/lif/fs/FileUtils.java:118-148 | copying one entry never undoes the copy of a sibling entry |
| StoreCopy.FileCopied | Source/Core/src/ca/uqac/lif/fs/FileUtils.java:124-138 | a file written with identical bytes at its name is a complete copy of that entry |
| StoreCopy.Assemble | Source/Core/src/ca/uqac/lif/fs/FileUtils.java:115-149 | a folder whose every entry is copied is copied: every node below it is reproduced at the same relative path |
| StoreCopy.CompatibleKept | Source/Core/src/ca/uqac/lif/fs/FileUtils.java:115-149 | the copy's own steps never make a possible copy impossible |
| StoreCopy.CompatibleChild | Source/Core/src/ca/uqac/lif/fs/FileUtils.java:141-147 | once a subfolder's folder is in the target, the copy of that subfolder is possible whenever the copy of its parent was |
| StoreCopy.WriteToPasses | Source/Core/src/ca/uqac/lif/fs/FileUtils.java:127 | when the copy is possible, writeTo of each file of the copied folder opens a stream |
| StoreCopy.MkdirPasses | Source/Core/src/ca/uqac/lif/fs/FileUtils.java:142 | when the copy is possible, mkdir of each subfolder of the copied folder passes |
| StoreCopy.LocateSplit | Source/Core/src/ca/uqac/lif/fs/RamDisk.java:282-312 | following a path and then another is following their concatenation |
| StoreCopy.EmptyTargetCompatible | Source/Core/src/ca/uqac/lif/fs/FileUtils.java:115-149 | a copy into an empty target folder is always possible |
| StoreCopy.DestNarrow | Source/Core/src/ca/uqac/lif/fs/FileUtils.java:140-148 | a destination of a subfolder's copy is a destination of its parent's copy |
| StoreCopy.AboveNarrow | Source/Core/src/ca/uqac/lif/fs/FileUtils.java:140-148 | a folder on the way to a subfolder's destination is on the way to, or at, its parent's destination |
| StoreCopy.Advance | Source/Core/src/ca/uqac/lif/fs/FileUtils.java:118-148 | copying one more entry, by a step that writes only below it, extends the set of copied entries and keeps everything else |
| StoreCopy.SubfolderNames | Source/Core/src/ca/uqac/lif/fs/FileUtils.java:117-123 | the names of the folders set aside are never more than the entries |
| StoreCopy.FolderIndicesAt | Source/Core/src/ca/uqac/lif/fs/FileUtils.java:117-123 | each folder set aside is a directory entry, named as that entry |
| StoreCopy.FolderIndicesOrder | Source/Core/src/ca/uqac/lif/fs/FileUtils.java:117-123 | the folders set aside come in listing order, and no folder entry is missed |
| StoreCopy.FolderIndicesFacts | Source/Core/src/ca/uqac/lif/fs/FileUtils.java:117-123 | the folders set aside are exactly the directory entries, name by name, in listing order |
| StoreCopy.FilesStep | Source/Core/src/ca/uqac/lif/fs/FileUtils.java:118-139 | the first loop copies each file entry once, when it reaches it |
| StoreCopy.FoldersStep | Source/Core/src/ca/uqac/lif/fs/FileUtils.java:140-148 | the second loop copies each folder set aside once, and no entry the first loop copied |
| StoreCopy.AllEntries | Source/Core/src/ca/uqac/lif/fs/FileUtils.java:115-149 | after both loops every entry of the folder has been copied |
| StoreCopy.EntryAt | Source/Core/src/ca/uqac/lif/fs/FileUtils.java:118-126 | each listed entry is a valid name, resolves to its child, isDirectory tells its kind, and readFrom on a file gives its bytes |
| StoreCopy.ListingHere | Source/Core/src/ca/uqac/lif/fs/FileUtils.java:118 | from.ls() gives the names of the working folder, or "No such directory" when the working directory is not a folder |
| StoreCopy.FileStep | Source/Core/src/ca/uqac/lif/fs/FileUtils.java:126-137 | writeTo, copy and close reproduce the file at its name in the target, change only that file, and keep both directories |
| StoreCopy.MkdirStep | Source/Core/src/ca/uqac/lif/fs/FileUtils.java:142 | the target's mkdir(dir) leaves a folder at its working directory plus dir, disturbs nothing existing and creates only that folder and the folders on the way to it |
| StoreCopy.PushdStep | Source/Core/src/ca/uqac/lif/fs/FileUtils.java:143-144 | pushd(dir) on an open store pushes the working directory and appends dir |
| StoreCopy.CopyFile | Source/Core/src/ca/uqac/lif/fs/FileUtils.java:124-138 | the first loop's body reproduces the file entry in the target, keeps the target's directories and state, and passes whenever the copy is possible: no file on the way to the target directory and no destination path holding a node of the other kind |
| StoreCopy.CopySubfolder | Source/Core/src/ca/uqac/lif/fs/FileUtils.java:141-147 | the second loop's body reproduces the folder entry and all below it, creates nothing outside its destinations, restores both working directories, and passes when both stores are open and the copy of the parent is possible |
| StoreCopy.CopyFolder | Source/Core/src/ca/uqac/lif/fs/FileUtils.java:115-149 | the copy of the source's working folder reproduces every node below it in the target, overwrites no existing node, creates no file or folder outside the destination paths and the folders on the way to the target directory, leaves both working directories as they were, and passes when both stores are open and no destination path holds a node of the other kind |
| StoreCopy.CopyFiles | Source/Core/src/ca/uqac/lif/fs/FileUtils.java:118-139 | the first loop copies every file of the folder to the same name in the target, changing nothing else, sets aside exactly its subfolders, in listing order, and passes whenever the copy is possible |
| StoreCopy.CopyEntry | Source/Core/src/ca/uqac/lif/fs/FileUtils.java:120-138 | one entry of the first loop: a folder is reported as a folder and leaves the target untouched, a file is copied to the same name, the copy keeps everything copied so far, and it passes whenever the copy is possible |
| StoreCopy.CopySubfolders | Source/Core/src/ca/uqac/lif/fs/FileUtils.java:140-148 | the second loop copies every folder set aside, in order, after the files, and passes when both stores are open and the copy is possible |
| StoreCopy.Copy | Source/Core/src/ca/uqac/lif/fs/FileUtils.java:115-149 | copy(from, to) fails at the listing, changing nothing, when the source's working directory is not a folder; when it succeeds every file is reproduced with identical bytes, every folder as a folder, no existing node is overwritten, no node is created outside the destinations and the way to them, and both working directories are unchanged; it passes when both stores are open, the source's working directory is a folder and no destination path holds a node of the other kind |
| HardDisks.EntryValid | Source/Core/src/ca/uqac/lif/fs/HardDisk.java:342-350 | every host entry below the root has valid names and a directory as its parent |
| HardDisks.IsFileSpec | Source/Core/src/ca/uqac/lif/fs/HardDisk.java:302-306 | isFile holds iff something exists at the path and it is not a directory |
| HardDisks.SizeSpec | Source/Core/src/ca/uqac/lif/fs/HardDisk.java:309-320 | getSize fails iff nothing exists at the path; a file gives its length in bytes, a directory the size the host reports for it (the parameter dirSize) |
| HardDisks.ReadSpec | Source/Core/src/ca/uqac/lif/fs/HardDisk.java:144-164 | readFrom succeeds iff the store is open and the path is a file |
| HardDisks.KeyValid | Source/Core/src/ca/uqac/lif/fs/HardDisk.java:342-350 | with a normalised current directory every argument resolves to a normalised path of valid names |
| HardDisks.AddValid | Source/Core/src/ca/uqac/lif/fs/HardDisk.java:218-235 | adding an entry under a directory keeps the host tree well formed |
| HardDisks.ParentHasChild | Source/Core/src/ca/uqac/lif/fs/HardDisk.java:279-293 | an entry is listed by its parent directory |
| HardDisks.RemoveValid | Source/Core/src/ca/uqac/lif/fs/HardDisk.java:323-333 | removing a file or an empty directory keeps the host tree well formed |
| HardDisks.MkdirValid | Source/Core/src/ca/uqac/lif/fs/HardDisk.java:218-235 | mkdir keeps the store well formed |
| HardDisks.DeleteEntryValid | Source/Core/src/ca/uqac/lif/fs/HardDisk.java:323-333 | Files.deleteIfExists keeps the host tree well formed |
| HardDisks.WriteToValid | Source/Core/src/ca/uqac/lif/fs/HardDisk.java:123-141 | writeTo keeps the store well formed |
| HardDisks.CommitValid | Source/Core/src/ca/uqac/lif/fs/HardDisk.java:123-141 | the bytes an output stream writes keep the store well formed |
| HardDisks.ChdirValid | Source/Core/src/ca/uqac/lif/fs/HardDisk.java:167-181 | chdir and pushd keep the current directory and the stack normalised |
| HardDisks.PopdValid | Source/Core/src/ca/uqac/lif/fs/HardDisk.java:184-198 | popd keeps the current directory and the stack normalised |
| HardDisks.Lifecycle | Source/Core/src/ca/uqac/lif/fs/HardDisk.java:248-266 | open and close fail exactly on a closed store, a second close fails, and the lifecycle only moves forward |
| HardDisks.OpenChecks | Source/Core/src/ca/uqac/lif/fs/HardDisk.java:123-245 | writeTo, readFrom, chdir, popd, rmdir, mkdir, pwd and ls() fail unless the store is open; ls(path), isDirectory, isFile, getSize and delete answer the same in every state |
| HardDisks.PopdUndoesChdir | Source/Core/src/ca/uqac/lif/fs/HardDisk.java:167-198 | popd right after a chdir restores the state before it |
| HardDisks.PopdEmptyStack | Source/Core/src/ca/uqac/lif/fs/HardDisk.java:190-193 | popd on an empty stack moves to the root, whose pwd is "/" |
| HardDisks.GetPathShape | Source/Core/src/ca/uqac/lif/fs/HardDisk.java:342-350 | every argument resolves to an absolute path, so the host path is the root's string directly followed by a string starting with "/" |
| HardDisks.LsListsCwd | Source/Core/src/ca/uqac/lif/fs/HardDisk.java:269-276 | ls() lists the current directory's entries |
| HardDisks.MkdirFacts | Source/Core/src/ca/uqac/lif/fs/HardDisk.java:218-235 | mkdir succeeds iff something exists at the path or its parent is a directory; afterwards something exists there, a new entry is a directory, and an existing file is left alone |
| HardDisks.TopOf | Source/Core/src/ca/uqac/lif/fs/HardDisk.java:342-350 | every host entry has its first name as an entry too |
| HardDisks.EmptyRoot | Source/Core/src/ca/uqac/lif/fs/HardDisk.java:323-333 | a host tree whose root has no entries is empty, so deleting the root finds nothing to remove |
| HardDisks.DeleteFacts | Source/Core/src/ca/uqac/lif/fs/HardDisk.java:323-333 | delete fails iff the path is a directory with entries (the root included), changing nothing; otherwise nothing exists below the root at the path afterwards and nothing else changes, and a delete of the root passes only on an empty store and changes nothing |
| HardDisks.WriteThenRead | Source/Core/src/ca/uqac/lif/fs/HardDisk.java:123-164 | after writeTo and closing the stream, readFrom gives exactly the bytes written and getSize their number |
| HardDisks.WriteToFails | Source/Core/src/ca/uqac/lif/fs/HardDisk.java:123-141 | writeTo fails iff the store is not open, or the path is the root, a directory, or has no directory as parent; a failure changes nothing |
| HardDisks.LeaseFacts | Source/Core/src/ca/uqac/lif/fs/AbstractReifiableFileSystem.java:25-42 | acquireLease fails iff a lease is outstanding, changing nothing; a new token differs from all earlier ones, and only that token releases the lease |
| HardDisks.BypassFacts | Source/Core/src/ca/uqac/lif/fs/AbstractReifiableFileSystem.java:44-60 | checkNotReified fails iff a lease is outstanding and no bypass is open; beginBypass then endBypass restores the counter |
| HardDisks.HardDisk.constructor | Source/Core/src/ca/uqac/lif/fs/HardDisk.java:102-109 | new HardDisk(root): uninitialized, at the root "", with an empty stack and no lease |
| HardDisks.HardDisk.Default | Source/Core/src/ca/uqac/lif/fs/HardDisk.java:85-92 | new HardDisk(): the host's root as root, uninitialized, at the user directory |
| HardDisks.HardDisk.Open | Source/Core/src/ca/uqac/lif/fs/HardDisk.java:248-256 | open behaves as OpenSpec |
| HardDisks.HardDisk.Close | Source/Core/src/ca/uqac/lif/fs/HardDisk.java:259-266 | close behaves as CloseSpec |
| HardDisks.HardDisk.Chdir | Source/Core/src/ca/uqac/lif/fs/HardDisk.java:167-175 | chdir behaves as ChdirSpec |
| HardDisks.HardDisk.Pushd | Source/Core/src/ca/uqac/lif/fs/HardDisk.java:178-181 | pushd is chdir |
| HardDisks.HardDisk.Popd | Source/Core/src/ca/uqac/lif/fs/HardDisk.java:184-198 | popd behaves as PopdSpec |
| HardDisks.HardDisk.Pwd | Source/Core/src/ca/uqac/lif/fs/HardDisk.java:238-245 | pwd is the current directory's string, on an open store |
| HardDisks.HardDisk.Mkdir | Source/Core/src/ca/uqac/lif/fs/HardDisk.java:218-235 | mkdir behaves as MkdirSpec |
| HardDisks.HardDisk.DeleteIfExists | Source/Core/src/ca/uqac/lif/fs/HardDisk.java:323-333 | Files.deleteIfExists fails on a directory with entries (the root included); it passes on a missing entry or the empty root, changing nothing, and otherwise removes the entry and nothing else |
| HardDisks.HardDisk.Rmdir | Source/Core/src/ca/uqac/lif/fs/HardDisk.java:201-215 | rmdir fails on a closed store; otherwise it is Files.deleteIfExists on the resolved path, a file as well as a directory (DeleteEntry) |
| HardDisks.HardDisk.Delete | Source/Core/src/ca/uqac/lif/fs/HardDisk.java:323-333 | delete is Files.deleteIfExists on the resolved path in any state (DeleteEntry) |
| HardDisks.HardDisk.IsDirectory | Source/Core/src/ca/uqac/lif/fs/HardDisk.java:296-299 | isDirectory answers IsDirSpec |
| HardDisks.HardDisk.IsFile | Source/Core/src/ca/uqac/lif/fs/HardDisk.java:302-306 | isFile answers IsFileSpec |
| HardDisks.HardDisk.GetSize | Source/Core/src/ca/uqac/lif/fs/HardDisk.java:309-320 | getSize fails iff nothing exists at the path, gives a file's length and, for a directory, the size the host reports (dirSize) |
| HardDisks.HardDisk.List | Source/Core/src/ca/uqac/lif/fs/HardDisk.java:281-287 | Files.list of a directory returns each of its entries' names exactly once, and fails on anything else |
| HardDisks.HardDisk.LsPath | Source/Core/src/ca/uqac/lif/fs/HardDisk.java:279-293 | ls(path) lists exactly the names of ListSpec, each once, or fails |
| HardDisks.HardDisk.Ls | Source/Core/src/ca/uqac/lif/fs/HardDisk.java:269-276 | ls() lists exactly the names of LsSpec, each once, or fails with its error |
| HardDisks.HardDisk.WriteTo | Source/Core/src/ca/uqac/lif/fs/HardDisk.java:123-141 | writeTo changes the store as WriteToSpec and returns a fresh, empty stream bound to the file |
| HardDisks.HardDisk.ReadFrom | Source/Core/src/ca/uqac/lif/fs/HardDisk.java:144-164 | readFrom returns a fresh stream holding the file's bytes, or ReadSpec's error |
| HardDisks.HardDisk.AcquireLease | Source/Core/src/ca/uqac/lif/fs/AbstractReifiableFileSystem.java:25-33 | acquireLease behaves as AcquireSpec and leaves the store alone |
| HardDisks.HardDisk.ReleaseLease | Source/Core/src/ca/uqac/lif/fs/AbstractReifiableFileSystem.java:35-42 | releaseLease behaves as ReleaseSpec and leaves the store alone |
| HardDisks.HardDisk.CheckNotReified | Source/Core/src/ca/uqac/lif/fs/AbstractReifiableFileSystem.java:44-50 | checkNotReified answers CheckNotReifiedSpec |
| HardDisks.HardDisk.BeginBypass | Source/Core/src/ca/uqac/lif/fs/AbstractReifiableFileSystem.java:52-55 | beginBypass increments the bypass counter only |
| HardDisks.HardDisk.EndBypass | Source/Core/src/ca/uqac/lif/fs/AbstractReifiableFileSystem.java:57-60 | endBypass decrements the bypass counter only |
| HardDisks.HostOutputStream.constructor | Source/Core/src/ca/uqac/lif/fs/HardDisk.java:134 | a FileOutputStream on the entry starts with no bytes |
| HardDisks.HostOutputStream.Write | Source/Core/src/ca/uqac/lif/fs/HardDisk.java:134 | each byte written is appended to the stream's buffer, truncated to its low eight bits; the file sees the bytes at close |
| HardDisks.HostOutputStream.Close | Source/Core/src/ca/uqac/lif/fs/HardDisk.java:134 | closing the stream delivers every byte written to the file at once, if the entry is still a file |
| HardDisks.IdentityReified.constructor | Source/Core/src/ca/uqac/lif/fs/HardDisk.java:368-372 | the identity reification holds the disk and its token and starts open |
| HardDisks.IdentityReified.ToLocalPath | Source/Core/src/ca/uqac/lif/fs/HardDisk.java:382-388 | toLocalPath is the disk's host path for the argument, unless the reification is closed |
| HardDisks.IdentityReified.Commit | Source/Core/src/ca/uqac/lif/fs/HardDisk.java:390-395 | commit does nothing but fail once the reification is closed |
| HardDisks.IdentityReified.Release | Source/Core/src/ca/uqac/lif/fs/HardDisk.java:524-528 | release does nothing |
| HardDisks.IdentityReified.Close | Source/Core/src/ca/uqac/lif/fs/HardDisk.java:508-522 | the first close releases the lease with the reification's token; a later close does nothing; the store is never touched |
| HardDisks.IdentityReified.Open | Source/Core/src/ca/uqac/lif/fs/HardDisk.java:397-404 | open delegates to the disk's open, unless the reification is closed |
| HardDisks.IdentityReified.Ls | Source/Core/src/ca/uqac/lif/fs/HardDisk.java:406-411 | ls() delegates to the disk, unless the reification is closed |
| HardDisks.IdentityReified.LsPath | Source/Core/src/ca/uqac/lif/fs/HardDisk.java:413-418 | ls(path) delegates to the disk, unless the reification is closed |
| HardDisks.IdentityReified.IsDirectory | Source/Core/src/ca/uqac/lif/fs/HardDisk.java:420-425 | isDirectory delegates to the disk, unless the reification is closed |
| HardDisks.IdentityReified.IsFile | Source/Core/src/ca/uqac/lif/fs/HardDisk.java:427-432 | isFile delegates to the disk, unless the reification is closed |
| HardDisks.IdentityReified.GetSize | Source/Core/src/ca/uqac/lif/fs/HardDisk.java:434-439 | getSize delegates to the disk, unless the reification is closed |
| HardDisks.IdentityReified.WriteTo | Source/Core/src/ca/uqac/lif/fs/HardDisk.java:441-446 | writeTo delegates to the disk, unless the reification is closed |
| HardDisks.IdentityReified.ReadFrom | Source/Core/src/ca/uqac/lif/fs/HardDisk.java:448-453 | readFrom delegates to the disk, unless the reification is closed |
| HardDisks.IdentityReified.Chdir | Source/Core/src/ca/uqac/lif/fs/HardDisk.java:455-460 | chdir delegates to the disk, unless the reification is closed |
| HardDisks.IdentityReified.Pushd | Source/Core/src/ca/uqac/lif/fs/HardDisk.java:462-467 | pushd delegates to the disk, unless the reification is closed |
| HardDisks.IdentityReified.Popd | Source/Core/src/ca/uqac/lif/fs/HardDisk.java:469-474 | popd delegates to the disk, unless the reification is closed |
| HardDisks.IdentityReified.Mkdir | Source/Core/src/ca/uqac/lif/fs/HardDisk.java:476-481 | mkdir delegates to the disk, unless the reification is closed |
| HardDisks.IdentityReified.Rmdir | Source/Core/src/ca/uqac/lif/fs/HardDisk.java:483-488 | rmdir delegates to the disk, unless the reification is closed |
| HardDisks.IdentityReified.Delete | Source/Core/src/ca/uqac/lif/fs/HardDisk.java:490-495 | delete delegates to the disk, unless the reification is closed |
| HardDisks.IdentityReified.Pwd | Source/Core/src/ca/uqac/lif/fs/HardDisk.java:497-502 | pwd delegates to the disk, unless the reification is closed |
| ChrootStore.RootedPathJoins | Source/Core/src/ca/uqac/lif/fs/Chroot.java:126-134 | getPath is the root's string, a slash, and the working directory without its leading slash |
| ChrootStore.RootedPathOfStore | Source/Core/src/ca/uqac/lif/fs/Chroot.java:128-131 | over a RAM disk, whose pwd always starts with a slash, getPath is the root's string followed by pwd |
| ChrootStore.Chroot.constructor | Source/Core/src/ca/uqac/lif/fs/Chroot.java:47-51 | a chroot wraps the inner store in a filter and keeps the parsed root |
| ChrootStore.Chroot.GetPath | Source/Core/src/ca/uqac/lif/fs/Chroot.java:126-134 | getPath returns the root joined with the inner store's working directory, whatever its argument |
| ChrootStore.Chroot.Ls | Source/Core/src/ca/uqac/lif/fs/Chroot.java:53-57 | ls() lists the inner store at the redirected path |
| ChrootStore.Chroot.LsPath | Source/Core/src/ca/uqac/lif/fs/Chroot.java:59-63 | ls(path) lists the inner store at the redirected path |
| ChrootStore.Chroot.IsDirectory | Source/Core/src/ca/uqac/lif/fs/Chroot.java:65-69 | isDirectory asks the inner store about the redirected path |
| ChrootStore.Chroot.IsFile | Source/Core/src/ca/uqac/lif/fs/Chroot.java:71-75 | isFile asks the inner store about the redirected path |
| ChrootStore.Chroot.WriteTo | Source/Core/src/ca/uqac/lif/fs/Chroot.java:77-81 | writeTo opens the redirected path of the inner store for writing |
| ChrootStore.Chroot.ReadFrom | Source/Core/src/ca/uqac/lif/fs/Chroot.java:83-87 | readFrom reads the redirected path of the inner store |
| ChrootStore.Chroot.Chdir | Source/Core/src/ca/uqac/lif/fs/Chroot.java:89-93 | chdir moves the inner store to the redirected path |
| ChrootStore.Chroot.Pushd | Source/Core/src/ca/uqac/lif/fs/Chroot.java:95-99 | pushd pushes the inner store to the redirected path |
| ChrootStore.Chroot.Mkdir | Source/Core/src/ca/uqac/lif/fs/Chroot.java:101-105 | mkdir creates the redirected path in the inner store |
| ChrootStore.Chroot.Rmdir | Source/Core/src/ca/uqac/lif/fs/Chroot.java:107-111 | rmdir removes the redirected path of the inner store |
| ChrootStore.Chroot.Delete | Source/Core/src/ca/uqac/lif/fs/Chroot.java:113-117 | delete deletes the redirected path of the inner store |
| ChrootStore.ChrootListsItsRoot | Source/Core/src/ca/uqac/lif/fs/Chroot.java:53-57 | with the inner store at its root, a chroot on "/a" lists exactly what the inner store lists at "/a" |
| ChrootStore.SampleDefListing | Source/Core/srctest/ca/uqac/lif/fs/ChrootTest.java:30-44 | in the sample tree, "/def" holds "ghi" and the file "e", in that order |
| ChrootStore.ChrootSampleListing | Source/Core/srctest/ca/uqac/lif/fs/ChrootTest.java:30-44 | a chroot on "/def" of the sample tree lists "ghi" and "e" |
| Filters.FilterFileSystem.constructor | Source/Core/src/ca/uqac/lif/fs/FilterFileSystem.java:45-49 | the filter wraps the given store |
| Filters.FilterFileSystem.Open | Source/Core/src/ca/uqac/lif/fs/FilterFileSystem.java:52-56 | open is the inner store's open |
| Filters.FilterFileSystem.GetSize | Source/Core/src/ca/uqac/lif/fs/FilterFileSystem.java:58-62 | getSize is the inner store's answer |
| Filters.FilterFileSystem.Ls | Source/Core/src/ca/uqac/lif/fs/FilterFileSystem.java:64-68 | ls() is the inner store's listing |
| Filters.FilterFileSystem.LsPath | Source/Core/src/ca/uqac/lif/fs/FilterFileSystem.java:70-74 | ls(path) is the inner store's listing |
| Filters.FilterFileSystem.IsDirectory | Source/Core/src/ca/uqac/lif/fs/FilterFileSystem.java:76-80 | isDirectory is the inner store's answer |
| Filters.FilterFileSystem.IsFile | Source/Core/src/ca/uqac/lif/fs/FilterFileSystem.java:82-86 | isFile is the inner store's answer |
| Filters.FilterFileSystem.WriteTo | Source/Core/src/ca/uqac/lif/fs/FilterFileSystem.java:88-92 | writeTo is the inner store's writeTo |
| Filters.FilterFileSystem.ReadFrom | Source/Core/src/ca/uqac/lif/fs/FilterFileSystem.java:94-98 | readFrom is the inner store's readFrom |
| Filters.FilterFileSystem.Chdir | Source/Core/src/ca/uqac/lif/fs/FilterFileSystem.java:100-104 | chdir is the inner store's chdir |
| Filters.FilterFileSystem.Pushd | Source/Core/src/ca/uqac/lif/fs/FilterFileSystem.java:106-110 | pushd is the inner store's pushd |
| Filters.FilterFileSystem.Popd | Source/Core/src/ca/uqac/lif/fs/FilterFileSystem.java:112-116 | popd is the inner store's popd |
| Filters.FilterFileSystem.Mkdir | Source/Core/src/ca/uqac/lif/fs/FilterFileSystem.java:118-122 | mkdir is the inner store's mkdir |
| Filters.FilterFileSystem.Rmdir | Source/Core/src/ca/uqac/lif/fs/FilterFileSystem.java:124-128 | rmdir is the inner store's rmdir |
| Filters.FilterFileSystem.Delete | Source/Core/src/ca/uqac/lif/fs/FilterFileSystem.java:130-134 | delete is the inner store's delete |
| Filters.FilterFileSystem.Pwd | Source/Core/src/ca/uqac/lif/fs/FilterFileSystem.java:136-140 | pwd is the inner store's pwd |
| Filters.FilterFileSystem.Close | Source/Core/src/ca/uqac/lif/fs/FilterFileSystem.java:142-146 | close is the inner store's close |
| Filters.ReadOnlyFileSystem.constructor | Source/Core/src/ca/uqac/lif/fs/ReadOnlyFileSystem.java:33-36 | the read-only store wraps the given store in a filter |
| Filters.ReadOnlyFileSystem.Mkdir | Source/Core/src/ca/uqac/lif/fs/ReadOnlyFileSystem.java:39-43 | mkdir always fails as unauthorized and never reaches the inner store |
| Filters.ReadOnlyFileSystem.Rmdir | Source/Core/src/ca/uqac/lif/fs/ReadOnlyFileSystem.java:45-49 | rmdir always fails as unauthorized and never reaches the inner store |
| Filters.ReadOnlyFileSystem.Delete | Source/Core/src/ca/uqac/lif/fs/ReadOnlyFileSystem.java:51-55 | delete always fails as unauthorized and never reaches the inner store |
| Filters.ReadOnlyFileSystem.WriteTo | Source/Core/src/ca/uqac/lif/fs/ReadOnlyFileSystem.java:57-61 | writeTo always fails as unauthorized and never reaches the inner store |
| Filters.BufferedFileSystem.constructor | Source/Core/src/ca/uqac/lif/fs/BufferedFileSystem.java:40-43 | the buffered store wraps the given store in a filter |
| Filters.BufferedFileSystem.ReadFrom | Source/Core/src/ca/uqac/lif/fs/BufferedFileSystem.java:46-49 | readFrom returns a proxy that serves exactly the inner file's bytes, or the inner error |
| Filters.BufferedFileSystem.WriteTo | Source/Core/src/ca/uqac/lif/fs/BufferedFileSystem.java:52-55 | writeTo returns an empty proxy with the identity transform over the inner store's output stream |
| Filters.Base64FileSystem.constructor | Source/Core/src/ca/uqac/lif/fs/Base64FileSystem.java:38-41 | the base 64 store wraps the given store in a filter |
| Filters.Base64FileSystem.ReadFrom | Source/Core/src/ca/uqac/lif/fs/Base64FileSystem.java:44-47 | readFrom returns a proxy that serves the base 64 decoding of the inner file's bytes, or the inner error |
| Filters.Base64FileSystem.WriteTo | Source/Core/src/ca/uqac/lif/fs/Base64FileSystem.java:50-53 | writeTo returns an empty proxy that encodes in base 64 over the inner store's output stream |
| Filters.BufferedWriteThenRead | Source/Core/src/ca/uqac/lif/fs/BufferedFileSystem.java:46-55 | bytes written through the buffered store read back unchanged and are stored as they are |
| Filters.Base64WriteThenRead | Source/Core/src/ca/uqac/lif/fs/Base64FileSystem.java:44-108 | bytes written through the base 64 store read back unchanged, while the inner file holds their encoding, four characters per three bytes begun |
| Base64.Symbol | Source/Core/src/ca/uqac/lif/fs/Base64FileSystem.java:103-107 | each six-bit value has its own alphabet symbol, never the pad, and decodes back to that value |
| Base64.Value | Source/Core/src/ca/uqac/lif/fs/Base64FileSystem.java:76-80 | a character decodes to a six-bit value, or to -1 when it is not in the alphabet |
| Base64.SymbolValue | Source/Core/src/ca/uqac/lif/fs/Base64FileSystem.java:76-80 | every alphabet symbol is the symbol of its own value |
| Base64.Encode | Source/Core/src/ca/uqac/lif/fs/Base64FileSystem.java:103-107 | the encoding has four characters per three bytes begun, each an alphabet symbol or the pad |
| Base64.Decode | Source/Core/src/ca/uqac/lif/fs/Base64FileSystem.java:76-80 | decoding fails only as an illegal argument |
| Base64.DecodeLast | Source/Core/src/ca/uqac/lif/fs/Base64FileSystem.java:76-80 | a final padded group decodes to one or two bytes, or fails as an illegal argument |
| Base64.GroupRoundTrip | Source/Core/src/ca/uqac/lif/fs/Base64FileSystem.java:76-107 | three bytes split into four six-bit values and reassemble to the same three bytes |
| Base64.DecodeEncode | Source/Core/src/ca/uqac/lif/fs/Base64FileSystem.java:76-107 | decoding the encoding of any byte sequence gives back that sequence |
| Base64.DecodeShort | Source/Core/src/ca/uqac/lif/fs/Base64FileSystem.java:76-80 | the empty text decodes to no bytes, and a lone character is rejected |
| Base64.DecodeRejectsAfterPadding | Source/Core/src/ca/uqac/lif/fs/Base64FileSystem.java:76-80 | nothing may follow a padded group |
| Base64.Latin1 | Source/Memento/src/ca/uqac/lif/fs/memento/Base64Memento.java:52-62 | the bytes of a text of eight-bit characters are its characters' codes |
| Base64.FromLatin1 | Source/Memento/src/ca/uqac/lif/fs/memento/Base64Memento.java:52-56 | the text of bytes has one character per byte, with the byte's code |
| Base64.EncodeToString | Source/Memento/src/ca/uqac/lif/fs/memento/Base64Memento.java:52-56 | encodeToString has four characters per three bytes begun |
| Base64.EncodedText | Source/Memento/src/ca/uqac/lif/fs/memento/Base64Memento.java:52-56 | encodeToString uses only alphabet characters and "=" |
| Base64.DecodeEncodeString | Source/Memento/src/ca/uqac/lif/fs/memento/Base64Memento.java:52-62 | decoding the text encodeToString produced gives back the bytes |
| ByteStreams.LowByte | Source/Core/src/ca/uqac/lif/fs/ProxyOutputStream.java:62-66 | write(int) keeps the low eight bits of its argument, so a value in 0..255 is kept as it is |
| ByteStreams.Spliced | Source/Core/src/ca/uqac/lif/fs/ProxyInputStream.java:100-105 | read(b, off, len) overwrites exactly the len cells of b from off and leaves the others |
| ByteStreams.ByteInputStream.constructor | Source/Core/src/ca/uqac/lif/fs/ProxyInputStream.java:115 | a new byte array input stream serves its whole contents |
| ByteStreams.ByteInputStream.Read | Source/Core/src/ca/uqac/lif/fs/ProxyInputStream.java:86-91 | read() returns the next byte and consumes it, or -1 at the end |
| ByteStreams.ByteInputStream.ReadRange | Source/Core/src/ca/uqac/lif/fs/ProxyInputStream.java:100-105 | read(b, off, len) rejects a bad range, returns -1 at the end, and otherwise copies the first min(len, remaining) bytes into b at off and consumes them |
| ByteStreams.ByteOutputStream.constructor | Source/Core/src/ca/uqac/lif/fs/ProxyOutputStream.java:59 | a new byte array output stream holds no bytes |
| ByteStreams.ByteOutputStream.Write | Source/Core/src/ca/uqac/lif/fs/ProxyOutputStream.java:62-66 | write(int) appends one byte |
| ByteStreams.ByteOutputStream.WriteRange | Source/Core/src/ca/uqac/lif/fs/ProxyOutputStream.java:74-78 | write(b, off, len) appends b[off..off+len], or rejects a bad range and appends nothing |
| ProxyStreams.ProxyOutputStream.constructor | Source/Core/src/ca/uqac/lif/fs/ProxyOutputStream.java:55-60 | the proxy wraps the output stream with an empty buffer of its own |
| ProxyStreams.ProxyOutputStream.Write | Source/Core/src/ca/uqac/lif/fs/ProxyOutputStream.java:62-66 | write(int) appends to the proxy's buffer only |
| ProxyStreams.ProxyOutputStream.WriteRange | Source/Core/src/ca/uqac/lif/fs/ProxyOutputStream.java:68-78 | write(b, off, len) appends the range to the proxy's buffer only |
| ProxyStreams.ProxyOutputStream.Close | Source/Core/src/ca/uqac/lif/fs/ProxyOutputStream.java:80-86 | close writes transform(buffer) to the wrapped stream and closes it, which stores those bytes in the file |
| ProxyStreams.ProxyInputStream.constructor | Source/Core/src/ca/uqac/lif/fs/ProxyInputStream.java:59-63 | the proxy wraps the input stream with no buffer yet, so what it will serve is transform of the input's remaining bytes |
| ProxyStreams.ProxyInputStream.CheckState | Source/Core/src/ca/uqac/lif/fs/ProxyInputStream.java:107-122 | the first call drains the input, transforms it and buffers the result (a failing transform leaves no buffer); later calls do nothing |
| ProxyStreams.ProxyInputStream.Read | Source/Core/src/ca/uqac/lif/fs/ProxyInputStream.java:86-122 | read() serves the next byte of the transformed contents, or -1 at the end; when the transform fails it returns that failure, leaves no buffer and the wrapped stream drained, so the next read serves the transform of nothing |
| ProxyStreams.ProxyInputStream.ReadRange | Source/Core/src/ca/uqac/lif/fs/ProxyInputStream.java:100-122 | read(b, off, len) serves up to len bytes of the transformed contents into b, rejects a bad range, and gives -1 at the end; when the transform fails it returns that failure with b untouched, no buffer and the wrapped stream drained, so the next read serves the transform of nothing |
| ProxyStreams.ProxyInputStream.Close | Source/Core/src/ca/uqac/lif/fs/ProxyInputStream.java:79-84 | close fails on the missing buffer before the first read |
| Mementos.Cell.constructor | Source/Memento/src/ca/uqac/lif/fs/memento/Memento.java:28-43 | an inner memento holds a value, and may be one that fails |
| Mementos.Cell.Read | Source/Memento/src/ca/uqac/lif/fs/memento/Memento.java:35 | read returns the value held, or the memento's failure |
| Mementos.Cell.Write | Source/Memento/src/ca/uqac/lif/fs/memento/Memento.java:42 | write replaces the value held, or fails and changes nothing |
| Mementos.FilterMemento.constructor | Source/Memento/src/ca/uqac/lif/fs/memento/FilterMemento.java:41-45 | a filter memento keeps the inner memento it delegates to |
| Mementos.FilterMemento.Read | Source/Memento/src/ca/uqac/lif/fs/memento/FilterMemento.java:47-52 | read is transformTo of the inner memento's value; the inner failure propagates |
| Mementos.FilterMemento.Write | Source/Memento/src/ca/uqac/lif/fs/memento/FilterMemento.java:54-59 | write stores transformFrom of the value in the inner memento; the inner failure propagates |
| Mementos.TransformFrom | Source/Memento/src/ca/uqac/lif/fs/memento/Base64Memento.java:52-56 | the stored text has four characters per three bytes begun, all from the base 64 alphabet or "=" |
| Mementos.TransformTo | Source/Memento/src/ca/uqac/lif/fs/memento/Base64Memento.java:58-62 | decoding malformed text fails as an illegal argument |
| Mementos.TransformRoundTrip | Source/Memento/src/ca/uqac/lif/fs/memento/Base64Memento.java:52-62 | transformTo(transformFrom(b)) is b for every byte array |
| Mementos.NewBase64Memento | Source/Memento/src/ca/uqac/lif/fs/memento/Base64Memento.java:47-50 | a base 64 memento is a filter memento with the two base 64 transforms |
| Mementos.Base64WriteThenRead | Source/Memento/src/ca/uqac/lif/fs/memento/Base64Memento.java:47-62 | a value written through a base 64 memento reads back unchanged while the inner memento holds its encoded text; an inner failure fails both calls |
| Noop.Session | Source/Core/src/ca/uqac/lif/fs/NoopFileSystem.java:43-139 | a session of calls gets exactly one reply per call |
| Noop.Answer | Source/Core/src/ca/uqac/lif/fs/NoopFileSystem.java:44-138 | no call fails, and every reply carries nothing: listings are empty, flags false, sizes 0, streams without bytes |
| Noop.Answers | Source/Core/src/ca/uqac/lif/fs/NoopFileSystem.java:43-151 | every call succeeds: listings are empty, isDirectory and isFile are false, getSize is 0, streams carry nothing, pwd is "/", and the commands do nothing |
| Noop.SessionAnswers | Source/Core/src/ca/uqac/lif/fs/NoopFileSystem.java:43-139 | every reply of a session is the fixed answer to its call, and none fails |
| Noop.SessionSplits | Source/Core/src/ca/uqac/lif/fs/NoopFileSystem.java:43-139 | the store keeps no state: the replies to two sessions in a row are the replies to each |
| MirrorStore.Apply | Source/Core/src/ca/uqac/lif/fs/Mirror.java:146-197 | every command a mirror forwards keeps each replica well formed |
| MirrorStore.Results | Source/Core/src/ca/uqac/lif/fs/Mirror.java:146-197 | the outcome each replica would give is the command applied to that replica alone |
| MirrorStore.FirstFail | Source/Core/src/ca/uqac/lif/fs/Mirror.java:57-60 | the first failing replica comes after replicas that all succeeded |
| MirrorStore.ChainStops | Source/Core/src/ca/uqac/lif/fs/Mirror.java:57-60 | the fan-out loop succeeds iff no replica fails; at the first failure it stops with that failure, replicas before it changed and replicas after it untouched |
| MirrorStore.ChainAfterFailure | Source/Core/src/ca/uqac/lif/fs/Mirror.java:57-60 | once a replica fails, no later replica is touched |
| MirrorStore.ChainStep | Source/Core/src/ca/uqac/lif/fs/Mirror.java:57-60 | after replicas that all succeeded, one more replica adds its own outcome and new state |
| MirrorStore.FanOut | Source/Core/src/ca/uqac/lif/fs/Mirror.java:146-197 | forwarding a command to every replica keeps them all well formed |
| MirrorStore.FirstFailure | Source/Core/src/ca/uqac/lif/fs/Mirror.java:146-197 | the replica where a forwarded command first fails comes after replicas that all succeeded |
| MirrorStore.FanOutStops | Source/Core/src/ca/uqac/lif/fs/Mirror.java:146-197 | a forwarded command succeeds iff it succeeds on every replica; the first failure is the mirror's failure, later replicas untouched |
| MirrorStore.CloseAll | Source/Core/src/ca/uqac/lif/fs/Mirror.java:255-263 | closing the mirror stream commits the same bytes to the file opened on each replica |
| MirrorStore.MirrorWriteThenRead | Source/Core/src/ca/uqac/lif/fs/Mirror.java:127-130 | after writeTo succeeds on every replica and the stream is closed, every replica holds exactly the bytes written |
| MirrorStore.ReplicaWriteThenRead | Source/Core/src/ca/uqac/lif/fs/Mirror.java:224-261 | on one replica, writeTo then close leaves the file holding exactly the bytes written |
| MirrorStore.AddNewUnion | Source/Core/src/ca/uqac/lif/fs/Mirror.java:76-82 | adding the names not yet present keeps the earlier names in order, holds exactly the union, and keeps names distinct |
| MirrorStore.Listings | Source/Core/src/ca/uqac/lif/fs/Mirror.java:73-75 | the mirror asks every replica for its listing of the path |
| MirrorStore.MergeOk | Source/Core/src/ca/uqac/lif/fs/Mirror.java:70-85 | the merged listing succeeds iff every replica's listing does; otherwise it is the first replica error |
| MirrorStore.MergeMembers | Source/Core/src/ca/uqac/lif/fs/Mirror.java:70-85 | the merged listing has no duplicates and holds exactly the names some replica lists |
| MirrorStore.MergePrefix | Source/Core/src/ca/uqac/lif/fs/Mirror.java:70-85 | what the first replicas list is already in the merged listing |
| MirrorStore.MergeAfterError | Source/Core/src/ca/uqac/lif/fs/Mirror.java:70-85 | a replica error ends the merge with that error |
| MirrorStore.MergeStep | Source/Core/src/ca/uqac/lif/fs/Mirror.java:72-83 | one more replica either ends the merge with its error or adds its new names |
| MirrorStore.AddNames | Source/Core/src/ca/uqac/lif/fs/Mirror.java:76-82 | the inner loop adds each name the listing does not hold yet |
| MirrorStore.FirstFile | Source/Core/src/ca/uqac/lif/fs/Mirror.java:116-122 | the first replica where the path is a file, with no file before it |
| MirrorStore.FirstFileAt | Source/Core/src/ca/uqac/lif/fs/Mirror.java:116-122 | the first replica holding the file is the one the search loop stops at |
| MirrorStore.Perform | Source/Core/src/ca/uqac/lif/fs/Mirror.java:146-197 | forwarding one command to one replica changes it as the command says |
| MirrorStore.Mirror.constructor | Source/Core/src/ca/uqac/lif/fs/Mirror.java:48-52 | the mirror keeps the given replicas, in order |
| MirrorStore.Mirror.RunAt | Source/Core/src/ca/uqac/lif/fs/Mirror.java:57-60 | forwarding the command to replica i extends the fan-out by that replica |
| MirrorStore.Mirror.Run | Source/Core/src/ca/uqac/lif/fs/Mirror.java:146-197 | the forwarding loop applies the command to the replicas in order and stops at the first failure |
| MirrorStore.Mirror.Open | Source/Core/src/ca/uqac/lif/fs/Mirror.java:54-61 | open opens every replica in order, stopping at the first failure |
| MirrorStore.Mirror.Close | Source/Core/src/ca/uqac/lif/fs/Mirror.java:205-212 | close closes every replica in order, stopping at the first failure |
| MirrorStore.Mirror.Chdir | Source/Core/src/ca/uqac/lif/fs/Mirror.java:145-152 | chdir moves every replica, stopping at the first failure |
| MirrorStore.Mirror.Pushd | Source/Core/src/ca/uqac/lif/fs/Mirror.java:154-161 | pushd pushes on every replica, stopping at the first failure |
| MirrorStore.Mirror.Popd | Source/Core/src/ca/uqac/lif/fs/Mirror.java:163-170 | popd pops on every replica, stopping at the first failure |
| MirrorStore.Mirror.Mkdir | Source/Core/src/ca/uqac/lif/fs/Mirror.java:172-179 | mkdir creates the folder on every replica, stopping at the first failure |
| MirrorStore.Mirror.Rmdir | Source/Core/src/ca/uqac/lif/fs/Mirror.java:181-188 | rmdir removes the folder on every replica, stopping at the first failure |
| MirrorStore.Mirror.Delete | Source/Core/src/ca/uqac/lif/fs/Mirror.java:190-197 | delete removes the file on every replica, stopping at the first failure |
| MirrorStore.Mirror.LsPath | Source/Core/src/ca/uqac/lif/fs/Mirror.java:69-85 | ls(path) is the merge of every replica's listing |
| MirrorStore.Mirror.Ls | Source/Core/src/ca/uqac/lif/fs/Mirror.java:63-67 | ls() lists the first replica's working directory on every replica, and fails without replicas |
| MirrorStore.Mirror.Pwd | Source/Core/src/ca/uqac/lif/fs/Mirror.java:199-203 | pwd is the first replica's, and fails without replicas |
| MirrorStore.Mirror.IsDirectory | Source/Core/src/ca/uqac/lif/fs/Mirror.java:87-98 | isDirectory holds iff it holds on some replica |
| MirrorStore.Mirror.IsFile | Source/Core/src/ca/uqac/lif/fs/Mirror.java:100-111 | isFile holds iff it holds on some replica |
| MirrorStore.Mirror.FindFile | Source/Core/src/ca/uqac/lif/fs/Mirror.java:116-122 | the search loop stops at the first replica holding the file |
| MirrorStore.Mirror.GetSize | Source/Core/src/ca/uqac/lif/fs/Mirror.java:113-124 | getSize is the size on the first replica holding the file, and fails as "file not found" when none does |
| MirrorStore.Mirror.ReadFrom | Source/Core/src/ca/uqac/lif/fs/Mirror.java:132-143 | readFrom reads from the first replica holding the file, and fails as "file not found" when none does |
| MirrorStore.Mirror.OpenAt | Source/Core/src/ca/uqac/lif/fs/Mirror.java:224 | opening replica i for writing extends the fan-out by that replica |
| MirrorStore.Mirror.WriteAt | Source/Core/src/ca/uqac/lif/fs/Mirror.java:221-225 | the constructor's loop opens one stream per replica, in order, stopping at the first failure |
| MirrorStore.Mirror.OpenStreams | Source/Core/src/ca/uqac/lif/fs/Mirror.java:218-226 | the constructor's loop calls writeTo on each replica in order, stopping at the first failure; on success it holds one stream per replica, each bound to its replica and with its own buffer |
| MirrorStore.Mirror.WriteTo | Source/Core/src/ca/uqac/lif/fs/Mirror.java:126-130 | writeTo opens the file on every replica in order, stopping at the first failure; on success the stream holds one fresh stream per replica |
| MirrorStore.MirrorOutputStream.Written | Source/Core/src/ca/uqac/lif/fs/Mirror.java:216 | what each replica's stream holds so far |
| MirrorStore.MirrorOutputStream.DiskModels | Source/Core/src/ca/uqac/lif/fs/Mirror.java:216 | the replica behind each stream |
| MirrorStore.MirrorOutputStream.Commits | Source/Core/src/ca/uqac/lif/fs/Mirror.java:255-263 | closing each stream commits what it holds to its file |
| MirrorStore.MirrorOutputStream.constructor | Source/Core/src/ca/uqac/lif/fs/Mirror.java:218-226 | the mirror stream holds the replicas' streams, in order |
| MirrorStore.MirrorOutputStream.Write | Source/Core/src/ca/uqac/lif/fs/Mirror.java:228-235 | write(int) appends the byte to every replica's stream |
| MirrorStore.MirrorOutputStream.WriteRange | Source/Core/src/ca/uqac/lif/fs/Mirror.java:237-253 | write(b, off, len) appends the same range to every replica's stream, or rejects a bad range and appends nothing |
| MirrorStore.MirrorOutputStream.CloseAt | Source/Core/src/ca/uqac/lif/fs/Mirror.java:259-262 | closing stream i commits its bytes to replica i |
| MirrorStore.MirrorOutputStream.Close | Source/Core/src/ca/uqac/lif/fs/Mirror.java:255-263 | close commits every stream to its replica in order, stopping at the first failure |
| Throttle.TruncReal | Source/Core/src/ca/uqac/lif/fs/ThrottledOutputStream.java:104 | the cast to long rounds toward zero: the largest integer not above a non-negative value, the smallest not below a negative one |
| Throttle.SleepTime | Source/Core/src/ca/uqac/lif/fs/ThrottledOutputStream.java:90-113 | the sleep time of the output stream is never negative |
| Throttle.ReadSleepTime | Source/Core/src/ca/uqac/lif/fs/ThrottledInputStream.java:108-127 | the sleep time of the input stream, for any elapsed time (the positive-time assertion is off by default in Java), is never negative |
| Throttle.Quotient | Source/Core/src/ca/uqac/lif/fs/ThrottledOutputStream.java:104 | the truncated real computation equals the integer one, bytes*1000 div rate minus elapsed, whenever it is positive |
| Throttle.SleepTimeExact | Source/Core/src/ca/uqac/lif/fs/ThrottledOutputStream.java:90-113 | the sleep time is bytes*1000 div rate minus the time elapsed, or 0 when that is not positive |
| Throttle.SleepRestoresRate | Source/Core/src/ca/uqac/lif/fs/ThrottledOutputStream.java:115-127 | after sleeping, the average rate over the elapsed time plus the sleep is at most the limit, to within one millisecond |
| Throttle.ReadSleepTimeAgrees | Source/Core/src/ca/uqac/lif/fs/ThrottledInputStream.java:108-127 | for any non-zero elapsed time, the input stream sleeps as long as the output stream would |
| Throttle.ReadSleepTimeAtStart | Source/Core/src/ca/uqac/lif/fs/ThrottledInputStream.java:108-127 | at zero elapsed time, with bytes read and a positive rate, the input stream sleeps (bytes * 1000) / rate milliseconds while the output stream sleeps none |
| Throttle.NoSleep | Source/Core/src/ca/uqac/lif/fs/ThrottledOutputStream.java:92-100 | no sleep when nothing was transferred, when the rate is not positive, or when no time elapsed |
| Throttle.BytesPerSec | Source/Core/src/ca/uqac/lif/fs/ThrottledOutputStream.java:143-154 | getBytesPerSec is the count when less than a second elapsed, and otherwise the count divided by whole seconds, rounded down |
| Throttle.CapBoundary | Source/Core/src/ca/uqac/lif/fs/ThrottledOutputStream.java:183 | a negative cap never stops a write; otherwise a write fails exactly once the count exceeds the cap |
| Throttle.ThrottledOutputStream.constructor | Source/Core/src/ca/uqac/lif/fs/ThrottledOutputStream.java:62-67 | a new stream has written nothing, slept for no time, and has no cap |
| Throttle.ThrottledOutputStream.SetMaxBytesToWrite | Source/Core/src/ca/uqac/lif/fs/ThrottledOutputStream.java:74-77 | setMaxBytesToWrite sets the cap and nothing else |
| Throttle.ThrottledOutputStream.GetBytesPerSec | Source/Core/src/ca/uqac/lif/fs/ThrottledOutputStream.java:143-154 | getBytesPerSec answers BytesPerSec of the bytes written |
| Throttle.ThrottledOutputStream.Write | Source/Core/src/ca/uqac/lif/fs/ThrottledOutputStream.java:177-187 | write(int) sleeps first, then passes the byte on and counts it, and fails after writing when the count exceeds the cap |
| Throttle.ThrottledOutputStream.WriteAll | Source/Core/src/ca/uqac/lif/fs/ThrottledOutputStream.java:189-199 | write(b) sleeps first, then passes all of b on and counts it, and fails after writing when the count exceeds the cap |
| Throttle.ThrottledOutputStream.WriteRange | Source/Core/src/ca/uqac/lif/fs/ThrottledOutputStream.java:201-211 | write(b, off, len) sleeps first, then passes the range on and counts len; a bad range fails without counting |
| Throttle.ThrottledOutputStream.Close | Source/Core/src/ca/uqac/lif/fs/ThrottledOutputStream.java:79-83 | close closes the raw stream, which stores its bytes in the file |
| Throttle.ThrottledInputStream.constructor | Source/Core/src/ca/uqac/lif/fs/ThrottledInputStream.java:57-62 | a new stream has read nothing and slept for no time |
| Throttle.ThrottledInputStream.GetBytesPerSec | Source/Core/src/ca/uqac/lif/fs/ThrottledInputStream.java:156-167 | getBytesPerSec answers BytesPerSec of the bytes read |
| Throttle.ThrottledInputStream.Read | Source/Core/src/ca/uqac/lif/fs/ThrottledInputStream.java:71-79 | read() sleeps first, then returns the next raw byte and counts it, or -1 at the end without counting |
| Throttle.ThrottledInputStream.ReadRange | Source/Core/src/ca/uqac/lif/fs/ThrottledInputStream.java:92-101 | read(b, off, len) sleeps first, then copies up to len raw bytes into b and counts them; -1 and a bad range count nothing |
| Throttle.ThrottledInputStream.ReadAll | Source/Core/src/ca/uqac/lif/fs/ThrottledInputStream.java:81-90 | read(b) sleeps first, then copies up to b.length raw bytes into b and counts them |
| Throttle.Limit | Source/Core/src/ca/uqac/lif/fs/ThrottledFileSystem.java:94-107 | a negative limit reads as Long.MAX_VALUE, any other as itself |
| Throttle.WriteCloseBytes | Source/Core/src/ca/uqac/lif/fs/ThrottledFileSystem.java:155-160 | writing bytes to a new stream and closing it changes the bytes held by the store by those written minus the size of the file replaced |
| Throttle.DeleteBytes | Source/Core/src/ca/uqac/lif/fs/ThrottledFileSystem.java:134-138 | deleting a file removes the size getSize reported from the bytes held by the store |
| Throttle.CapEnforcesLimit | Source/Core/src/ca/uqac/lif/fs/ThrottledFileSystem.java:110-123 | with an accurate running total and a non-negative cap, the stream fails exactly when closing it would take the store past its maximum size |
| Throttle.NegativeCapUnlimited | Source/Core/src/ca/uqac/lif/fs/ThrottledFileSystem.java:120-121 | the cap is negative, and so no cap, exactly when the other files already hold more than the maximum size |
| Throttle.WriteKeepsTotal | Source/Core/src/ca/uqac/lif/fs/ThrottledFileSystem.java:155-160 | when the running total is accurate, what close adds to it is exactly the change in bytes the write makes |
| Throttle.ThrottledFileSystem.constructor | Source/Core/src/ca/uqac/lif/fs/ThrottledFileSystem.java:55-68 | the running total starts as the size of the store when getSize succeeds and 0 otherwise; both limits start unset |
| Throttle.ThrottledFileSystem.SetSpeedLimit | Source/Core/src/ca/uqac/lif/fs/ThrottledFileSystem.java:75-78 | setSpeedLimit sets the speed limit only |
| Throttle.ThrottledFileSystem.SetSizeLimit | Source/Core/src/ca/uqac/lif/fs/ThrottledFileSystem.java:84-87 | setSizeLimit sets the size limit only |
| Throttle.ThrottledFileSystem.GetMaxSize | Source/Core/src/ca/uqac/lif/fs/ThrottledFileSystem.java:94-97 | getMaxSize is never negative: the size limit when one is set, Long.MAX_VALUE when it is negative |
| Throttle.ThrottledFileSystem.GetMaxSpeed | Source/Core/src/ca/uqac/lif/fs/ThrottledFileSystem.java:104-107 | getMaxSpeed is never negative: the speed limit when one is set, Long.MAX_VALUE when it is negative |
| Throttle.ThrottledFileSystem.WriteTo | Source/Core/src/ca/uqac/lif/fs/ThrottledFileSystem.java:109-123 | writeTo reads the size of the file it replaces, opens the inner stream, and wraps it at the maximum speed, capped at the room left in the store; the total stays accurate |
| Throttle.ThrottledFileSystem.ReadFrom | Source/Core/src/ca/uqac/lif/fs/ThrottledFileSystem.java:125-131 | readFrom wraps the inner stream in a throttled stream at the maximum speed |
| Throttle.ThrottledFileSystem.Delete | Source/Core/src/ca/uqac/lif/fs/ThrottledFileSystem.java:133-138 | delete takes the file's size from the running total, then deletes; a path getSize rejects fails first and changes nothing; the total stays accurate |
| Throttle.CappedOutputStream.constructor | Source/Core/src/ca/uqac/lif/fs/ThrottledFileSystem.java:148-152 | the capped stream is a fresh throttled stream over the raw stream that remembers the size of the file it replaces |
| Throttle.CappedOutputStream.Close | Source/Core/src/ca/uqac/lif/fs/ThrottledFileSystem.java:154-160 | close stores the bytes and, on success, adds the bytes written minus the replaced size to the owner's running total |
| FlatNames.EncodeChars | Source/Core/src/ca/uqac/lif/fs/FlatFileSystem.java:138 | getBytes gives one byte per character |
| FlatNames.DecodeChars | Source/Core/src/ca/uqac/lif/fs/FlatFileSystem.java:166 | new String(bytes) gives one character per byte |
| FlatNames.CharsRoundTrip | Source/Core/src/ca/uqac/lif/fs/FlatFileSystem.java:138-166 | decoding the bytes of a text of eight-bit characters gives back the text |
| FlatNames.HexOf | Source/Core/src/ca/uqac/lif/fs/FlatFileSystem.java:139-140 | the hexadecimal digits of the bytes, two per byte |
| FlatNames.StripZeros | Source/Core/src/ca/uqac/lif/fs/FlatFileSystem.java:139-140 | printing the number drops leading zeros, but keeps at least one digit |
| FlatNames.DigitValue | Source/Core/src/ca/uqac/lif/fs/FlatFileSystem.java:164 | a character is a hexadecimal digit value, or -1 |
| FlatNames.PairValue | Source/Core/src/ca/uqac/lif/fs/FlatFileSystem.java:164 | Integer.valueOf of two characters in base 16: a value from -15 to 255, or nothing |
| FlatNames.DecodePairs | Source/Core/src/ca/uqac/lif/fs/FlatFileSystem.java:161-165 | decoding the pairs succeeds iff every pair is a number, gives one byte per pair, and otherwise fails with a number format error |
| FlatNames.FromFlat | Source/Core/src/ca/uqac/lif/fs/FlatFileSystem.java:149-172 | fromFlatFilename fails only on an odd length or a malformed pair, and an absolute name gives a normalised path |
| FlatNames.DecodeName | Source/Core/src/ca/uqac/lif/fs/FlatFileSystem.java:161-165 | the decoding loop fills the array as DecodePairs says |
| FlatNames.StripZerosSuffix | Source/Core/src/ca/uqac/lif/fs/FlatFileSystem.java:139-140 | dropping leading zeros keeps a name of hexadecimal digits |
| FlatNames.ToFlatHex | Source/Core/src/ca/uqac/lif/fs/FlatFileSystem.java:136-141 | a flat name is a non-empty run of hexadecimal digits, so a valid name for the inner store |
| FlatNames.DigitRoundTrip | Source/Core/src/ca/uqac/lif/fs/FlatFileSystem.java:140-164 | each printed digit reads back as its value |
| FlatNames.PairRoundTrip | Source/Core/src/ca/uqac/lif/fs/FlatFileSystem.java:140-164 | each printed pair reads back as its byte |
| FlatNames.DecodeHex | Source/Core/src/ca/uqac/lif/fs/FlatFileSystem.java:140-165 | decoding the digits of any bytes gives back the bytes |
| FlatNames.NoLeadingZero | Source/Core/src/ca/uqac/lif/fs/FlatFileSystem.java:136-141 | the printed form of an absolute path starts with "/", byte 2f, so no digit is dropped |
| FlatNames.ParseExtraSlash | Source/Core/src/ca/uqac/lif/fs/FlatFileSystem.java:167-171 | parsing "/" followed by a normalised absolute path gives that path back |
| FlatNames.FlatRoundTrip | Source/Core/src/ca/uqac/lif/fs/FlatFileSystem.java:136-172 | fromFlatFilename(toFlatFilename(p)) is p for every normalised absolute path of eight-bit characters, with or without a leading slash |
| FlatNames.FlatInjective | Source/Core/src/ca/uqac/lif/fs/FlatFileSystem.java:136-141 | two different such paths never share a flat name |
| FlatNames.OddNameRefused | Source/Core/src/ca/uqac/lif/fs/FlatFileSystem.java:157-160 | a name of odd length is refused as invalid, with or without a leading slash |
| FlatNames.HexFoo | Source/Core/srctest/ca/uqac/lif/fs/FlatFileSystemTest.java:30-34 | the digits of "foo" are 666f6f |
| FlatNames.HexFooBar | Source/Core/srctest/ca/uqac/lif/fs/FlatFileSystemTest.java:36-41 | the digits of "/foo/bar.txt" are 2f666f6f2f6261722e747874 |
| FlatNames.HexAppend | Source/Core/src/ca/uqac/lif/fs/FlatFileSystem.java:139-140 | the digits of two byte sequences in a row are the digits of each |
| FlatNames.FlatFoo | Source/Core/srctest/ca/uqac/lif/fs/FlatFileSystemTest.java:30-34 | toFlatFilename of the relative path "foo" is 666f6f |
| FlatNames.FlatFooBar | Source/Core/srctest/ca/uqac/lif/fs/FlatFileSystemTest.java:36-48 | toFlatFilename of "/foo/bar.txt" is 2f666f6f2f6261722e747874, and that name decodes back to the path |
| FlatNames.FooBarPrinted | Source/Core/srctest/ca/uqac/lif/fs/FlatFileSystemTest.java:36-41 | the path prints as "/foo/bar.txt", whose bytes are those of the expected digits |
| FlatStore.CreateNodeSpec | Source/Core/src/ca/uqac/lif/fs/RamDisk.java:319-370 | createFileNode leaves the root a folder |
| FlatStore.CreateNodeValid | Source/Core/src/ca/uqac/lif/fs/RamDisk.java:319-370 | createFileNode keeps the tree well formed |
| FlatStore.CreateNodeFacts | Source/Core/src/ca/uqac/lif/fs/RamDisk.java:319-370 | createFileNode succeeds iff no file lies on the way and no folder sits at the path; then a file is at the path and every earlier file stays |
| FlatStore.FlatPath | Source/Core/src/ca/uqac/lif/fs/FlatFileSystem.java:190-194 | a listed absolute name that decodes gives a normalised path |
| FlatStore.Decoded | Source/Core/src/ca/uqac/lif/fs/FlatFileSystem.java:190-194 | each visited name is decoded, in order |
| FlatStore.DecodedValid | Source/Core/src/ca/uqac/lif/fs/FlatFileSystem.java:190-194 | every path decoded from a visited name has valid names |
| FlatStore.Rebuild | Source/Core/src/ca/uqac/lif/fs/FlatFileSystem.java:69-73 | the rebuilt tree's root is a folder |
| FlatStore.RebuildStops | Source/Core/src/ca/uqac/lif/fs/FlatFileSystem.java:69-77 | the first failure stops the rebuilding; later names are not looked at |
| FlatStore.RebuildFacts | Source/Core/src/ca/uqac/lif/fs/FlatFileSystem.java:69-73 | the rebuilt tree is well formed; a complete rebuild decoded every name, put a file at each decoded path, and kept every earlier file |
| FlatStore.FlatPathOfFlatName | Source/Core/src/ca/uqac/lif/fs/FlatFileSystem.java:136-194 | a file of the inner root named after a path's flat name stands for that path |
| FlatStore.FlatFileSystem.constructor | Source/Core/src/ca/uqac/lif/fs/FlatFileSystem.java:62-68 | a new flat store has an empty tree of its own, is uninitialized, and keeps the inner store |
| FlatStore.FlatFileSystem.Populate | Source/Core/src/ca/uqac/lif/fs/FlatFileSystem.java:69-77 | the constructor opens the inner store and rebuilds the tree from every flat name found; a file-system failure leaves the store closed, a malformed number escapes |
| FlatStore.FlatFileSystem.CreateAll | Source/Core/src/ca/uqac/lif/fs/FlatFileSystem.java:69-77 | the crawl visits the listed names in order and stops at the first failure: the tree is what Rebuild builds, a file-system failure leaves the store closed and any other failure propagates |
| FlatStore.FlatFileSystem.Visit | Source/Core/src/ca/uqac/lif/fs/FlatFileSystem.java:190-194 | one visit: a name that does not decode fails with its decoding error and changes nothing; a decoded one gets its file node created, as createFileNode says |
| FlatStore.VisitSpec | Source/Core/src/ca/uqac/lif/fs/FlatFileSystem.java:190-194 | a visit passes only for a name that decodes, leaves the tree unchanged when decoding fails, and keeps the root a folder |
| FlatStore.RebuildStep | Source/Core/src/ca/uqac/lif/fs/FlatFileSystem.java:69-73 | after a prefix of the names that passed, the rebuild goes on with exactly one visit of the next name |
| FlatStore.FlatFileSystem.CreateFileNode | Source/Core/src/ca/uqac/lif/fs/RamDisk.java:319-370 | createFileNode changes the tree as CreateNodeSpec, and fails only with a file-system exception |
| FlatStore.FlatFileSystem.Open | Source/Core/src/ca/uqac/lif/fs/FlatFileSystem.java:80-90 | open opens the tree first, then fails if the store was closed, and otherwise marks it open |
| FlatStore.FlatFileSystem.Close | Source/Core/src/ca/uqac/lif/fs/FlatFileSystem.java:92-102 | close closes the tree, then fails on a second close, and otherwise closes the inner store too |
| FlatStore.FlatFileSystem.ReadFrom | Source/Core/src/ca/uqac/lif/fs/FlatFileSystem.java:104-110 | readFrom reads the inner file named after the resolved path, without consulting the tree |
| FlatStore.FlatFileSystem.WriteTo | Source/Core/src/ca/uqac/lif/fs/FlatFileSystem.java:112-119 | writeTo registers the path in the tree, then opens the inner file named after it; a path the tree refuses fails before the inner store is touched |
| FlatStore.FlatFileSystem.Delete | Source/Core/src/ca/uqac/lif/fs/FlatFileSystem.java:121-128 | delete removes the path from the tree, then the inner file named after it; a failure in the tree leaves the inner store alone |
| FlatStore.FlatResolve | Source/Core/src/ca/uqac/lif/fs/FlatFileSystem.java:108-127 | a flat name resolves to one more name below the inner store's working directory |
| FlatStore.FlatWriteThenRead | Source/Core/src/ca/uqac/lif/fs/FlatFileSystem.java:104-119 | what is written under a path is read back under that path |
| FlatStore.FlatDeleteRemoves | Source/Core/src/ca/uqac/lif/fs/FlatFileSystem.java:121-128 | after a successful delete the inner store no longer has the flat file |
| Reification.StripLeadingSlash | Source/Core/src/ca/uqac/lif/fs/TmpReifiedFileSystem.java:190 | a path starting with "/" loses exactly that slash; any other path is kept |
| Reification.LastSlash | Source/Core/src/ca/uqac/lif/fs/TmpReifiedFileSystem.java:194 | lastIndexOf('/'): the position of a slash with none after it, or -1 when there is none |
| Reification.JoinSnoc | Source/Core/src/ca/uqac/lif/fs/TmpReifiedFileSystem.java:192-196 | joining names puts the last one after a final slash |
| Reification.LastSlashAt | Source/Core/src/ca/uqac/lif/fs/TmpReifiedFileSystem.java:194 | the last slash of x + "/" + y, for a name y, is the one after x |
| Reification.ParentOfPath | Source/Core/src/ca/uqac/lif/fs/TmpReifiedFileSystem.java:192-196 | parent of a normalised absolute path is the path of its folder, "/" for an entry at the root |
| Reification.StripOfPath | Source/Core/src/ca/uqac/lif/fs/TmpReifiedFileSystem.java:190 | stripping the slash of an absolute path leaves its names joined by slashes |
| Reification.ChainFrom | Source/Core/src/ca/uqac/lif/fs/TmpReifiedFileSystem.java:202-205 | the chain of prefixes has one entry per remaining name |
| Reification.ChainFromAt | Source/Core/src/ca/uqac/lif/fs/TmpReifiedFileSystem.java:202-205 | the i-th path mkdirs builds is the absolute path of the first names |
| Reification.PrefixesShape | Source/Core/src/ca/uqac/lif/fs/TmpReifiedFileSystem.java:201-205 | mkdirs skips the empty pieces of the split and extends the current path by one piece per step |
| Reification.NonEmptyValid | Source/Core/src/ca/uqac/lif/fs/TmpReifiedFileSystem.java:204 | the pieces of a normalised path are never skipped |
| Reification.NormalizeNames | Source/Core/src/ca/uqac/lif/fs/TmpReifiedFileSystem.java:40 | Path.normalize drops every "." and every name followed by ".."; an absolute path keeps no ".." and the result only holds names of the input |
| Reification.LocalPath | Source/Core/src/ca/uqac/lif/fs/TmpReifiedFileSystem.java:40 | the staging directory resolved against an absolute argument is absolute |
| Reification.NormalizePlain | Source/Core/src/ca/uqac/lif/fs/TmpReifiedFileSystem.java:40 | names without "." or ".." are already normal |
| Reification.NormalizeSnoc | Source/Core/src/ca/uqac/lif/fs/TmpReifiedFileSystem.java:40 | normalising one more name: "." is dropped, ".." removes the last name kept, or is dropped at an absolute root, any other name is appended |
| Reification.NormalizeSnocName | Source/Core/src/ca/uqac/lif/fs/TmpReifiedFileSystem.java:40 | a name other than "." and ".." is kept after the names before it |
| Reification.NormalizeSnocUp | Source/Core/src/ca/uqac/lif/fs/TmpReifiedFileSystem.java:40 | ".." removes the last name kept, when that name is not ".." itself |
| Reification.HostNamesOfJoin | Source/Core/src/ca/uqac/lif/fs/TmpReifiedFileSystem.java:40 | the host names of valid names joined with "/" are those names |
| Reification.HostNamesOfPieces | Source/Core/src/ca/uqac/lif/fs/TmpReifiedFileSystem.java:40 | the host names of "/"-free pieces joined with "/" are the pieces that are not empty |
| Reification.LocalPathInside | Source/Core/src/ca/uqac/lif/fs/TmpReifiedFileSystem.java:40 | a relative argument without "." or ".." stays below an absolute staging directory without them |
| Reification.LocalPathOfStorePath | Source/Core/src/ca/uqac/lif/fs/TmpReifiedFileSystem.java:40 | the printed form of a store path, its leading slash stripped, lands at that path below the staging directory |
| Reification.NormalizeUpAndAcross | Source/Core/src/ca/uqac/lif/fs/TmpReifiedFileSystem.java:40 | "a/../b" after plain names leaves the plain names followed by b |
| Reification.NormalizeUp | Source/Core/src/ca/uqac/lif/fs/TmpReifiedFileSystem.java:40 | ".." after plain names removes the last of them |
| Reification.LocalPathUpAndAcross | Source/Core/src/ca/uqac/lif/fs/TmpReifiedFileSystem.java:40 | "/a/../b" gives b directly in the staging directory |
| Reification.LocalPathTrailingSlash | Source/Core/src/ca/uqac/lif/fs/TmpReifiedFileSystem.java:40 | "/a/" gives a in the staging directory, without the trailing separator |
| Reification.LocalPathEscapesBySlash | Source/Core/src/ca/uqac/lif/fs/TmpReifiedFileSystem.java:40 | "//etc" keeps one slash once stripped, replaces the staging directory and gives "/etc" |
| Reification.LocalPathEscapesByUp | Source/Core/src/ca/uqac/lif/fs/TmpReifiedFileSystem.java:40 | "/../x" climbs out of the staging directory to x beside it |
| Reification.MkdirsArgsPrefixes | Source/Core/src/ca/uqac/lif/fs/TmpReifiedFileSystem.java:198-205 | for a normalised absolute path, the loop of mkdirs starts from exactly the path's names, with the empty current prefix |
| Reification.MkdirsArgsOfPath | Source/Core/src/ca/uqac/lif/fs/TmpReifiedFileSystem.java:198-205 | on a normalised absolute path, mkdirs creates each ancestor-or-self path in order, from the top |
| Reification.KeyOfPath | Source/Core/src/ca/uqac/lif/fs/TmpReifiedFileSystem.java:198-206 | an absolute path names the same entry whatever the current folder |
| Reification.Keys | Source/Core/src/ca/uqac/lif/fs/TmpReifiedFileSystem.java:206 | each path passed to mkdir names one entry |
| Reification.PrefixKeys | Source/Core/src/ca/uqac/lif/fs/TmpReifiedFileSystem.java:202-206 | one entry per prefix still to create |
| Reification.PrefixKeysAt | Source/Core/src/ca/uqac/lif/fs/TmpReifiedFileSystem.java:202-206 | the i-th entry is the prefix of the names, and valid names give valid prefixes |
| Reification.MkdirsKeys | Source/Core/src/ca/uqac/lif/fs/TmpReifiedFileSystem.java:203-211 | mkdirs on paths is mkdirs on the entries they name |
| Reification.MkdirKey | Source/Core/src/ca/uqac/lif/fs/TmpReifiedFileSystem.java:206-209 | mkdir of a path is mkdir of its entry, keeps the current folder, and isDirectory of the path is that of the entry |
| Reification.ChainKeys | Source/Core/src/ca/uqac/lif/fs/TmpReifiedFileSystem.java:202-206 | the paths mkdirs builds name the prefixes of the path |
| Reification.PathKey | Source/Core/src/ca/uqac/lif/fs/TmpReifiedFileSystem.java:205-206 | moving to an absolute path lands on its own names |
| Reification.MkdirsKeeps | Source/Core/src/ca/uqac/lif/fs/TmpReifiedFileSystem.java:198-212 | mkdirs keeps the disk well formed, keeps its state, current folder and stack, and only adds entries |
| Reification.ChainStep | Source/Core/src/ca/uqac/lif/fs/TmpReifiedFileSystem.java:206-209 | below an existing folder, one step either creates the next folder or finds it already there, and passes |
| Reification.ChainBlocked | Source/Core/src/ca/uqac/lif/fs/TmpReifiedFileSystem.java:206-209 | a file in the way makes mkdir fail and isDirectory false, so mkdirs fails there and changes nothing |
| Reification.MkdirsChain | Source/Core/src/ca/uqac/lif/fs/TmpReifiedFileSystem.java:198-212 | mkdirs passes iff no proper prefix below the existing folder is a file, and then every prefix is a folder |
| Reification.MkdirsChainDir | Source/Core/src/ca/uqac/lif/fs/TmpReifiedFileSystem.java:198-212 | the same once the next prefix is not a file |
| Reification.MkdirsStep | Source/Core/src/ca/uqac/lif/fs/TmpReifiedFileSystem.java:203-205 | an empty piece adds nothing; a piece extends the current path and creates it |
| Reification.Mkdirs | Source/Core/src/ca/uqac/lif/fs/TmpReifiedFileSystem.java:198-212 | the loop does what the step-by-step account says: nothing for null, empty or "/", one mkdir per piece, an error ignored only when the path is already a folder |
| Reification.MkdirsFrame | Source/Core/src/ca/uqac/lif/fs/TmpReifiedFileSystem.java:198-212 | mkdirs never changes the open state, the current folder or the stack |
| Reification.MaterializeKeys | Source/Core/src/ca/uqac/lif/fs/TmpReifiedFileSystem.java:43-73 | materialize of a path is materialize of the entry it names |
| Reification.FetchFileKeys | Source/Core/src/ca/uqac/lif/fs/TmpReifiedFileSystem.java:56-64 | copying a backing file fails if a store is closed or the staged place is a folder or has no parent folder, and otherwise stages exactly the backing bytes |
| Reification.MaterializeAtFetches | Source/Core/src/ca/uqac/lif/fs/TmpReifiedFileSystem.java:43-73 | on an entry not yet staged, materialize passes, adds only, stages every ancestor as a folder, a backing folder as a folder, a backing file with its bytes, and nothing for a missing entry |
| Reification.FetchDirAt | Source/Core/src/ca/uqac/lif/fs/TmpReifiedFileSystem.java:52-55 | the same for a backing folder |
| Reification.FetchUpAt | Source/Core/src/ca/uqac/lif/fs/TmpReifiedFileSystem.java:56-67 | the same for a backing file or a missing entry |
| Reification.FetchUpGiven | Source/Core/src/ca/uqac/lif/fs/TmpReifiedFileSystem.java:56-67 | the same, once the parent's folders are in place |
| Reification.ChainEndDir | Source/Core/src/ca/uqac/lif/fs/TmpReifiedFileSystem.java:198-212 | with no file in the way, mkdirs passes, adds only, and makes every prefix a folder |
| Reification.FetchDirChain | Source/Core/src/ca/uqac/lif/fs/TmpReifiedFileSystem.java:53 | mkdirs of the path itself makes it and every ancestor a folder |
| Reification.FetchUpChain | Source/Core/src/ca/uqac/lif/fs/TmpReifiedFileSystem.java:57 | mkdirs of the parent makes every ancestor a folder and leaves the entry itself absent |
| Reification.MaterializeFetches | Source/Core/src/ca/uqac/lif/fs/TmpReifiedFileSystem.java:43-73 | materialize of a path not yet staged stages it as the backing store has it, and keeps the current folder |
| Reification.MaterializeOnPath | Source/Core/src/ca/uqac/lif/fs/TmpReifiedFileSystem.java:43-73 | on a normalised absolute path, materialize works on the entry and the prefixes of it and of its parent |
| Reification.MaterializeOnce | Source/Core/src/ca/uqac/lif/fs/TmpReifiedFileSystem.java:45-47 | once an existing entry is staged, materialize does nothing, whatever the backing store holds by then |
| Reification.LandedKept | Source/Core/src/ca/uqac/lif/fs/TmpReifiedFileSystem.java:85-105 | committing one more entry keeps the ones already committed |
| Reification.CommitDirFacts | Source/Core/src/ca/uqac/lif/fs/TmpReifiedFileSystem.java:92-93 | committing a staged folder keeps the backing store well formed, with its state, folder and stack; it only adds folders on the way to it; on an open store with no file on the way it passes |
| Reification.CommitFileFacts | Source/Core/src/ca/uqac/lif/fs/TmpReifiedFileSystem.java:94-95 | the parent folders of a staged file are created the same way, only above the file, and exist when the walk to them meets no file |
| Reification.TmpReified.constructor | Source/Core/src/ca/uqac/lif/fs/TmpReifiedFileSystem.java:15-29 | a new staging disk, open, empty, at the root of the staging directory, neither released nor committed |
| Reification.TmpReified.Materialize | Source/Core/src/ca/uqac/lif/fs/TmpReifiedFileSystem.java:43-73 | materialize as MaterializeSpec, leaving the backing store and both leases as they were |
| Reification.TmpReified.Fetch | Source/Core/src/ca/uqac/lif/fs/TmpReifiedFileSystem.java:58-63 | the copy of a backing file into the staging disk, as FetchSpec |
| Reification.TmpReified.ToLocalPath | Source/Core/src/ca/uqac/lif/fs/TmpReifiedFileSystem.java:36-41 | refused once released; otherwise materializes the path and answers the staging directory resolved against the path with its leading slash stripped, then normalised (LocalPath) |
| Reification.TmpReified.CommitEntry | Source/Core/src/ca/uqac/lif/fs/TmpReifiedFileSystem.java:85-104 | committing one staged entry keeps every other entry of the backing store; what it adds or changes is a staged entry of the same kind; on success a staged file is there with its bytes, and a staged folder's path exists (mkdir leaves an existing path alone); on an open store where no staged entry meets an entry of the other kind it passes |
| Reification.TmpReified.CommitFile | Source/Core/src/ca/uqac/lif/fs/TmpReifiedFileSystem.java:96-100 | writing a staged file back passes exactly when the store is open, the parent is a folder and the path is not; the file then holds the staged bytes and nothing else changes; on failure nothing changes |
| Reification.TmpReified.Commit | Source/Core/src/ca/uqac/lif/fs/TmpReifiedFileSystem.java:76-124 | refused once released; backing entries that are not staged are kept, and only staged entries, of their kind, are added or changed; on success every staged file is in the backing store with its bytes, every staged folder's path exists, and committed is set; on an open backing store where no staged entry meets an entry of the other kind, it passes |
| Reification.TmpReified.CommitAll | Source/Core/src/ca/uqac/lif/fs/TmpReifiedFileSystem.java:83-106 | the walk over the staged entries, stopping at the first failure; on success all of them landed; in every case unstaged entries are kept and only staged ones added or changed; on an open, compatible backing store it passes |
| Reification.StagedAncestors | Source/Core/src/ca/uqac/lif/fs/HardDisk.java:218-235 | every proper prefix of a staged entry is a staged folder, since the staging disk only creates entries in existing folders |
| Reification.CommitDirEntry | Source/Core/src/ca/uqac/lif/fs/TmpReifiedFileSystem.java:92-93 | committing a staged folder adds only staged folders, keeps every other entry, and passes on an open, compatible store |
| Reification.CommitParents | Source/Core/src/ca/uqac/lif/fs/TmpReifiedFileSystem.java:94-95 | creating a staged file's parents adds only staged folders and leaves the file's own entry alone; on an open, compatible store it passes with the parent a folder and the file's path not one |
| Reification.WriteToEntry | Source/Core/src/ca/uqac/lif/fs/HardDisk.java:123-141 | writeTo on an entry's path opens exactly when the store is open, the parent is a folder and the entry is not, and then empties the file |
| Reification.CompatibleKept | Source/Core/src/ca/uqac/lif/fs/TmpReifiedFileSystem.java:85-105 | a store to which only staged entries of their kind were added stays compatible with the staged entries |
| Reification.TmpReified.Release | Source/Core/src/ca/uqac/lif/fs/TmpReifiedFileSystem.java:127-146 | a second release does nothing; the first marks it released, empties the staging disk when the host deletes it, and releases the lease in every case |
| Reification.TmpReified.Open | Source/Core/src/ca/uqac/lif/fs/TmpReifiedFileSystem.java:150 | refused once released; otherwise opens the staging disk |
| Reification.TmpReified.Ls | Source/Core/src/ca/uqac/lif/fs/TmpReifiedFileSystem.java:152 | refused once released; otherwise the listing of the staging disk's current folder |
| Reification.TmpReified.LsPath | Source/Core/src/ca/uqac/lif/fs/TmpReifiedFileSystem.java:154 | refused once released; otherwise materializes the path, then lists it on the staging disk |
| Reification.TmpReified.IsDirectory | Source/Core/src/ca/uqac/lif/fs/TmpReifiedFileSystem.java:156 | refused once released; otherwise materializes the path, then asks the staging disk |
| Reification.TmpReified.IsFile | Source/Core/src/ca/uqac/lif/fs/TmpReifiedFileSystem.java:158 | refused once released; otherwise materializes the path, then asks the staging disk |
| Reification.TmpReified.GetSize | Source/Core/src/ca/uqac/lif/fs/TmpReifiedFileSystem.java:160 | refused once released; otherwise materializes the path, then asks the staging disk |
| Reification.TmpReified.WriteTo | Source/Core/src/ca/uqac/lif/fs/TmpReifiedFileSystem.java:162 | refused once released; otherwise creates the parent folders on the staging disk, then writes there, without reading the backing store |
| Reification.TmpReified.ReadFrom | Source/Core/src/ca/uqac/lif/fs/TmpReifiedFileSystem.java:164 | refused once released; otherwise materializes the file, then reads the staged copy |
| Reification.TmpReified.Chdir | Source/Core/src/ca/uqac/lif/fs/TmpReifiedFileSystem.java:166 | refused once released; otherwise chdir on the staging disk |
| Reification.TmpReified.Pushd | Source/Core/src/ca/uqac/lif/fs/TmpReifiedFileSystem.java:168 | refused once released; otherwise pushd on the staging disk, which is its chdir: the current directory is pushed, then the path resolved |
| Reification.TmpReified.Popd | Source/Core/src/ca/uqac/lif/fs/TmpReifiedFileSystem.java:170 | refused once released; otherwise popd on the staging disk |
| Reification.TmpReified.Mkdir | Source/Core/src/ca/uqac/lif/fs/TmpReifiedFileSystem.java:172 | refused once released; otherwise mkdir on the staging disk |
| Reification.TmpReified.Rmdir | Source/Core/src/ca/uqac/lif/fs/TmpReifiedFileSystem.java:174 | refused once released; otherwise rmdir on the staging disk |
| Reification.TmpReified.Delete | Source/Core/src/ca/uqac/lif/fs/TmpReifiedFileSystem.java:176 | refused once released; otherwise delete on the staging disk |
| Reification.TmpReified.Pwd | Source/Core/src/ca/uqac/lif/fs/TmpReifiedFileSystem.java:178 | refused once released; otherwise the staging disk's current folder |
| Reification.TmpReified.Close | Source/Core/src/ca/uqac/lif/fs/TmpReifiedFileSystem.java:180 | refused once released; otherwise closes only the staging disk |
| Reification.Reify | Source/Core/src/ca/uqac/lif/fs/AbstractReifiableFileSystem.java:62-90 | takes the lease first and fails as it does; if the staging directory cannot be created the lease is given back; otherwise a fresh reification holding the new token, over the same store |
| FileProxies.ExistingFileKept | Source/Core/src/ca/uqac/lif/fs/RamDisk.java:319-370 | creating the file node of a path that already names a file gives back that file and leaves the tree as it is |
| FileProxies.ExistingFileWrite | Source/Core/src/ca/uqac/lif/fs/FileProxy.java:73-80 | writing through a proxy binds the stream to the existing file, keeps the tree's shape, and after closing the file holds exactly the bytes written |
| FileProxies.FileProxy.constructor | Source/Core/src/ca/uqac/lif/fs/FileProxy.java:47-52 | the proxy keeps the store and the path it was given |
| FileProxies.FileProxy.ReadFrom | Source/Core/src/ca/uqac/lif/fs/FileProxy.java:59-66 | "File <path> not found" unless the path is a file; otherwise a stream holding the file's bytes |
| FileProxies.FileProxy.WriteTo | Source/Core/src/ca/uqac/lif/fs/FileProxy.java:73-80 | "File <path> not found", store untouched, unless the path is a file; otherwise the store's write stream on that file, with the tree unchanged |
| FileProxies.DependentInputStream.constructor | Source/Core/src/ca/uqac/lif/fs/FileProxy.java:91-94 | the stream wraps the given stream, for the proxy's store |
| FileProxies.DependentInputStream.Read | Source/Core/src/ca/uqac/lif/fs/FileProxy.java:85-94 | reads are delegated: the next byte, or -1 at the end |
| FileProxies.DependentInputStream.ReadRange | Source/Core/src/ca/uqac/lif/fs/FileProxy.java:85-94 | read(b, off, len) is delegated: up to len bytes of the wrapped stream into b at off, -1 at the end, a bad range rejected with nothing consumed |
| FileProxies.DependentInputStream.Close | Source/Core/src/ca/uqac/lif/fs/FileProxy.java:96-108 | close closes the store, not the wrapped stream |
| FileProxies.DependentOutputStream.constructor | Source/Core/src/ca/uqac/lif/fs/FileProxy.java:121-124 | the stream wraps the given stream, for the proxy's store |
| FileProxies.DependentOutputStream.Write | Source/Core/src/ca/uqac/lif/fs/FileProxy.java:115-124 | writes are delegated: the low byte of the value is appended to the buffer |
| FileProxies.DependentOutputStream.Close | Source/Core/src/ca/uqac/lif/fs/FileProxy.java:126-138 | close closes the store and leaves the wrapped stream's buffer unflushed, so the file keeps its old bytes |

## Left out

- Network, zip and class-loader stores (`FtpConnection`, `ReadZipFile`, `WriteZipFile`, `JarFile`) and `TempFolder`: they are I/O over foreign libraries. The zip readers build their tree with `createFolderNode` and `createFileNode`, which are modelled in `RamTree`.
- Native effects of `HardDisk` (`Files.list`, directory creation and deletion, file streams, `deleteDirectoryRecursion`): the host's files are a map from path to folder or bytes, and each operation states its effect on that map. Whether the host manages to create or delete a directory is a parameter (`created`, `deleted`).
- The file walk, temporary directory and file streams of `TmpReifiedFileSystem`: the staging area is a second host map. `commit` visits its entries in an order the host chooses.
- Time in the throttled streams: elapsed time is a parameter and no sleep happens. The sleep time is computed over exact reals and truncated, so floating-point rounding is not modelled.
- Throttle.ThrottledFileSystem.WriteTo: the cap `Long.MAX_VALUE - currentSize + fileSize` is computed over unbounded integers, so its 64-bit overflow is not modelled.
- Regular expressions in `FileUtils.ls`: the pattern is an abstract predicate on names (`Listing.Filter`).
- The platform charset in `FlatFileSystem`: names are text of eight-bit characters, one byte per character. Other characters map to `?`. When decoding, `FlatNames.DigitValue` accepts only the ASCII hexadecimal digits, whereas `Character.digit`, which `Integer.valueOf(s, 16)` uses, also accepts other Unicode digits and letters (such as the fullwidth 'Ａ'); flat names that hold such characters are not modelled.
- `java.util.Base64` itself: base 64 follows section 4 of RFC 4648, with the basic decoder's leniency (padding may be missing and trailing bits are ignored).
- `FileMemento`, `JpegExifMemento`, `PersistentFileSystem`, `FloppyDisk` and `Batch`: their logic lies in I/O hooks or foreign libraries, or they have none.
- Interfaces with no logic (`Memento`, `ReifiedFileSystem`, `FileSystemVisitor`). `FileSystemException` becomes the error datatype `FsError`.
- The common `FileSystem` interface as a type: each decorator wraps the in-memory store `RamStore.RamDisk` concretely, and `Reification` wraps `HardDisks.HardDisk`. A decorator over another decorator, or over a store of another kind, is not modelled.
- StoreCopy.Copy: requires two distinct stores. A copy of a store onto itself is not modelled.
- StoreCopy.CopyFolder: its two loops are the separate methods `StoreCopy.CopyFiles` and `StoreCopy.CopySubfolders`, and the first loop's body is `StoreCopy.CopyEntry`.
- FlatStore.FlatFileSystem.constructor: it only sets the fields. The rest of the Java constructor (opening the inner store and registering every flat name) is `FlatStore.FlatFileSystem.Populate`.
- HardDisks.HostOutputStream: the bytes written reach the file when the stream is closed, where a `FileOutputStream` writes through; a read of the file before the close, a stream kept open after its file was deleted and re-created, and two streams on one file at independent offsets are not modelled.
- HardDisks.HostOutputStream.Write: appends to the stream's buffer only; the file changes at close.
- HardDisks.HostOutputStream.Close: delivers all the bytes at once, as if the stream had written them through; a stream whose file was deleted and re-created meanwhile overwrites the new file, where the host's stale stream would write to the deleted one.
- HardDisks.DeleteEntry: deleting the empty root passes as on the host, but the model's root always exists, so a store whose root directory was removed is not modelled.
- HardDisks.DeleteFacts: a delete of the empty root passes and keeps the root, as `HardDisks.DeleteEntry` says.
- HardDisks.HardDisk.DeleteIfExists: a delete of the empty root passes and keeps the root, as `HardDisks.DeleteEntry` says.
- HardDisks.HardDisk.Rmdir: a rmdir of the empty root passes and keeps the root, as `HardDisks.DeleteEntry` says.
- HardDisks.HardDisk.Delete: a delete of the empty root passes and keeps the root, as `HardDisks.DeleteEntry` says.
- HardDisks.SizeSpec: the size of a directory is what the host reports, a parameter (`dirSize`), not a fixed number.
- MirrorStore.Mirror: requires its replicas to be distinct objects (`Valid`). A mirror over the same store twice (`new Mirror(fs, fs)`) would forward each command to that store twice, so that chdir("a") lands in a/a and writeTo opens two streams on one file; this aliasing is not modelled.
- MirrorStore.Mirror.RunAt: requires distinct replicas, as `MirrorStore.Mirror` says; a repeated replica is not modelled.
- MirrorStore.Mirror.Run: requires distinct replicas, as `MirrorStore.Mirror` says; a repeated replica is not modelled.
- MirrorStore.Mirror.Open: requires distinct replicas, as `MirrorStore.Mirror` says; a repeated replica is not modelled.
- MirrorStore.Mirror.Close: requires distinct replicas, as `MirrorStore.Mirror` says; a repeated replica is not modelled.
- MirrorStore.Mirror.Chdir: requires distinct replicas, as `MirrorStore.Mirror` says; a repeated replica is not modelled.
- MirrorStore.Mirror.Pushd: requires distinct replicas, as `MirrorStore.Mirror` says; a repeated replica is not modelled.
- MirrorStore.Mirror.Popd: requires distinct replicas, as `MirrorStore.Mirror` says; a repeated replica is not modelled.
- MirrorStore.Mirror.Mkdir: requires distinct replicas, as `MirrorStore.Mirror` says; a repeated replica is not modelled.
- MirrorStore.Mirror.Rmdir: requires distinct replicas, as `MirrorStore.Mirror` says; a repeated replica is not modelled.
- MirrorStore.Mirror.Delete: requires distinct replicas, as `MirrorStore.Mirror` says; a repeated replica is not modelled.
- MirrorStore.Mirror.OpenAt: requires distinct replicas, as `MirrorStore.Mirror` says; a repeated replica is not modelled.
- MirrorStore.Mirror.WriteAt: requires distinct replicas, as `MirrorStore.Mirror` says; a repeated replica is not modelled.
- MirrorStore.Mirror.OpenStreams: requires distinct replicas, as `MirrorStore.Mirror` says; a repeated replica is not modelled.
- MirrorStore.Mirror.WriteTo: requires distinct replicas, as `MirrorStore.Mirror` says; a repeated replica is not modelled.
- MirrorStore.MirrorOutputStream: requires its streams to write to distinct replicas through distinct buffers, which a mirror of distinct replicas gives; two streams on one file, from a repeated replica, are not modelled.
- MirrorStore.MirrorOutputStream.constructor: requires streams on distinct replicas, as `MirrorStore.MirrorOutputStream` says.
- MirrorStore.MirrorOutputStream.Write: requires streams on distinct replicas, as `MirrorStore.MirrorOutputStream` says.
- MirrorStore.MirrorOutputStream.WriteRange: requires streams on distinct replicas, as `MirrorStore.MirrorOutputStream` says.
- MirrorStore.MirrorOutputStream.CloseAt: requires streams on distinct replicas, as `MirrorStore.MirrorOutputStream` says.
- MirrorStore.MirrorOutputStream.Close: requires streams on distinct replicas, as `MirrorStore.MirrorOutputStream` says.
- FlatNames.DigitValue: the ASCII hexadecimal digits only; the other Unicode digits that `Character.digit` accepts are not modelled, as the charset line above says.
- Reification.TmpReified.Release: the deletion of the staging tree either removes all of it or none of it (`deleted`); a `deleteDirectoryRecursion` that fails part way, leaving some entries behind, is not modelled.
- Input streams hold their remaining bytes, so a stream that blocks or fails part way through a read is not modelled.
