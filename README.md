# memory-hole core in Dafny

This project models the in-memory core of memory-hole, a write-only
archive file system, and proves properties of that model. It covers three
parts.

- **The namespace tree** of `afs/fstree.go`: `mkdir`, `add`, `get` and
  `remove` on a tree of nodes whose children are kept in per-node maps.
  - Go pointers become addresses (`Ref`) into a heap `map<Ref, Node>`.
    A fresh node always gets an address above every existing one, so a
    child's address is always larger than its parent's. This makes the
    tree acyclic by construction.
  - Each operation is a function from the old heap to an `Outcome` (the
    result plus the new heap). The class `NodeStore` holds the heap and
    its allocation counter as fields. Its methods update them in place
    and are proved equal to those functions.
  - The lemmas say when each operation fails and with which error, what
    it changes and what it leaves alone, that `mkdir` is idempotent, that
    what `add` installs can be found again, and that `remove` detaches
    exactly one entry.
- **The append-only log writer** of `afs/afs.go` and the file handles of
  `afs/file.go`.
  - Every handle writes through one shared `Writer`.
  - Each write advances the log position by the count the sink reported.
    It records the extent `[old position, count]` under the handle's
    name, even when the sink also reports an error.
  - The index is proved to tile the log after every write: each extent
    lies inside the log, no two extents overlap, each name's extents are
    in order, and the lengths add up to the position.
  - The sink behind the writer is abstract. Each write is given the
    sink's reply (the count it accepted and an optional error) as an
    argument.
- **Small decisions of the FUSE front end** in `cfs/cfs.go`:
  - the `done` control file's attributes and reads;
  - the listing and lookup of an archive directory;
  - the mapping of a store listing to directory entries;
  - the `ENOTSUP` guard at the start of `root.Remove`.

Files:

| file | contents |
|---|---|
| `wrappers.dfy` | `Option` and `Result` |
| `paths.dfy` | the path splitting of `mkdir`/`get`, and `filepath.Dir`/`Base` on clean absolute paths |
| `fstree.dfy` | the node heap, the tree operations and their lemmas, `NodeStore` |
| `extents.dfy` | the extent index as a value, and the tiling invariant |
| `afs.dfy` | `Metadata`, `Writer`, `FileSystem` and `File` |
| `cfs.dfy` | the modelled pieces of the FUSE front end |

Behaviour modelled as written, even where it looks unintended:

- `mkdir("/")` creates a child named `""` under the starting node.
- `add` of a top-level name such as `"/a"` therefore files it under that
  `""` child. A later `get("/a")` does not find it, but `remove("/a")`
  does, because `remove` reaches the parent through `get("/")` (see
  `FsTree.AddTopLevelRoundTrip`).
- A directory that `mkdir` made at the top level cannot be removed: its
  parent is looked up as `""` (see `FsTree.RmdirTopLevelMisses`).
- `archive.Lookup` does not find `status`, although `archive.ReadDirAll`
  lists it (see `Cfs.LookupAgreesWithListing`).

## Model

| member | source | states |
|---|---|---|
| Paths.TrimSlash | afs/fstree.go:36 | drops exactly one leading slash, if there is one |
| Paths.IndexSlash | afs/fstree.go:37 | gives the first slash's index, or -1 when the string has no slash |
| Paths.Split | afs/fstree.go:36-42 | the remainder is empty or shorter than the name, so the descent terminates |
| Paths.SplitParts | afs/fstree.go:36-42 | the first segment has no slash, the remainder is empty or starts with a slash, and together they give the name without its leading slash |
| Paths.SplitSingle | afs/fstree.go:36-42 | "/b" with no further slash splits into segment b and an empty remainder |
| Paths.SplitRoot | afs/fstree.go:36-42 | "/" splits into the empty segment and an empty remainder |
| Paths.SplitExtend | afs/fstree.go:36-42 | appending "/" + b to a path appends it to the first step's remainder, or makes it the remainder when there was none |
| Paths.LastSlash | afs/fstree.go:67-68 | gives the index of the last slash, with no slash after it, or -1 when there is none |
| Paths.Dir | afs/fstree.go:67 | for a clean absolute path, the parent is "/" exactly when there is one segment; otherwise it is an absolute path that, joined with the base, gives the path back |
| Paths.Base | afs/fstree.go:68 | the last segment is non-empty, has no slash and is not "." or ".." |
| FsTree.Get | afs/fstree.go:83-103 | a successful walk ends at an allocated node that is deeper (younger) than the start; every failure is "no such file or directory" |
| FsTree.Walked | afs/fstree.go:57-63 | the nodes `mkdir` can write: the start and, while inner segments exist, the nodes below it; all are allocated and no older than the start |
| FsTree.NewNode | afs/fstree.go:56 | a fresh node at an address no node used before, with no children and no uuid; the old nodes are unchanged |
| FsTree.Attach | afs/fstree.go:79 | the directory's entries become the old ones with the name bound to the child; every other node is unchanged; no existing entry is lost when the name was new |
| FsTree.Detach | afs/fstree.go:130 | the node's entries become the old ones without the name; the same addresses stay allocated and every other node is unchanged |
| FsTree.GetExtend | afs/fstree.go:95-102 | resolving "a/b" fails if resolving "a" fails, and otherwise is resolving "/b" from where "a" ended |
| FsTree.BelowFileMissing | afs/fstree.go:95-98 | nothing below a file can be found |
| FsTree.GetFrame | afs/fstree.go:83-103 | a walk gives the same result in any heap that agrees on the nodes up to where it ends |
| FsTree.ResolveAttached | afs/fstree.go:67-79 | after binding a base in the parent, the parent still resolves the same way, and the full name resolves to the new node (below the top level) |
| FsTree.ResolveDetached | afs/fstree.go:106-130 | after deleting the base from its parent, the full name no longer resolves (below the top level) |
| FsTree.ResolvedFileHitsFile | afs/fstree.go:95-102 | a name that resolves to a file meets a file on its way down |
| FsTree.LinkFreshDir | afs/fstree.go:60-61 | binding a new empty directory at a free address keeps the heap well formed and bounded |
| FsTree.LinkFreshDirGrows | afs/fstree.go:56-61 | the new directory is bound under the segment; every other node is unchanged; nothing existing is lost; the only new node is that one directory |
| FsTree.ChildDir | afs/fstree.go:48-62 | after the step, the segment is bound in the node to the child the step returns |
| FsTree.ChildDirGrows | afs/fstree.go:48-62 | the step loses no existing entry, and any node it adds is an empty-uuid directory at the next address |
| FsTree.ChildDirFrame | afs/fstree.go:56-61 | the step writes only the node itself, which gains at most the segment's entry |
| FsTree.MkdirAt | afs/fstree.go:32-64 | keeps the heap well formed, and the allocation counter never decreases |
| FsTree.MkdirGrows | afs/fstree.go:32-64 | `mkdir` only adds: no node disappears or changes kind or uuid, no existing entry is lost or rebound, and every new node is a directory allocated during the call |
| FsTree.MkdirFrame | afs/fstree.go:32-64 | every existing node outside the walked path keeps its record, and each walked node gains at most one entry |
| FsTree.MkdirRefusesFile | afs/fstree.go:33-35 | if the path meets a file, `mkdir` fails and changes nothing |
| FsTree.MkdirBelowEmpty | afs/fstree.go:45-63 | `mkdir` from an empty directory always succeeds |
| FsTree.MkdirSucceedsOffFile | afs/fstree.go:48-63 | if the path meets no file, `mkdir` succeeds |
| FsTree.MkdirFailsExactly | afs/fstree.go:32-64 | `mkdir` fails if and only if the path meets a file, and a failure changes nothing |
| FsTree.MkdirResolves | afs/fstree.go:53-63 | on success the result is a directory deeper than the start, and the name then resolves to it |
| FsTree.MkdirIdempotent | afs/fstree.go:49-54 | if the name already resolves to a directory, `mkdir` returns it and changes nothing |
| FsTree.MkdirErrorKinds | afs/fstree.go:33-63 | a name that resolves to a file gives "already exists"; meeting a file earlier, at the start or at an intermediate segment through the recursive call, gives "not a directory"; there is no other error |
| FsTree.MkdirNewLeafEmpty | afs/fstree.go:56-58 | a directory that `mkdir` creates and returns is empty |
| FsTree.AddAt | afs/fstree.go:66-81 | keeps the heap well formed, and the allocation counter never decreases |
| FsTree.AddFailsExactly | afs/fstree.go:69-72 | `add` fails if and only if the parent path meets a file, and a failure changes nothing |
| FsTree.AddInstallsFile | afs/fstree.go:73-80 | on success the result is a fresh empty file, bound under the base in the directory the parent path resolves to; below the top level, the name resolves to it |
| FsTree.AddOverwrites | afs/fstree.go:78-80 | when the parent exists, `add` replaces any entry under the base with a fresh file and changes no other node |
| FsTree.AddFrame | afs/fstree.go:66-81 | on success, every existing node is unchanged except the nodes `mkdir` of the parent path walks through and the parent the file is bound in |
| FsTree.AddTopLevelUnseen | afs/fstree.go:66-81 | a top-level `add` succeeds but does not change what `get` finds for that name |
| FsTree.RemoveAt | afs/fstree.go:105-132 | keeps the heap well formed, and the set of allocated addresses is unchanged |
| FsTree.GetViaParent | afs/fstree.go:95-102 | below the top level, a name resolves through its parent's entry for the base, or fails with "/base: no such file or directory" |
| FsTree.RemoveSucceedsExactly | afs/fstree.go:105-132 | `remove` succeeds if and only if the name resolves to an empty node, and to a file unless `rmdir` is set; it returns that node |
| FsTree.RemoveErrorKinds | afs/fstree.go:107-128 | gives the parent's lookup error, or "no such file", "is a directory" or "directory not empty", each in its case; a failure changes nothing |
| FsTree.RemoveDetachesOne | afs/fstree.go:130-131 | success deletes exactly the base from the parent and changes no other node |
| FsTree.RemoveGone | afs/fstree.go:130 | after a successful remove below the top level, the name no longer resolves |
| FsTree.Text | afs/fstree.go:117-127 | each message names the path it is about, apart from "not a directory" |
| FsTree.AsWrittenText | afs/fstree.go:123-127 | the messages as printed; only "is a directory" and "directory not empty" differ from the intended ones |
| FsTree.AsWrittenTextDropsPath | afs/fstree.go:122-128 | as printed, two different errors can have the same text |
| FsTree.TextInjective | afs/fstree.go:117-127 | the intended texts tell every two errors apart |
| FsTree.RmdirTopLevelMisses | afs/fstree.go:105-110 | a top-level directory that `mkdir` created cannot be removed: "/: no such file or directory" |
| FsTree.AddTopLevelRoundTrip | afs/fstree.go:66-81 | a top-level file that `add` created is not found by `get`, but `remove` finds and detaches it |
| FsTree.NodeStore.Alloc | afs/fstree.go:56 | in place: a fresh node exactly as `NewNode` gives it, and the counter advances by one |
| FsTree.NodeStore.Child | afs/fstree.go:60-62 | in place: the heap and counter become exactly those of `ChildDir` |
| FsTree.NodeStore.Mkdir | afs/fstree.go:32-64 | in place: result, heap and counter are exactly those of `MkdirAt` |
| FsTree.NodeStore.Link | afs/fstree.go:79 | in place: the heap becomes `Attach` of the old one, and the counter is unchanged |
| FsTree.NodeStore.Add | afs/fstree.go:66-81 | in place: result, heap and counter are exactly those of `AddAt` |
| FsTree.NodeStore.Remove | afs/fstree.go:105-132 | in place: result and heap are exactly those of `RemoveAt`, and the counter is unchanged |
| ExtentLog.Lookup | afs/afs.go:109 | a name with no entry reads as an empty list |
| ExtentLog.Update | afs/afs.go:108-110 | appends the extent at the end of the name's list; every other name keeps its list; no other name appears |
| ExtentLog.TotalLengthUpdate | afs/afs.go:108-110 | recording an extent adds its length to the total over all names |
| ExtentLog.EmptyTiled | afs/afs.go:43-45 | the empty index tiles the empty log |
| ExtentLog.UpdateKeepsTiled | afs/afs.go:97-100 | recording a write at the current position keeps the index tiled, now up to the new position |
| ExtentLog.ReplayTiled | afs/afs.go:93-110 | the index built by any sequence of writes tiles the log they produced |
| ExtentLog.ReplayOtherName | afs/afs.go:108-110 | a write under one name leaves every other name's extents as they were |
| ExtentLog.ReplaySameName | afs/afs.go:97-100 | a write adds one extent at the end of its name's list, starting where the log ended, and grows the log by its count |
| Afs.Metadata.constructor | afs/afs.go:43-45 | the index starts empty |
| Afs.Metadata.Update | afs/afs.go:108-110 | in place: the index becomes `ExtentLog.Update` of the old one |
| Afs.Writer.constructor | afs/afs.go:49-52 | a writer at position 0 over the empty index |
| Afs.Writer.Write | afs/afs.go:93-102 | records `[old pos, n]` under the name, advances the position by `n`, passes the sink's reply on (error included), and keeps the index tiled |
| Afs.FileSystem.constructor | afs/afs.go:37-53 | a new file system has an empty index, and its writer starts at position 0 |
| Afs.FileSystem.Open | afs/afs.go:56-61 | returns a new handle bound to the name and the shared writer, with a nil error, changing nothing |
| Afs.FileSystem.Remove | afs/afs.go:63-65 | returns nil and changes nothing |
| Afs.File.constructor | afs/file.go:23-26 | a handle holds its name and the shared writer |
| Afs.File.Stat | afs/file.go:28-30 | returns the handle itself with a nil error |
| Afs.File.Write | afs/file.go:32-34 | a write through the shared log, recorded under this handle's name |
| Afs.File.Read | afs/file.go:36-38 | 0 bytes and `io.EOF`, changing nothing |
| Afs.File.Close | afs/file.go:40-42 | nil, changing nothing |
| Afs.File.Name | afs/file.go:44-46 | the empty name |
| Afs.File.Size | afs/file.go:48-50 | size 0 |
| Afs.File.Mode | afs/file.go:52-54 | mode 0777 |
| Afs.File.ModTime | afs/file.go:56-58 | the zero time |
| Afs.File.IsDir | afs/file.go:60-62 | not a directory |
| Afs.File.Sys | afs/file.go:64-66 | nil |
| Cfs.DoneAttr | cfs/cfs.go:273-277 | the size is the message's length, and the mode is 0644 |
| Cfs.DoneRead | cfs/cfs.go:279-287 | returns the message from the offset, at most the requested size and never past the end |
| Cfs.DoneReadConsecutive | cfs/cfs.go:279-287 | a read that continues where one stopped gives what one read of both sizes gives |
| Cfs.DoneReadWhole | cfs/cfs.go:279-287 | a read from 0 of at least the message's length returns the whole message |
| Cfs.ArchiveReadDirAll | cfs/cfs.go:242-251 | lists `data` (directory) and `status` (file), followed by `done` (file) exactly when not final |
| Cfs.ArchiveLookup | cfs/cfs.go:253-267 | `done` is found only when not final; `data` gives a data node at "/" with the archive's uuid and store; every other name gives `ENOENT` |
| Cfs.LookupAgreesWithListing | cfs/cfs.go:242-267 | lookup finds exactly the listed names other than `status` |
| Cfs.DataReadDirAll | cfs/cfs.go:300-315 | one entry per listed item, in order, with the same name, a directory entry exactly for directories; a failed listing gives no entries and its error |
| Cfs.RootRemoveGuard | cfs/cfs.go:203-206 | a request for a non-directory is refused with `ENOTSUP`, and only such a request |

## Left out

- The mutexes of the tree nodes and of the writer (afs/fstree.go:27, 43-44, 73-74, 84-85, 112-113, 119-120; afs/afs.go:88, 94-95). The model is sequential.
- `FileSystem.Finalize` (afs/afs.go:67-83). It writes the JSON-encoded index and a varint trailer to the backing file, which is library encoding and I/O.
- Creating the backing file and drawing its uuid in `New` (afs/afs.go:38-42). The uuid is a constructor argument, and the error path of `os.Create` is not modelled.
- The bytes written to the log. The sink is abstract, and only its reply enters the model.
- The `uuid` field of tree nodes. The code shown never sets it, and the model keeps it as the empty string.
- `data.ReadDirAll` calls a store `List` that is not part of this model. The listing is an argument.
- The rest of `cfs/cfs.go`: mounting, the bolt database, the archive registry, the node attributes other than `done.Attr`, and the store work after the guard in `root.Remove`.
- Afs.Writer.Write: the position is an unbounded integer, so the model does not capture the int64 wrap-around of `pos` after 2^63 bytes.
- Afs.Writer.Write: requires the sink's count to be at most the buffer's length, which is the `io.Writer` contract the source relies on.
- FsTree.AddAt: requires a clean absolute name, because `filepath.Dir` and `filepath.Base` are modelled only on such names rather than reimplementing `filepath.Clean`. The same holds for FsTree.RemoveAt, FsTree.NodeStore.Add and FsTree.NodeStore.Remove.
- FsTree.RemoveSucceedsExactly: stated only below the top level. The top-level case is covered by FsTree.RmdirTopLevelMisses and FsTree.AddTopLevelRoundTrip, which start from a tree holding only the root.
- FsTree.GetViaParent, FsTree.RemoveGone and FsTree.ResolveDetached: stated only below the top level, for the same reason.
- FsTree.RmdirTopLevelMisses: shown only for a tree holding only the root.
- FsTree.AddTopLevelRoundTrip: shown only for a tree holding only the root.
- Cfs.DoneRead: requires `0 <= off <= len(donemsg)` and `size >= 0`. Outside these bounds the slice in the source panics, and the panic is not modelled.
- FsTree.Text: the message texts follow `fmt.Errorf` with its arguments supplied. Go's formatting machinery is not modelled beyond these fixed strings.

## Findings

| source | as written | input that shows it | evidently intended | confidence | as-written member | corrected member |
|---|---|---|---|---|---|---|
| afs/fstree.go:123, afs/fstree.go:127 | `fmt.Errorf("%s: is a directory")` and `fmt.Errorf("%s: directory not empty")` are given no argument for `%s`, so Go prints "%!s(MISSING): is a directory" | `remove("/d", false)` where `/d` is a directory, and the same for `/e`: both errors read "%!s(MISSING): is a directory" | the message names the path, "/d: is a directory", as the other messages of the file do | high, not executed | FsTree.AsWrittenTextDropsPath | FsTree.TextInjective |
