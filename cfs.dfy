/**
 * The small decisions of the FUSE front end in cfs/cfs.go: the `done`
 * control file, the listing and lookup of an archive directory, the
 * mapping of a store listing to directory entries, and the guard that
 * refuses to remove a non-directory at the root. The FUSE server, the bolt
 * database and the archive registry are not modelled; the store's listing
 * is given to `DataReadDirAll` as an argument.
 */
module Cfs {
  import opened Wrappers
  import Afs

  /** The errors the front end returns itself. */
  datatype Errno = ENOENT | ENOTSUP

  /** `fuse.Attr`, reduced to the fields the modelled nodes set. */
  datatype Attr = Attr(size: nat, mode: int)

  datatype DirentType = DT_Dir | DT_File

  datatype Dirent = Dirent(name: string, kind: DirentType)

  /** `donemsg`: ASCII text, one character per byte. */
  const DoneMsg: string := "Remove this file to finalize the archive.\n"

  /** `done.Attr`: the file's size is the message's length; mode 0644. */
  function DoneAttr(): (a: Attr)
    ensures a.size == |DoneMsg| == 42
    ensures a.mode == 0x1A4
  {
    Attr(|DoneMsg|, 0x1A4)
  }

  function Min(a: int, b: int): int {
    if a < b then a else b
  }

  /**
   * `done.Read`: at most `size` bytes of the message from `off`, cut at its
   * end. Outside the precondition the slice in the source panics.
   */
  function DoneRead(off: int, size: int): (data: string)
    requires 0 <= off <= |DoneMsg| && 0 <= size
    ensures |data| == Min(size, |DoneMsg| - off)
    ensures off + |data| <= |DoneMsg|
    ensures data == DoneMsg[off..off + |data|]
  {
    var end := if off + size > |DoneMsg| then |DoneMsg| else off + size;
    DoneMsg[off..end]
  }

  /** Reading on from where a read stopped continues the message: two reads
      of `a` and `b` bytes give what one read of `a + b` bytes gives. */
  lemma DoneReadConsecutive(off: int, a: nat, b: nat)
    requires 0 <= off <= |DoneMsg|
    ensures off + |DoneRead(off, a)| <= |DoneMsg|
    ensures DoneRead(off, a) + DoneRead(off + |DoneRead(off, a)|, b) == DoneRead(off, a + b)
  {
    var first := DoneRead(off, a);
    var mid := off + |first|;
    var second := DoneRead(mid, b);
    assert DoneMsg[off..mid] + DoneMsg[mid..mid + |second|] == DoneMsg[off..mid + |second|];
  }

  /** A read from the start that asks for at least the message's length
      returns the whole message. */
  lemma DoneReadWhole(size: int)
    requires size >= |DoneMsg|
    ensures DoneRead(0, size) == DoneMsg
  {
  }

  /** `archive.ReadDirAll`: `data` and `status` always, then `done` while
      the archive is not final. */
  function ArchiveReadDirAll(final: bool): (out: seq<Dirent>)
    ensures |out| == (if final then 2 else 3)
    ensures out[0] == Dirent("data", DT_Dir) && out[1] == Dirent("status", DT_File)
    ensures !final ==> out[2] == Dirent("done", DT_File)
  {
    var out := [Dirent("data", DT_Dir), Dirent("status", DT_File)];
    if !final then out + [Dirent("done", DT_File)] else out
  }

  /** `archive`: whether it has been finalized, its identifier and its
      store. */
  datatype Archive = Archive(final: bool, uuid: string, fs: Afs.FileSystem)

  /** The nodes `archive.Lookup` can return. */
  datatype ArchiveChild =
    | DoneNode
    | DataNode(uuid: string, path: string, fs: Afs.FileSystem)

  /** `archive.Lookup`. */
  function ArchiveLookup(a: Archive, name: string): (r: Result<ArchiveChild, Errno>)
    ensures r == Success(DoneNode) <==> name == "done" && !a.final
    ensures name == "data" <==> r == Success(DataNode(a.uuid, "/", a.fs))
    ensures r.Failure? <==> name != "data" && (name != "done" || a.final)
    ensures r.Failure? ==> r.error == ENOENT
  {
    if name == "done" && !a.final then Success(DoneNode)
    else if name == "data" then Success(DataNode(a.uuid, "/", a.fs))
    else Failure(ENOENT)
  }

  /**
   * Lookup finds exactly the listed names other than `status`, which is
   * listed but not found.
   */
  lemma LookupAgreesWithListing(a: Archive, name: string)
    ensures ArchiveLookup(a, name).Success? <==>
      name != "status" && exists i :: 0 <= i < |ArchiveReadDirAll(a.final)| && ArchiveReadDirAll(a.final)[i].name == name
  {
    var out := ArchiveReadDirAll(a.final);
    if ArchiveLookup(a, name).Success? {
      assert out[if name == "data" then 0 else 2].name == name;
    }
  }

  /** An entry of the store's listing: its name and whether it is a
      directory. */
  datatype ListEntry = ListEntry(name: string, directory: bool)

  /**
   * `data.ReadDirAll`, given the result of listing the store at the
   * node's path: one entry per listed item, in order, with the same name,
   * a directory entry exactly for the directories; a failed listing gives
   * no entries and passes its error on.
   */
  method DataReadDirAll<E>(listing: Result<seq<ListEntry>, E>) returns (out: seq<Dirent>, err: Option<E>)
    ensures listing.Failure? ==> out == [] && err == Some(listing.error)
    ensures listing.Success? ==> err == None && |out| == |listing.value|
    ensures listing.Success? ==> forall i :: 0 <= i < |out| ==>
      out[i].name == listing.value[i].name && (out[i].kind == DT_Dir <==> listing.value[i].directory)
  {
    out := [];
    if listing.Failure? {
      return out, Some(listing.error);
    }
    var ls := listing.value;
    var k := 0;
    while k < |ls|
      invariant 0 <= k <= |ls| && |out| == k
      invariant forall i :: 0 <= i < k ==>
        out[i].name == ls[i].name && (out[i].kind == DT_Dir <==> ls[i].directory)
    {
      var t := DT_File;
      if ls[k].directory {
        t := DT_Dir;
      }
      out := out + [Dirent(ls[k].name, t)];
      k := k + 1;
    }
    err := None;
  }

  /**
   * The first step of `root.Remove`: a request that is not for a directory
   * is refused with `ENOTSUP` before the store is touched; `None` means
   * the request goes on to the store.
   */
  function RootRemoveGuard(dir: bool): (r: Option<Errno>)
    ensures r.Some? <==> !dir
    ensures r.Some? ==> r.value == ENOTSUP
  {
    if !dir then Some(ENOTSUP) else None
  }
}
