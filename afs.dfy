/**
 * The append-only log writer of afs/afs.go and the file handles of
 * afs/file.go. Every handle opened on a `FileSystem` writes through the one
 * shared writer: the bytes go to the end of a single log, and the index
 * records, under the handle's name, where each write began and how many
 * bytes it added. The backing file is an abstract sink: each write is given
 * the sink's reply (the count it accepted and an optional error) as an
 * argument, and the bytes themselves are not modelled.
 */
module Afs {
  import opened Wrappers
  import opened ExtentLog

  newtype byte = b: int | 0 <= b < 256

  /** The errors a handle can report: `io.EOF`, or one passed on from the
      sink. */
  datatype IoError = EOF | SinkError(msg: string)

  /** What the sink's `Write` returned: `0 <= n <= len(p)` and an optional
      error. */
  datatype SinkReply = SinkReply(n: nat, err: Option<IoError>)

  /** `metadata` (afs/afs.go:104-110). */
  class Metadata {
    var offsets: Offsets

    /** `make(map[string][][2]int64)` as `New` does it. */
    constructor()
      ensures offsets == map[]
    {
      offsets := map[];
    }

    /** `metadata.update`: append `[pos, off]` to the list of `name`. */
    method Update(name: string, pos: int, off: int)
      modifies this
      ensures offsets == ExtentLog.Update(old(offsets), name, Extent(pos, off))
    {
      offsets := offsets[name := Lookup(offsets, name) + [Extent(pos, off)]];
    }
  }

  /** `writer` (afs/afs.go:86-102); the mutex is left out. */
  class Writer {
    const meta: Metadata
    var pos: int
    /** The writes made so far, in order. */
    ghost var history: seq<Entry>

    /** The index and the position are those the history produces. */
    ghost predicate Valid()
      reads this, meta
    {
      meta.offsets == Replay(history) && pos == LogLength(history)
    }

    constructor(meta: Metadata)
      requires meta.offsets == map[]
      ensures this.meta == meta && pos == 0 && history == []
      ensures Valid()
    {
      this.meta := meta;
      pos := 0;
      history := [];
    }

    /**
     * `writer.write`: the extent `[old pos, n]` is recorded under `name`
     * and `pos` advances by `n`, the count the sink reported, whether or
     * not the sink also reported an error; its reply is passed on.
     */
    method Write(name: string, p: seq<byte>, reply: SinkReply) returns (n: int, err: Option<IoError>)
      requires Valid() && reply.n <= |p|
      modifies this, meta
      ensures Valid() && Tiled(meta.offsets, pos)
      ensures n == reply.n && err == reply.err
      ensures pos == old(pos) + n
      ensures meta.offsets == ExtentLog.Update(old(meta.offsets), name, Extent(old(pos), n))
      ensures history == old(history) + [Entry(name, reply.n)]
    {
      var start := pos;
      n, err := reply.n, reply.err;
      pos := pos + n;
      meta.Update(name, start, n);
      assert (history + [Entry(name, reply.n)])[..|history|] == history;
      history := history + [Entry(name, reply.n)];
      ReplayTiled(history);
    }
  }

  /** `FileSystem` (afs/afs.go:31-65). */
  class FileSystem {
    const uuid: string
    const w: Writer
    const m: Metadata

    ghost predicate Valid()
      reads this, w, m
    {
      w.meta == m && w.Valid()
    }

    /** The in-memory state `New` builds: an empty index and a writer at
        position 0. The identifier is a parameter; creating the backing
        file is not modelled. */
    constructor(uuid: string)
      ensures Valid() && fresh(w) && fresh(m)
      ensures this.uuid == uuid && m.offsets == map[] && w.pos == 0 && w.history == []
    {
      var meta := new Metadata();
      this.uuid := uuid;
      m := meta;
      w := new Writer(meta);
    }

    /** `Open`: a new handle bound to `name` and the shared writer; no
        state changes. */
    method Open(name: string) returns (f: File, err: Option<IoError>)
      ensures fresh(f) && f.name == name && f.w == w && err == None
    {
      f := new File(name, w);
      err := None;
    }

    /** `Remove` does nothing: it reports success and changes no state. */
    method Remove(name: string) returns (err: Option<IoError>)
      ensures err == None
    {
      err := None;
    }
  }

  /** A `time.Time`, as seconds and nanoseconds; its zero value is the
      zero time. */
  datatype Time = Time(sec: int, nsec: int)

  /** `File` (afs/file.go:23-66): a write handle that also serves as its
      own `os.FileInfo`. */
  class File {
    const name: string
    const w: Writer

    constructor(name: string, w: Writer)
      ensures this.name == name && this.w == w
    {
      this.name := name;
      this.w := w;
    }

    /** `Stat` returns the handle itself. */
    method Stat() returns (info: File, err: Option<IoError>)
      ensures info == this && err == None
    {
      info := this;
      err := None;
    }

    /** `Write` appends to the shared log under this handle's name. */
    method Write(b: seq<byte>, reply: SinkReply) returns (n: int, err: Option<IoError>)
      requires w.Valid() && reply.n <= |b|
      modifies w, w.meta
      ensures w.Valid() && Tiled(w.meta.offsets, w.pos)
      ensures n == reply.n && err == reply.err
      ensures w.pos == old(w.pos) + n
      ensures w.meta.offsets == ExtentLog.Update(old(w.meta.offsets), name, Extent(old(w.pos), n))
      ensures w.history == old(w.history) + [Entry(name, reply.n)]
    {
      n, err := w.Write(name, b, reply);
    }

    /** `Read` never yields data. */
    method Read(b: seq<byte>) returns (n: int, err: Option<IoError>)
      ensures n == 0 && err == Some(EOF)
    {
      n, err := 0, Some(EOF);
    }

    /** `Close` reports success and changes no state. */
    method Close() returns (err: Option<IoError>)
      ensures err == None
    {
      err := None;
    }

    /** The `os.FileInfo` accessors report the same constants for every
        handle. */
    function Name(): (s: string)
      ensures s == ""
    {
      ""
    }

    function Size(): (s: int)
      ensures s == 0
    {
      0
    }

    /** `os.FileMode(0777)`. */
    function Mode(): (mode: int)
      ensures mode == 0x1FF
    {
      0x1FF
    }

    function ModTime(): (t: Time)
      ensures t.sec == 0 && t.nsec == 0
    {
      Time(0, 0)
    }

    function IsDir(): (d: bool)
      ensures !d
    {
      false
    }

    /** `Sys` returns nil. */
    function Sys(): (v: Option<int>)
      ensures v == None
    {
      None
    }
  }
}
