/**
 * The in-memory namespace tree of afs/fstree.go.
 *
 * Every Go `*node` is an address (`Ref`) into the heap `nodes` of a
 * `NodeStore`; a node record holds the fields `dir`, `sub` and `uuid`. The
 * statements `n.sub[s] = ...` and `delete(d.sub, ...)` become updates of
 * the record stored at `n`. Allocation (`&node{...}`) hands out the next
 * unused address, so every link points from an older node to a younger
 * one: the heap is acyclic and a walk from any node terminates.
 * A nil `sub` map and an empty one behave alike in every operation of the
 * file, so both are the empty map here.
 */
module FsTree {
  import opened Paths
  import opened Wrappers

  type Ref = nat

  /** One `node`: a directory or a file, its children by name, its uuid. */
  datatype Node = Node(dir: bool, sub: map<string, Ref>, uuid: string)

  type Heap = map<Ref, Node>

  /** The errors of afs/fstree.go, with the path each message carries. */
  datatype FsError =
    | NotADirectory
    | AlreadyExists(name: string)
    | NoSuchFile(name: string)
    | IsADirectory(name: string)
    | DirectoryNotEmpty(name: string)

  type Result<T> = Wrappers.Result<T, FsError>

  /** Every link of node `r` leads to a younger node of the heap. */
  ghost predicate LinksForward(h: Heap, r: Ref)
    requires r in h
  {
    forall s :: s in h[r].sub ==> r < h[r].sub[s] && h[r].sub[s] in h
  }

  /** The shape every reachable state has: forward links, childless files. */
  ghost predicate WellFormed(h: Heap) {
    forall r {:trigger h[r]} :: r in h ==> LinksForward(h, r) && (!h[r].dir ==> h[r].sub == map[])
  }

  /** `next` is beyond every allocated address. */
  ghost predicate Bounded(h: Heap, next: Ref) {
    forall r :: r in h ==> r < next
  }

  /**
   * `get` (afs/fstree.go:83-103): walk `name` from `n`, one segment at a
   * time; a missing segment fails with the path that remained at that
   * level. A successful walk ends at a younger node than it started from.
   */
  function Get(h: Heap, n: Ref, name: string): (r: Result<Ref>)
    requires WellFormed(h) && n in h
    ensures r.Success? ==> r.value in h && n < r.value
    ensures r.Failure? ==> r.error.NoSuchFile?
    decreases |name|
  {
    var (s, rest) := Split(name);
    if s !in h[n].sub then Failure(NoSuchFile(name))
    else if rest == "" then Success(h[n].sub[s])
    else Get(h, h[n].sub[s], rest)
  }

  /**
   * Walking the existing part of `name` from `n` meets a file where a
   * directory is needed: `n` itself, the node of the last segment, or an
   * intermediate node. `mkdir` fails exactly in this case.
   */
  ghost predicate HitsFile(h: Heap, n: Ref, name: string)
    requires WellFormed(h) && n in h
    decreases |name|
  {
    if !h[n].dir then true
    else
      var (s, rest) := Split(name);
      if s !in h[n].sub then false
      else if rest == "" then !h[h[n].sub[s]].dir
      else HitsFile(h, h[n].sub[s], rest)
  }

  /**
   * The existing nodes whose `sub` map `mkdir` of `name` from `n` may
   * write (afs/fstree.go:57, 61): `n`, and for each inner segment that is
   * already present, the nodes of the walk below it.
   */
  ghost function Walked(h: Heap, n: Ref, name: string): (w: set<Ref>)
    requires WellFormed(h) && n in h
    ensures n in w && forall r :: r in w ==> r in h && n <= r
    decreases |name|
  {
    var (s, rest) := Split(name);
    if rest != "" && s in h[n].sub then {n} + Walked(h, h[n].sub[s], rest) else {n}
  }

  /** `h` grows into `h'`: no node vanishes or changes kind or uuid, and
      every existing link is kept. */
  ghost predicate Grows(h: Heap, h': Heap) {
    forall r :: r in h ==>
      && r in h'
      && h'[r].dir == h[r].dir
      && h'[r].uuid == h[r].uuid
      && h[r].sub.Keys <= h'[r].sub.Keys
      && (forall s :: s in h[r].sub ==> h'[r].sub[s] == h[r].sub[s])
  }

  /** The nodes of `h'` that `h` lacks were allocated in [lo, hi) as
      directories with an empty uuid. */
  ghost predicate FreshDirs(h: Heap, h': Heap, lo: Ref, hi: Ref) {
    forall r :: r in h' && r !in h ==> lo <= r < hi && h'[r].dir && h'[r].uuid == ""
  }

  /** `&node{dir: dir}` at the next unused address: no children, no uuid. */
  function NewNode(h: Heap, next: Ref, dir: bool): (h': Heap)
    requires WellFormed(h) && Bounded(h, next)
    ensures WellFormed(h') && Bounded(h', next + 1) && Grows(h, h')
    ensures next !in h && h'.Keys == h.Keys + {next} && h'[next] == Node(dir, map[], "")
    ensures forall r :: r in h ==> h'[r] == h[r]
  {
    var h' := h[next := Node(dir, map[], "")];
    assert forall r :: r in h ==> LinksForward(h', r) by {
      forall r | r in h ensures LinksForward(h', r) { assert LinksForward(h, r); }
    }
    assert LinksForward(h', next);
    h'
  }

  /** `n.sub[s] = c` for a directory `n` and a younger node `c`. A new
      name only adds a link; no other node changes. */
  function Attach(h: Heap, n: Ref, s: string, c: Ref): (h': Heap)
    requires WellFormed(h) && n in h && h[n].dir && c in h && n < c
    ensures WellFormed(h') && h'.Keys == h.Keys
    ensures h'[n] == h[n].(sub := h[n].sub[s := c])
    ensures s !in h[n].sub ==> Grows(h, h')
    ensures forall r :: r in h && r != n ==> h'[r] == h[r]
  {
    var h' := h[n := h[n].(sub := h[n].sub[s := c])];
    assert LinksForward(h', n);
    h'
  }

  /** `delete(d.sub, b)`: drops one link; every other node is unchanged. */
  function Detach(h: Heap, d: Ref, b: string): (h': Heap)
    requires WellFormed(h) && d in h
    ensures WellFormed(h') && h'.Keys == h.Keys
    ensures h'[d] == h[d].(sub := h[d].sub - {b})
    ensures forall r :: r in h && r != d ==> h'[r] == h[r]
  {
    var h' := h[d := h[d].(sub := h[d].sub - {b})];
    assert LinksForward(h', d);
    h'
  }

  lemma GrowsTransitive(a: Heap, b: Heap, c: Heap)
    requires Grows(a, b) && Grows(b, c)
    ensures Grows(a, c)
  {
  }

  lemma FreshDirsTransitive(a: Heap, b: Heap, c: Heap, lo: Ref, mid: Ref, hi: Ref)
    requires Grows(b, c) && FreshDirs(a, b, lo, mid) && FreshDirs(b, c, mid, hi) && lo <= mid <= hi
    ensures FreshDirs(a, c, lo, hi)
  {
    forall r | r in c && r !in a
      ensures lo <= r < hi && c[r].dir && c[r].uuid == ""
    {
      if r in b {
        assert lo <= r < mid && b[r].dir && b[r].uuid == "";
      }
    }
  }

  /**
   * The walk of `a + "/" + b` is the walk of `a` followed by the walk of
   * "/" + b from where it ended; if `a` does not resolve, neither does the
   * longer path. Holds for every non-empty `a`.
   */
  lemma {:induction false} GetExtend(h: Heap, n: Ref, a: string, b: string)
    requires WellFormed(h) && n in h && a != ""
    ensures Get(h, n, a).Failure? ==> Get(h, n, a + "/" + b).Failure?
    ensures Get(h, n, a).Success? ==> Get(h, n, a + "/" + b) == Get(h, Get(h, n, a).value, "/" + b)
    decreases |a|
  {
    SplitExtend(a, b);
    var (s, rest) := Split(a);
    if rest != "" && s in h[n].sub {
      GetExtend(h, h[n].sub[s], rest, b);
    }
  }

  /** A path that runs on below a file does not resolve (a file's `sub` is
      nil, so the lookup at afs/fstree.go:95 misses). */
  lemma BelowFileMissing(h: Heap, n: Ref, a: string, b: string)
    requires WellFormed(h) && n in h && a != ""
    requires Get(h, n, a).Success? && !h[Get(h, n, a).value].dir
    ensures Get(h, n, a + "/" + b).Failure?
  {
    GetExtend(h, n, a, b);
  }

  /**
   * A walk only reads the records of the nodes it passes before its end,
   * all older than the node it reaches; a heap that agrees on those
   * resolves the path to the same node.
   */
  lemma {:induction false} GetFrame(h: Heap, h': Heap, n: Ref, name: string)
    requires WellFormed(h) && WellFormed(h') && n in h
    requires Get(h, n, name).Success?
    requires forall r :: r in h && r < Get(h, n, name).value ==> r in h' && h'[r] == h[r]
    ensures n in h' && Get(h', n, name) == Get(h, n, name)
    decreases |name|
  {
    var (s, rest) := Split(name);
    if rest != "" {
      GetFrame(h, h', h[n].sub[s], rest);
    }
  }

  /** After `dir.sub[Base(name)] = f` at the node the parent path resolves
      to, the parent still resolves there and, below the root, `name`
      resolves to `f`. */
  lemma ResolveAttached(h: Heap, n: Ref, name: string, f: Ref)
    requires WellFormed(h) && n in h && IsCleanAbs(name)
    requires Get(h, n, Dir(name)).Success? && h[Get(h, n, Dir(name)).value].dir
    requires f in h && Get(h, n, Dir(name)).value < f
    ensures Get(Attach(h, Get(h, n, Dir(name)).value, Base(name), f), n, Dir(name)) == Get(h, n, Dir(name))
    ensures Dir(name) != "/" ==> Get(Attach(h, Get(h, n, Dir(name)).value, Base(name), f), n, name) == Success(f)
  {
    var a, b := Dir(name), Base(name);
    var h' := Attach(h, Get(h, n, a).value, b, f);
    GetFrame(h, h', n, a);
    if a != "/" {
      GetExtend(h', n, a, b);
      SplitSingle(b);
    }
  }

  /** After `delete(dir.sub, Base(name))` at the node the parent path
      resolves to, below the root `name` no longer resolves. */
  lemma ResolveDetached(h: Heap, n: Ref, name: string)
    requires WellFormed(h) && n in h && IsCleanAbs(name)
    requires Get(h, n, Dir(name)).Success?
    ensures Dir(name) != "/" ==> Get(Detach(h, Get(h, n, Dir(name)).value, Base(name)), n, name).Failure?
  {
    var a, b := Dir(name), Base(name);
    var h' := Detach(h, Get(h, n, a).value, b);
    if a != "/" {
      GetFrame(h, h', n, a);
      GetExtend(h', n, a, b);
      SplitSingle(b);
    }
  }

  /** A path that resolves to a file is one `mkdir` refuses. */
  lemma {:induction false} ResolvedFileHitsFile(h: Heap, n: Ref, name: string)
    requires WellFormed(h) && n in h
    requires Get(h, n, name).Success? && !h[Get(h, n, name).value].dir
    ensures HitsFile(h, n, name)
    decreases |name|
  {
    var (s, rest) := Split(name);
    if rest != "" {
      ResolvedFileHitsFile(h, h[n].sub[s], rest);
    }
  }

  /** The result of one tree operation and the heap and allocator it leaves. */
  datatype Outcome = Outcome(res: Result<Ref>, heap: Heap, next: Ref)

  /** `n.sub[s] = &node{dir: true}` for a name `s` that `n` lacks: a fresh,
      empty directory at the next address, linked from `n`. */
  function LinkFreshDir(h: Heap, next: Ref, n: Ref, s: string): (h': Heap)
    requires WellFormed(h) && Bounded(h, next) && n in h && h[n].dir && s !in h[n].sub
    ensures WellFormed(h') && Bounded(h', next + 1)
    ensures next !in h && next in h' && h'[next] == Node(true, map[], "")
  {
    var h1 := h[next := Node(true, map[], "")];
    var h' := h1[n := h[n].(sub := h[n].sub[s := next])];
    assert forall r :: r in h && r != n ==> h'[r] == h[r];
    assert forall r | r in h' :: LinksForward(h', r) by {
      forall r | r in h' ensures LinksForward(h', r) {
        if r != n && r != next { assert LinksForward(h, r); }
      }
    }
    h'
  }

  /** Linking a fresh directory only adds: the new link and the new node. */
  lemma LinkFreshDirGrows(h: Heap, next: Ref, n: Ref, s: string)
    requires WellFormed(h) && Bounded(h, next) && n in h && h[n].dir && s !in h[n].sub
    ensures LinkFreshDir(h, next, n, s)[n].sub == h[n].sub[s := next]
    ensures forall r :: r in h && r != n ==> LinkFreshDir(h, next, n, s)[r] == h[r]
    ensures Grows(h, LinkFreshDir(h, next, n, s))
    ensures FreshDirs(h, LinkFreshDir(h, next, n, s), next, next + 1)
  {
  }

  /**
   * The child `s` of directory `n`, after linking a fresh directory there
   * if `n` lacked one (afs/fstree.go:56-57 and 60-62).
   */
  function ChildDir(h: Heap, next: Ref, n: Ref, s: string): (o: Outcome)
    requires WellFormed(h) && Bounded(h, next) && n in h && h[n].dir
    ensures WellFormed(o.heap) && Bounded(o.heap, o.next) && next <= o.next
    ensures o.res.Success? && n in o.heap && s in o.heap[n].sub && o.heap[n].sub[s] == o.res.value
  {
    if s in h[n].sub then Outcome(Success(h[n].sub[s]), h, next)
    else
      LinkFreshDirGrows(h, next, n, s);
      Outcome(Success(next), LinkFreshDir(h, next, n, s), next + 1)
  }

  /** `ChildDir` keeps every node and link and adds at most one fresh
      directory, the one it returns. */
  lemma ChildDirGrows(h: Heap, next: Ref, n: Ref, s: string)
    requires WellFormed(h) && Bounded(h, next) && n in h && h[n].dir
    ensures Grows(h, ChildDir(h, next, n, s).heap)
    ensures FreshDirs(h, ChildDir(h, next, n, s).heap, next, ChildDir(h, next, n, s).next)
  {
    if s !in h[n].sub {
      LinkFreshDirGrows(h, next, n, s);
    }
  }

  /**
   * `mkdir` (afs/fstree.go:32-64) as a function of the heap: refuse a
   * file; for the last segment refuse an existing file, or return the
   * existing or a freshly linked directory; for an inner segment descend
   * into the existing or a freshly linked child.
   */
  function MkdirAt(h: Heap, next: Ref, n: Ref, name: string): (o: Outcome)
    requires WellFormed(h) && Bounded(h, next) && n in h
    ensures WellFormed(o.heap) && Bounded(o.heap, o.next) && next <= o.next
    decreases |name|
  {
    if !h[n].dir then Outcome(Failure(NotADirectory), h, next)
    else
      var (s, rest) := Split(name);
      if rest == "" then
        if s in h[n].sub && !h[h[n].sub[s]].dir then Outcome(Failure(AlreadyExists(name)), h, next)
        else ChildDir(h, next, n, s)
      else
        var c := ChildDir(h, next, n, s);
        MkdirAt(c.heap, c.next, c.res.value, rest)
  }

  /** `mkdir` keeps every node and link, and what it adds are fresh
      directories. */
  lemma {:induction false} MkdirGrows(h: Heap, next: Ref, n: Ref, name: string)
    requires WellFormed(h) && Bounded(h, next) && n in h
    ensures Grows(h, MkdirAt(h, next, n, name).heap)
    ensures FreshDirs(h, MkdirAt(h, next, n, name).heap, next, MkdirAt(h, next, n, name).next)
    decreases |name|
  {
    if h[n].dir {
      var (s, rest) := Split(name);
      var c := ChildDir(h, next, n, s);
      ChildDirGrows(h, next, n, s);
      if rest != "" {
        var o := MkdirAt(c.heap, c.next, c.res.value, rest);
        MkdirGrows(c.heap, c.next, c.res.value, rest);
        GrowsTransitive(h, c.heap, o.heap);
        FreshDirsTransitive(h, c.heap, o.heap, next, c.next, o.next);
      }
    }
  }

  /** A set that gains at most `s` gains at most one element. */
  lemma AtMostOneNew(a: set<string>, b: set<string>, s: string)
    requires b <= a + {s}
    ensures |b - a| <= 1
  {
    if s in b - a {
      assert b - a == {s};
    } else {
      assert b - a == {};
    }
  }

  /** The step `ChildDir` writes only `n`, and adds at most the entry `s`. */
  lemma ChildDirFrame(h: Heap, next: Ref, n: Ref, s: string)
    requires WellFormed(h) && Bounded(h, next) && n in h && h[n].dir
    ensures var c := ChildDir(h, next, n, s);
      && (forall r :: r in h && r != n ==> r in c.heap && c.heap[r] == h[r])
      && c.heap[n].sub.Keys <= h[n].sub.Keys + {s}
  {
    if s !in h[n].sub {
      LinkFreshDirGrows(h, next, n, s);
    }
  }

  /**
   * `mkdir` writes only the nodes it walks through: every other existing
   * node keeps its record, and each walked node gains at most one entry.
   */
  lemma {:induction false} MkdirFrame(h: Heap, next: Ref, n: Ref, name: string)
    requires WellFormed(h) && Bounded(h, next) && n in h
    ensures var o := MkdirAt(h, next, n, name);
      forall r :: r in h && r !in Walked(h, n, name) ==> r in o.heap && o.heap[r] == h[r]
    ensures var o := MkdirAt(h, next, n, name);
      forall r :: r in Walked(h, n, name) ==> r in o.heap && |o.heap[r].sub.Keys - h[r].sub.Keys| <= 1
    decreases |name|
  {
    if h[n].dir {
      var (s, rest) := Split(name);
      ChildDirFrame(h, next, n, s);
      var c := ChildDir(h, next, n, s);
      AtMostOneNew(h[n].sub.Keys, c.heap[n].sub.Keys, s);
      if rest != "" {
        if s in h[n].sub {
          MkdirFrameExisting(h, next, n, name);
        } else {
          MkdirFrameFresh(h, next, n, name);
        }
      }
    }
  }

  /** The inner step of `MkdirFrame` through an existing child. */
  lemma {:induction false} MkdirFrameExisting(h: Heap, next: Ref, n: Ref, name: string)
    requires WellFormed(h) && Bounded(h, next) && n in h && h[n].dir
    requires Split(name).1 != "" && Split(name).0 in h[n].sub
    ensures var o := MkdirAt(h, next, n, name);
      forall r :: r in h && r !in Walked(h, n, name) ==> r in o.heap && o.heap[r] == h[r]
    ensures var o := MkdirAt(h, next, n, name);
      forall r :: r in Walked(h, n, name) ==> r in o.heap && |o.heap[r].sub.Keys - h[r].sub.Keys| <= 1
    decreases |name|, 0
  {
    var (s, rest) := Split(name);
    var v := h[n].sub[s];
    assert ChildDir(h, next, n, s) == Outcome(Success(v), h, next);
    var o := MkdirAt(h, next, v, rest);
    assert MkdirAt(h, next, n, name) == o;
    assert Walked(h, n, name) == {n} + Walked(h, v, rest);
    MkdirFrame(h, next, v, rest);
    assert n !in Walked(h, v, rest);
  }

  /** The inner step of `MkdirFrame` through a freshly linked child. */
  lemma {:induction false} MkdirFrameFresh(h: Heap, next: Ref, n: Ref, name: string)
    requires WellFormed(h) && Bounded(h, next) && n in h && h[n].dir
    requires Split(name).1 != "" && Split(name).0 !in h[n].sub
    ensures var o := MkdirAt(h, next, n, name);
      forall r :: r in h && r !in Walked(h, n, name) ==> r in o.heap && o.heap[r] == h[r]
    ensures var o := MkdirAt(h, next, n, name);
      forall r :: r in Walked(h, n, name) ==> r in o.heap && |o.heap[r].sub.Keys - h[r].sub.Keys| <= 1
    decreases |name|, 0
  {
    var (s, rest) := Split(name);
    ChildDirFrame(h, next, n, s);
    var c := ChildDir(h, next, n, s);
    AtMostOneNew(h[n].sub.Keys, c.heap[n].sub.Keys, s);
    var v := c.res.value;
    assert v == next;
    var o := MkdirAt(c.heap, c.next, v, rest);
    assert MkdirAt(h, next, n, name) == o;
    assert Walked(h, n, name) == {n};
    MkdirFrame(c.heap, c.next, v, rest);
    assert forall r :: r in h ==> r !in Walked(c.heap, v, rest);
  }

  /** Where the walk meets a file, `mkdir` fails and changes nothing. */
  lemma {:induction false} MkdirRefusesFile(h: Heap, next: Ref, n: Ref, name: string)
    requires WellFormed(h) && Bounded(h, next) && n in h
    requires HitsFile(h, n, name)
    ensures MkdirAt(h, next, n, name).res.Failure?
    ensures MkdirAt(h, next, n, name).heap == h && MkdirAt(h, next, n, name).next == next
    decreases |name|
  {
    var (s, rest) := Split(name);
    if h[n].dir && rest != "" {
      MkdirRefusesFile(h, next, h[n].sub[s], rest);
    }
  }

  /** Below an empty directory `mkdir` cannot fail. */
  lemma {:induction false} MkdirBelowEmpty(h: Heap, next: Ref, n: Ref, name: string)
    requires WellFormed(h) && Bounded(h, next) && n in h
    requires h[n].dir && h[n].sub == map[]
    ensures MkdirAt(h, next, n, name).res.Success?
    decreases |name|
  {
    var (s, rest) := Split(name);
    if rest != "" {
      var c := ChildDir(h, next, n, s);
      MkdirBelowEmpty(c.heap, c.next, c.res.value, rest);
    }
  }

  /** Where the walk meets no file, `mkdir` succeeds. */
  lemma {:induction false} MkdirSucceedsOffFile(h: Heap, next: Ref, n: Ref, name: string)
    requires WellFormed(h) && Bounded(h, next) && n in h
    requires !HitsFile(h, n, name)
    ensures MkdirAt(h, next, n, name).res.Success?
    decreases |name|
  {
    var (s, rest) := Split(name);
    if rest != "" {
      var c := ChildDir(h, next, n, s);
      if s in h[n].sub {
        MkdirSucceedsOffFile(h, next, h[n].sub[s], rest);
      } else {
        MkdirBelowEmpty(c.heap, c.next, c.res.value, rest);
      }
    }
  }

  /** `mkdir` fails exactly when the existing part of the path meets a file,
      and a failing `mkdir` leaves the heap as it was. */
  lemma MkdirFailsExactly(h: Heap, next: Ref, n: Ref, name: string)
    requires WellFormed(h) && Bounded(h, next) && n in h
    ensures MkdirAt(h, next, n, name).res.Failure? <==> HitsFile(h, n, name)
    ensures MkdirAt(h, next, n, name).res.Failure? ==>
      MkdirAt(h, next, n, name).heap == h && MkdirAt(h, next, n, name).next == next
  {
    if HitsFile(h, n, name) {
      MkdirRefusesFile(h, next, n, name);
    } else {
      MkdirSucceedsOffFile(h, next, n, name);
    }
  }

  /** A successful `mkdir` returns a directory below `n` that `name` now
      resolves to. */
  lemma {:induction false} MkdirResolves(h: Heap, next: Ref, n: Ref, name: string)
    requires WellFormed(h) && Bounded(h, next) && n in h
    ensures var o := MkdirAt(h, next, n, name);
      o.res.Success? ==>
        n < o.res.value && o.res.value in o.heap && o.heap[o.res.value].dir &&
        n in o.heap && Get(o.heap, n, name) == o.res
    decreases |name|
  {
    if h[n].dir {
      var (s, rest) := Split(name);
      var c := ChildDir(h, next, n, s);
      if rest != "" {
        var o := MkdirAt(c.heap, c.next, c.res.value, rest);
        MkdirResolves(c.heap, c.next, c.res.value, rest);
        MkdirGrows(c.heap, c.next, c.res.value, rest);
        assert o.res.Success? ==> n in o.heap && o.heap[n].sub[s] == c.res.value;
      }
    }
  }

  /** `mkdir` of a path that already names a directory returns that very
      node and changes nothing (afs/fstree.go:49-54). */
  lemma {:induction false} MkdirIdempotent(h: Heap, next: Ref, n: Ref, name: string)
    requires WellFormed(h) && Bounded(h, next) && n in h
    requires Get(h, n, name).Success? && h[Get(h, n, name).value].dir
    ensures MkdirAt(h, next, n, name) == Outcome(Get(h, n, name), h, next)
    decreases |name|
  {
    var (s, rest) := Split(name);
    if rest != "" {
      MkdirIdempotent(h, next, h[n].sub[s], rest);
    }
  }

  /**
   * `mkdir` fails with "already exists" when the path names a file, and
   * with "not a directory" when it meets a file earlier: at `n` itself or,
   * through the recursive call, at an intermediate segment
   * (afs/fstree.go:33-35, 50-52, 63). It fails in no other way.
   */
  lemma {:induction false} MkdirErrorKinds(h: Heap, next: Ref, n: Ref, name: string)
    requires WellFormed(h) && Bounded(h, next) && n in h
    ensures !h[n].dir ==> MkdirAt(h, next, n, name).res == Failure(NotADirectory)
    ensures Get(h, n, name).Success? && !h[Get(h, n, name).value].dir ==>
      MkdirAt(h, next, n, name).res.Failure? && MkdirAt(h, next, n, name).res.error.AlreadyExists?
    ensures HitsFile(h, n, name) && !(Get(h, n, name).Success? && !h[Get(h, n, name).value].dir) ==>
      MkdirAt(h, next, n, name).res == Failure(NotADirectory)
    ensures MkdirAt(h, next, n, name).res.Failure? ==>
      MkdirAt(h, next, n, name).res.error == NotADirectory || MkdirAt(h, next, n, name).res.error.AlreadyExists?
    decreases |name|
  {
    var (s, rest) := Split(name);
    if h[n].dir && rest != "" {
      if s in h[n].sub {
        MkdirErrorKinds(h, next, h[n].sub[s], rest);
      } else {
        var c := ChildDir(h, next, n, s);
        MkdirBelowEmpty(c.heap, c.next, c.res.value, rest);
      }
    }
  }

  /** A node that `mkdir` returns and that was not there before is a
      fresh, empty directory with no uuid. */
  lemma {:induction false} MkdirNewLeafEmpty(h: Heap, next: Ref, n: Ref, name: string)
    requires WellFormed(h) && Bounded(h, next) && n in h
    ensures var o := MkdirAt(h, next, n, name);
      o.res.Success? && o.res.value !in h ==> o.res.value in o.heap && o.heap[o.res.value] == Node(true, map[], "")
    decreases |name|
  {
    if h[n].dir {
      var (s, rest) := Split(name);
      var c := ChildDir(h, next, n, s);
      if rest != "" {
        MkdirNewLeafEmpty(c.heap, c.next, c.res.value, rest);
        MkdirResolves(c.heap, c.next, c.res.value, rest);
      }
    }
  }

  /**
   * `add` (afs/fstree.go:66-81): `mkdir` the parent path, then link a fresh
   * file node under the base name, replacing whatever was linked there.
   */
  function AddAt(h: Heap, next: Ref, n: Ref, name: string): (o: Outcome)
    requires WellFormed(h) && Bounded(h, next) && n in h && IsCleanAbs(name)
    ensures WellFormed(o.heap) && Bounded(o.heap, o.next) && next <= o.next
  {
    var m := MkdirAt(h, next, n, Dir(name));
    if m.res.Failure? then m
    else
      MkdirResolves(h, next, n, Dir(name));
      var h1 := NewNode(m.heap, m.next, false);
      Outcome(Success(m.next), Attach(h1, m.res.value, Base(name), m.next), m.next + 1)
  }

  /** `add` fails exactly when `mkdir` of the parent path fails, and then
      leaves the heap as it was. */
  lemma AddFailsExactly(h: Heap, next: Ref, n: Ref, name: string)
    requires WellFormed(h) && Bounded(h, next) && n in h && IsCleanAbs(name)
    ensures AddAt(h, next, n, name).res.Failure? <==> HitsFile(h, n, Dir(name))
    ensures AddAt(h, next, n, name).res.Failure? ==>
      AddAt(h, next, n, name).heap == h && AddAt(h, next, n, name).next == next
  {
    MkdirFailsExactly(h, next, n, Dir(name));
  }

  /**
   * A successful `add` returns a fresh file node (no children, no uuid)
   * that the parent directory now links under the base name; the parent
   * path resolves to that directory, and below the root `name` itself
   * resolves to the new file.
   */
  lemma AddInstallsFile(h: Heap, next: Ref, n: Ref, name: string)
    requires WellFormed(h) && Bounded(h, next) && n in h && IsCleanAbs(name)
    ensures var o := AddAt(h, next, n, name);
      o.res.Success? ==>
        && o.res.value !in h && o.res.value in o.heap
        && o.heap[o.res.value] == Node(false, map[], "")
        && n in o.heap
        && Get(o.heap, n, Dir(name)).Success?
        && (var d := Get(o.heap, n, Dir(name)).value;
            o.heap[d].dir && Base(name) in o.heap[d].sub && o.heap[d].sub[Base(name)] == o.res.value)
        && (Dir(name) != "/" ==> Get(o.heap, n, name) == o.res)
  {
    var m := MkdirAt(h, next, n, Dir(name));
    if m.res.Success? {
      MkdirResolves(h, next, n, Dir(name));
      MkdirGrows(h, next, n, Dir(name));
      var d := m.res.value;
      var h1 := NewNode(m.heap, m.next, false);
      GetFrame(m.heap, h1, n, Dir(name));
      ResolveAttached(h1, n, name, m.next);
    }
  }

  /**
   * `add` writes only the nodes that `mkdir` of the parent path walks
   * through and the parent directory the file is bound in
   * (afs/fstree.go:69, 79): every other existing node keeps its record.
   */
  lemma AddFrame(h: Heap, next: Ref, n: Ref, name: string)
    requires WellFormed(h) && Bounded(h, next) && n in h && IsCleanAbs(name)
    ensures var o := AddAt(h, next, n, name);
      o.res.Success? ==>
        && n in o.heap
        && Get(o.heap, n, Dir(name)).Success?
        && forall r :: r in h && r !in Walked(h, n, Dir(name)) && r != Get(o.heap, n, Dir(name)).value ==>
             r in o.heap && o.heap[r] == h[r]
  {
    var m := MkdirAt(h, next, n, Dir(name));
    if m.res.Success? {
      MkdirFrame(h, next, n, Dir(name));
      MkdirResolves(h, next, n, Dir(name));
      var h1 := NewNode(m.heap, m.next, false);
      GetFrame(m.heap, h1, n, Dir(name));
      ResolveAttached(h1, n, name, m.next);
    }
  }

  /** When the parent path already names a directory, `add` links one new
      file node there, replacing any entry of that name, and changes
      nothing else (afs/fstree.go:78-79). */
  lemma AddOverwrites(h: Heap, next: Ref, n: Ref, name: string)
    requires WellFormed(h) && Bounded(h, next) && n in h && IsCleanAbs(name)
    requires Get(h, n, Dir(name)).Success? && h[Get(h, n, Dir(name)).value].dir
    ensures var o := AddAt(h, next, n, name);
      o.res == Success(next) && o.next == next + 1 && next !in h &&
      o.heap.Keys == h.Keys + {next} && o.heap[next] == Node(false, map[], "")
    ensures var o, d := AddAt(h, next, n, name), Get(h, n, Dir(name)).value;
      && o.heap[d] == h[d].(sub := h[d].sub[Base(name) := next])
      && forall r :: r in h && r != d ==> o.heap[r] == h[r]
  {
    MkdirIdempotent(h, next, n, Dir(name));
  }

  /**
   * For a top-level name, `filepath.Dir` gives "/", whose only segment is
   * the empty name: `add` links the file under a child of `n` named "",
   * so what `name` resolves to from `n` is what it resolved to before.
   * (Only a file linked under the empty name could make `add` fail here.)
   */
  lemma AddTopLevelUnseen(h: Heap, next: Ref, n: Ref, name: string)
    requires WellFormed(h) && Bounded(h, next) && n in h && IsCleanAbs(name)
    requires Dir(name) == "/" && h[n].dir
    requires "" in h[n].sub ==> h[h[n].sub[""]].dir
    ensures AddAt(h, next, n, name).res.Success?
    ensures Get(AddAt(h, next, n, name).heap, n, name) == Get(h, n, name)
  {
    var b := Base(name);
    SplitRoot();
    SplitSingle(b);
    assert name == "/" + b;
    var m := MkdirAt(h, next, n, "/");
    assert m == ChildDir(h, next, n, "");
    if "" !in h[n].sub {
      LinkFreshDirGrows(h, next, n, "");
    }
    assert m.heap[n].sub == h[n].sub["" := m.res.value];
    var o := AddAt(h, next, n, name);
    assert o.heap == Attach(NewNode(m.heap, m.next, false), m.res.value, b, m.next);
    assert o.heap[n] == m.heap[n];
    assert (b in o.heap[n].sub) == (b in h[n].sub);
  }

  /** The result of `remove` and the heap it leaves; `remove` allocates
      nothing. */
  datatype Removal = Removal(res: Result<Ref>, heap: Heap)

  /**
   * `remove` (afs/fstree.go:105-132): resolve the parent path, find the
   * base name there, refuse a directory unless `rmdir`, refuse a node with
   * children, and otherwise unlink it and return it.
   */
  function RemoveAt(h: Heap, n: Ref, name: string, rmdir: bool): (o: Removal)
    requires WellFormed(h) && n in h && IsCleanAbs(name)
    ensures WellFormed(o.heap) && o.heap.Keys == h.Keys
  {
    var d := Get(h, n, Dir(name));
    if d.Failure? then Removal(d, h)
    else
      var b := Base(name);
      if b !in h[d.value].sub then Removal(Failure(NoSuchFile(name)), h)
      else
        var sd := h[d.value].sub[b];
        if h[sd].dir && !rmdir then Removal(Failure(IsADirectory(name)), h)
        else if |h[sd].sub| > 0 then Removal(Failure(DirectoryNotEmpty(name)), h)
        else Removal(Success(sd), Detach(h, d.value, b))
  }

  /** Below the root, a path resolves through its parent directory: the
      base name looked up among the entries of the node the parent path
      resolves to. */
  lemma GetViaParent(h: Heap, n: Ref, name: string)
    requires WellFormed(h) && n in h && IsCleanAbs(name) && Dir(name) != "/"
    ensures Get(h, n, Dir(name)).Failure? ==> Get(h, n, name).Failure?
    ensures var d := Get(h, n, Dir(name));
      d.Success? ==>
        Get(h, n, name) == (if Base(name) in h[d.value].sub then Success(h[d.value].sub[Base(name)])
                            else Failure(NoSuchFile("/" + Base(name))))
  {
    GetExtend(h, n, Dir(name), Base(name));
    SplitSingle(Base(name));
  }

  /**
   * Below the root, `remove` succeeds exactly when `name` resolves to a
   * node without children that is a file or may be a directory (`rmdir`),
   * and then it returns that node.
   */
  lemma RemoveSucceedsExactly(h: Heap, n: Ref, name: string, rmdir: bool)
    requires WellFormed(h) && n in h && IsCleanAbs(name) && Dir(name) != "/"
    ensures var o := RemoveAt(h, n, name, rmdir);
      o.res.Success? <==>
        Get(h, n, name).Success? && (rmdir || !h[Get(h, n, name).value].dir) && h[Get(h, n, name).value].sub == map[]
    ensures var o := RemoveAt(h, n, name, rmdir);
      o.res.Success? ==> o.res == Get(h, n, name)
  {
    GetViaParent(h, n, name);
    var d := Get(h, n, Dir(name));
    if d.Success? && Base(name) in h[d.value].sub {
      NoChildrenCard(h[h[d.value].sub[Base(name)]].sub);
    }
  }

  lemma NoChildrenCard(m: map<string, Ref>)
    ensures |m| > 0 <==> m != map[]
  {
    if m != map[] {
      var k :| k in m;
      assert k in m.Keys;
    }
  }

  /**
   * The error `remove` reports: the parent path's own lookup error, "no
   * such file" for a missing base name, "is a directory" for a directory
   * without `rmdir`, and "directory not empty" for a node with children;
   * a failing `remove` changes nothing.
   */
  lemma RemoveErrorKinds(h: Heap, n: Ref, name: string, rmdir: bool)
    requires WellFormed(h) && n in h && IsCleanAbs(name)
    ensures var d := Get(h, n, Dir(name));
      d.Failure? ==> RemoveAt(h, n, name, rmdir).res == d
    ensures var d := Get(h, n, Dir(name));
      d.Success? && Base(name) !in h[d.value].sub ==> RemoveAt(h, n, name, rmdir).res == Failure(NoSuchFile(name))
    ensures var d := Get(h, n, Dir(name));
      d.Success? && Base(name) in h[d.value].sub ==>
        var sd := h[d.value].sub[Base(name)];
        && (h[sd].dir && !rmdir ==> RemoveAt(h, n, name, rmdir).res == Failure(IsADirectory(name)))
        && ((!h[sd].dir || rmdir) && h[sd].sub != map[] ==>
              RemoveAt(h, n, name, rmdir).res == Failure(DirectoryNotEmpty(name)))
    ensures RemoveAt(h, n, name, rmdir).res.Failure? ==> RemoveAt(h, n, name, rmdir).heap == h
  {
    var d := Get(h, n, Dir(name));
    if d.Success? && Base(name) in h[d.value].sub {
      NoChildrenCard(h[h[d.value].sub[Base(name)]].sub);
    }
  }

  /**
   * A successful `remove` deletes exactly one entry, the base name from the
   * parent directory: the parent's other entries and every other node are
   * unchanged, and the removed node itself is still in the heap.
   */
  lemma RemoveDetachesOne(h: Heap, n: Ref, name: string, rmdir: bool)
    requires WellFormed(h) && n in h && IsCleanAbs(name)
    ensures var o := RemoveAt(h, n, name, rmdir);
      o.res.Success? ==>
        && Get(h, n, Dir(name)).Success?
        && var d := Get(h, n, Dir(name)).value;
           && o.heap[d] == h[d].(sub := h[d].sub - {Base(name)})
           && (forall r :: r in h && r != d ==> o.heap[r] == h[r])
           && o.res.value in o.heap
  {
  }

  /** Below the root, a removed name no longer resolves. */
  lemma RemoveGone(h: Heap, n: Ref, name: string, rmdir: bool)
    requires WellFormed(h) && n in h && IsCleanAbs(name) && Dir(name) != "/"
    ensures RemoveAt(h, n, name, rmdir).res.Success? ==> Get(RemoveAt(h, n, name, rmdir).heap, n, name).Failure?
  {
    if Get(h, n, Dir(name)).Success? {
      ResolveDetached(h, n, name);
    }
  }

  /** The fixed text after the path in each message of afs/fstree.go. */
  function Suffix(e: FsError): string {
    match e
    case NotADirectory => "not a directory"
    case AlreadyExists(_) => ": already exists"
    case NoSuchFile(_) => ": no such file or directory"
    case IsADirectory(_) => ": is a directory"
    case DirectoryNotEmpty(_) => ": directory not empty"
  }

  /**
   * The error text as evidently intended: "not a directory" on its own,
   * every other message prefixed with the path it is about.
   */
  function Text(e: FsError): (t: string)
    ensures e.NotADirectory? ==> t == "not a directory"
    ensures !e.NotADirectory? ==> |t| >= |e.name| + 16 && t[..|e.name|] == e.name
  {
    if e.NotADirectory? then Suffix(e) else e.name + Suffix(e)
  }

  /**
   * The error text as written: the "is a directory" and "directory not
   * empty" messages (afs/fstree.go:123, 127) give `fmt.Errorf` a `%s` verb
   * but no argument, which Go renders as "%!s(MISSING)".
   */
  function AsWrittenText(e: FsError): (t: string)
    ensures !e.IsADirectory? && !e.DirectoryNotEmpty? ==> t == Text(e)
  {
    match e
    case IsADirectory(_) => "%!s(MISSING)" + Suffix(e)
    case DirectoryNotEmpty(_) => "%!s(MISSING)" + Suffix(e)
    case _ => Text(e)
  }

  /** As written, the two `remove` refusals do not say which path they are
      about: two different errors, "/a" and "/b" being directories, read
      the same. */
  lemma AsWrittenTextDropsPath()
    ensures exists e1, e2 :: e1 != e2 && AsWrittenText(e1) == AsWrittenText(e2)
  {
    var e1, e2 := IsADirectory("/a"), IsADirectory("/b");
    assert e1 != e2 && AsWrittenText(e1) == AsWrittenText(e2);
  }

  lemma AppendCancel(a: string, b: string, s: string)
    requires a + s == b + s
    ensures a == b
  {
    assert |a| == |b|;
    assert a == (a + s)[..|a|];
  }

  lemma AppendDistinct(a: string, b: string, s1: string, s2: string)
    requires |s1| <= |s2| && s2[|s2| - |s1|..] != s1
    ensures a + s1 != b + s2
  {
    var t1, t2 := a + s1, b + s2;
    assert t1[|t1| - |s1|..] == s1;
    assert t2[|t2| - |s1|..] == s2[|s2| - |s1|..];
  }

  /** The intended texts tell every two errors apart: each message names
      its path, and no two kinds share a suffix. */
  lemma TextInjective(e1: FsError, e2: FsError)
    requires Text(e1) == Text(e2)
    ensures e1 == e2
  {
    var s1, s2 := Suffix(e1), Suffix(e2);
    if e1.NotADirectory? || e2.NotADirectory? {
      assert |Text(e1)| == 15 || |Text(e2)| == 15;
      assert e1.NotADirectory? && e2.NotADirectory?;
    } else if s1 == s2 {
      AppendCancel(e1.name, e2.name, s1);
    } else if |s1| <= |s2| {
      assert s2[|s2| - |s1|..] != s1;
      AppendDistinct(e1.name, e2.name, s1, s2);
    } else {
      assert s1[|s1| - |s2|..] != s2;
      AppendDistinct(e2.name, e1.name, s2, s1);
    }
  }

  /** A heap holding only an empty root directory at address 0. */
  function RootOnly(): (h: Heap)
    ensures WellFormed(h) && Bounded(h, 1) && 0 in h && h[0].dir
  {
    map[0 := Node(true, map[], "")]
  }

  /**
   * On a fresh root, `mkdir` of a top-level path such as "/thing"
   * succeeds, yet `remove` of it with `rmdir` fails with "/: no such file
   * or directory": the parent path "/" names the child "" of the root,
   * which `mkdir` never created.
   */
  lemma RmdirTopLevelMisses(name: string)
    requires IsCleanAbs(name) && Dir(name) == "/"
    ensures MkdirAt(RootOnly(), 1, 0, name).res == Success(1)
    ensures RemoveAt(MkdirAt(RootOnly(), 1, 0, name).heap, 0, name, true).res == Failure(NoSuchFile("/"))
  {
    SplitSingle(Base(name));
    SplitRoot();
  }

  /**
   * On a fresh root, `add` of a top-level path such as "/a" succeeds, but
   * the path does not resolve afterwards (the file sits under the root's
   * child ""), while `remove` without `rmdir` finds it through the same
   * parent "/" and unlinks it.
   */
  lemma AddTopLevelRoundTrip(name: string)
    requires IsCleanAbs(name) && Dir(name) == "/"
    ensures AddAt(RootOnly(), 1, 0, name).res == Success(2)
    ensures Get(AddAt(RootOnly(), 1, 0, name).heap, 0, name).Failure?
    ensures RemoveAt(AddAt(RootOnly(), 1, 0, name).heap, 0, name, false).res == Success(2)
  {
    SplitSingle(Base(name));
    SplitRoot();
  }

  /**
   * The nodes of afs/fstree.go as mutable state: `nodes` holds every node
   * allocated so far by address, and `next` is the next free address.
   * Each method performs the in-place updates of its Go counterpart and
   * is proved to leave exactly the state, and return exactly the result,
   * of the corresponding heap function above.
   */
  class NodeStore {
    var nodes: Heap
    var next: Ref

    ghost predicate Valid()
      reads this
    {
      WellFormed(nodes) && Bounded(nodes, next)
    }

    constructor()
      ensures Valid() && nodes == map[] && next == 0
    {
      nodes := map[];
      next := 0;
    }

    /** `&node{dir: dir}`: a new node with no children and no uuid. */
    method Alloc(dir: bool) returns (r: Ref)
      requires Valid()
      modifies this
      ensures Valid() && r == old(next) && r !in old(nodes)
      ensures nodes == NewNode(old(nodes), old(next), dir) && next == old(next) + 1
    {
      r := next;
      nodes := NewNode(nodes, next, dir);
      next := next + 1;
    }

    /** The child `s` of directory `n`, created as an empty directory
        first if missing (afs/fstree.go:56-57, 60-62). */
    method Child(n: Ref, s: string) returns (c: Ref)
      requires Valid() && n in nodes && nodes[n].dir
      modifies this
      ensures Valid()
      ensures Outcome(Success(c), nodes, next) == ChildDir(old(nodes), old(next), n, s)
    {
      if s in nodes[n].sub {
        c := nodes[n].sub[s];
      } else {
        c := Alloc(true);
        nodes := nodes[n := nodes[n].(sub := nodes[n].sub[s := c])];
        assert nodes == LinkFreshDir(old(nodes), old(next), n, s);
      }
    }

    /** `n.mkdir(name)` (afs/fstree.go:32-64). */
    method Mkdir(n: Ref, name: string) returns (r: Result<Ref>)
      requires Valid() && n in nodes
      modifies this
      ensures Valid()
      ensures Outcome(r, nodes, next) == MkdirAt(old(nodes), old(next), n, name)
      decreases |name|
    {
      if !nodes[n].dir {
        return Failure(NotADirectory);
      }
      var (s, rest) := Split(name);
      if rest == "" && s in nodes[n].sub && !nodes[nodes[n].sub[s]].dir {
        return Failure(AlreadyExists(name));
      }
      var c := Child(n, s);
      if rest == "" {
        return Success(c);
      }
      r := Mkdir(c, rest);
    }

    /** `d.sub[b] = c`: link `c` under the name `b`, replacing any entry
        of that name (afs/fstree.go:79). */
    method Link(d: Ref, b: string, c: Ref)
      requires Valid() && d in nodes && nodes[d].dir && c in nodes && d < c
      modifies this
      ensures Valid() && next == old(next)
      ensures nodes == Attach(old(nodes), d, b, c)
    {
      nodes := nodes[d := nodes[d].(sub := nodes[d].sub[b := c])];
    }

    /** `n.add(name)` (afs/fstree.go:66-81). */
    method Add(n: Ref, name: string) returns (r: Result<Ref>)
      requires Valid() && n in nodes && IsCleanAbs(name)
      modifies this
      ensures Valid()
      ensures Outcome(r, nodes, next) == AddAt(old(nodes), old(next), n, name)
    {
      var d := Mkdir(n, Dir(name));
      if d.Failure? {
        return d;
      }
      MkdirResolves(old(nodes), old(next), n, Dir(name));
      var f := Alloc(false);
      Link(d.value, Base(name), f);
      r := Success(f);
    }

    /** `n.remove(name, rmdir)` (afs/fstree.go:105-132). */
    method Remove(n: Ref, name: string, rmdir: bool) returns (r: Result<Ref>)
      requires Valid() && n in nodes && IsCleanAbs(name)
      modifies this
      ensures Valid() && next == old(next)
      ensures Removal(r, nodes) == RemoveAt(old(nodes), n, name, rmdir)
    {
      var d := Get(nodes, n, Dir(name));
      if d.Failure? {
        return d;
      }
      var b := Base(name);
      if b !in nodes[d.value].sub {
        return Failure(NoSuchFile(name));
      }
      var sd := nodes[d.value].sub[b];
      if nodes[sd].dir && !rmdir {
        return Failure(IsADirectory(name));
      }
      if |nodes[sd].sub| > 0 {
        return Failure(DirectoryNotEmpty(name));
      }
      nodes := Detach(nodes, d.value, b);
      r := Success(sd);
    }
  }
}
