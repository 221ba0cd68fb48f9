/**
 * The per-name extent index of afs/afs.go: `metadata.Offsets` maps each
 * file name to the list of `[start, length]` pairs of the writes made
 * under that name, in the order they were made. Positions are unbounded
 * integers here; the int64 of the source is not modelled.
 */
module ExtentLog {

  /** One `[2]int64{pos, off}` entry: where a write began in the log and
      how many bytes it added. */
  datatype Extent = Extent(start: int, length: int)

  function End(e: Extent): int {
    e.start + e.length
  }

  type Offsets = map<string, seq<Extent>>

  /** Reading a missing key of a Go map yields a nil slice, which behaves
      as an empty list. */
  function Lookup(m: Offsets, name: string): (es: seq<Extent>)
    ensures name !in m ==> es == []
    ensures name in m ==> es == m[name]
  {
    if name in m then m[name] else []
  }

  /**
   * `metadata.update` (afs/afs.go:108-110): append `e` to the end of the
   * list of `name`; earlier entries and every other name keep their lists.
   */
  function Update(m: Offsets, name: string, e: Extent): (m': Offsets)
    ensures name in m' && m'[name] == Lookup(m, name) + [e]
    ensures forall k :: k in m && k != name ==> k in m' && m'[k] == m[k]
    ensures forall k :: k in m' ==> k in m || k == name
  {
    m[name := Lookup(m, name) + [e]]
  }

  /** The total length of a list of extents. */
  function SumLengths(es: seq<Extent>): int {
    if es == [] then 0 else SumLengths(es[..|es| - 1]) + es[|es| - 1].length
  }

  /** The total length of every extent under every name. */
  ghost function TotalLength(m: Offsets): int
    decreases |m.Keys|
  {
    if m == map[] then 0
    else
      var k :| k in m;
      SumLengths(m[k]) + TotalLength(m - {k})
  }

  /** The total does not depend on which name is counted first. */
  lemma {:induction false} TotalLengthSplit(m: Offsets, k: string)
    requires k in m
    ensures TotalLength(m) == SumLengths(m[k]) + TotalLength(m - {k})
    decreases |m.Keys|
  {
    var j :| j in m && TotalLength(m) == SumLengths(m[j]) + TotalLength(m - {j});
    if j != k {
      assert (m - {j}).Keys == m.Keys - {j};
      assert (m - {k}).Keys == m.Keys - {k};
      TotalLengthSplit(m - {j}, k);
      TotalLengthSplit(m - {k}, j);
      assert m - {j} - {k} == m - {k} - {j};
    }
  }

  /** Every extent lies in [0, pos) and has a non-negative length. */
  ghost predicate WithinLog(m: Offsets, pos: int) {
    forall k, i :: k in m && 0 <= i < |m[k]| ==>
      0 <= m[k][i].start && 0 <= m[k][i].length && End(m[k][i]) <= pos
  }

  /** Each name's extents follow one another in start order. */
  ghost predicate Ordered(m: Offsets) {
    forall k, i, j :: k in m && 0 <= i < j < |m[k]| ==> End(m[k][i]) <= m[k][j].start
  }

  /** Extents of two different names never overlap. */
  ghost predicate Disjoint(m: Offsets) {
    forall a, b, i, j :: a in m && b in m && a != b && 0 <= i < |m[a]| && 0 <= j < |m[b]| ==>
      End(m[a][i]) <= m[b][j].start || End(m[b][j]) <= m[a][i].start
  }

  /**
   * The invariant of the writer's index: the extents of all names lie in
   * [0, pos), do not overlap, follow one another within each name, and
   * their lengths add up to `pos`, so they tile the log.
   */
  ghost predicate Tiled(m: Offsets, pos: int) {
    0 <= pos && WithinLog(m, pos) && Ordered(m) && Disjoint(m) && TotalLength(m) == pos
  }

  lemma SumLengthsAppend(es: seq<Extent>, e: Extent)
    ensures SumLengths(es + [e]) == SumLengths(es) + e.length
  {
    assert (es + [e])[..|es + [e]| - 1] == es;
  }

  /** Adding `e` under `name` adds its length to the total. */
  lemma TotalLengthUpdate(m: Offsets, name: string, e: Extent)
    ensures TotalLength(Update(m, name, e)) == TotalLength(m) + e.length
  {
    var m' := Update(m, name, e);
    TotalLengthSplit(m', name);
    SumLengthsAppend(Lookup(m, name), e);
    assert m' - {name} == m - {name};
    if name in m {
      TotalLengthSplit(m, name);
    } else {
      assert m - {name} == m;
    }
  }

  /** The empty index tiles the empty log. */
  lemma EmptyTiled()
    ensures Tiled(map[], 0)
  {
  }

  /** An entry of the updated index is the new extent or an old entry. */
  lemma UpdateEntry(m: Offsets, name: string, e: Extent, k: string, i: int)
    requires k in Update(m, name, e) && 0 <= i < |Update(m, name, e)[k]|
    ensures k == name && i == |Update(m, name, e)[k]| - 1 ==> Update(m, name, e)[k][i] == e
    ensures !(k == name && i == |Update(m, name, e)[k]| - 1) ==>
      k in m && i < |m[k]| && Update(m, name, e)[k][i] == m[k][i]
  {
  }

  /**
   * Recording a write of `n` bytes that began at `pos` keeps the index
   * tiled, now up to `pos + n`: the new extent starts where every earlier
   * one has ended.
   */
  lemma UpdateKeepsTiled(m: Offsets, pos: int, name: string, n: nat)
    requires Tiled(m, pos)
    ensures Tiled(Update(m, name, Extent(pos, n)), pos + n)
  {
    var e := Extent(pos, n);
    var m' := Update(m, name, e);
    TotalLengthUpdate(m, name, e);
    assert WithinLog(m', pos + n) by {
      forall k, i | k in m' && 0 <= i < |m'[k]|
        ensures 0 <= m'[k][i].start && 0 <= m'[k][i].length && End(m'[k][i]) <= pos + n
      {
        UpdateEntry(m, name, e, k, i);
      }
    }
    assert Ordered(m') by {
      forall k, i, j | k in m' && 0 <= i < j < |m'[k]|
        ensures End(m'[k][i]) <= m'[k][j].start
      {
        UpdateEntry(m, name, e, k, i);
        UpdateEntry(m, name, e, k, j);
      }
    }
    assert Disjoint(m') by {
      forall a, b, i, j | a in m' && b in m' && a != b && 0 <= i < |m'[a]| && 0 <= j < |m'[b]|
        ensures End(m'[a][i]) <= m'[b][j].start || End(m'[b][j]) <= m'[a][i].start
      {
        UpdateEntry(m, name, e, a, i);
        UpdateEntry(m, name, e, b, j);
      }
    }
  }

  /** One call of `writer.write`: the handle's name and the count the
      underlying writer reported. */
  datatype Entry = Entry(name: string, count: nat)

  /** The number of bytes the log holds after `hist`. */
  function LogLength(hist: seq<Entry>): nat {
    if hist == [] then 0 else LogLength(hist[..|hist| - 1]) + hist[|hist| - 1].count
  }

  /** The index after the writes of `hist`, starting from the empty index
      that `New` creates: each write is recorded at the position the log
      had reached. */
  function Replay(hist: seq<Entry>): Offsets {
    if hist == [] then map[]
    else
      var init := hist[..|hist| - 1];
      var e := hist[|hist| - 1];
      Update(Replay(init), e.name, Extent(LogLength(init), e.count))
  }

  /** Whatever the writes were, their index tiles the log they produced. */
  lemma {:induction false} ReplayTiled(hist: seq<Entry>)
    ensures Tiled(Replay(hist), LogLength(hist))
  {
    if hist == [] {
      EmptyTiled();
    } else {
      var init := hist[..|hist| - 1];
      ReplayTiled(init);
      UpdateKeepsTiled(Replay(init), LogLength(init), hist[|hist| - 1].name, hist[|hist| - 1].count);
    }
  }

  /** A name's extent list grows only by writes under that name: a write
      under another name leaves it as it was. */
  lemma ReplayOtherName(hist: seq<Entry>, e: Entry, name: string)
    requires e.name != name
    ensures Lookup(Replay(hist + [e]), name) == Lookup(Replay(hist), name)
  {
    assert (hist + [e])[..|hist + [e]| - 1] == hist;
  }

  /** A write under `name` adds exactly one extent at the end of the
      name's list, starting where the log ended. */
  lemma ReplaySameName(hist: seq<Entry>, e: Entry)
    ensures Lookup(Replay(hist + [e]), e.name) == Lookup(Replay(hist), e.name) + [Extent(LogLength(hist), e.count)]
    ensures LogLength(hist + [e]) == LogLength(hist) + e.count
  {
    assert (hist + [e])[..|hist + [e]| - 1] == hist;
  }
}

