/**
 * Path handling of the in-memory namespace tree (afs/fstree.go).
 *
 * The tree descends a path one segment at a time: it drops one leading
 * '/' (strings.TrimPrefix) and cuts the remainder at its first '/'
 * (strings.Index). `add` and `remove` also split a path into its parent
 * and its last element (filepath.Dir and filepath.Base); those two are
 * modelled only for clean absolute paths, on which they reduce to cutting
 * at the last '/'.
 */
module Paths {

  /** strings.TrimPrefix(s, "/"): drops at most one leading slash. */
  function TrimSlash(s: string): (r: string)
    ensures |s| > 0 && s[0] == '/' ==> r == s[1..]
    ensures !(|s| > 0 && s[0] == '/') ==> r == s
  {
    if |s| > 0 && s[0] == '/' then s[1..] else s
  }

  /** strings.Index(s, "/"): the position of the first slash, or -1. */
  function IndexSlash(s: string): (i: int)
    ensures -1 <= i < |s|
    ensures i >= 0 ==> s[i] == '/' && '/' !in s[..i]
    ensures i == -1 ==> '/' !in s
  {
    if s == [] then -1
    else if s[0] == '/' then 0
    else
      var j := IndexSlash(s[1..]);
      assert s[1..][..if j >= 0 then j else 0] == s[1..if j >= 0 then j + 1 else 1];
      assert s == [s[0]] + s[1..];
      if j < 0 then -1 else j + 1
  }

  /**
   * One descent step (afs/fstree.go:36-42 and 87-93): the first segment
   * of `name` and the rest, which is "" or starts with '/'. The rest is
   * always shorter than `name`, so every descent terminates.
   */
  function Split(name: string): (r: (string, string))
    ensures r.1 == "" || |r.1| < |name|
  {
    var s := TrimSlash(name);
    var i := IndexSlash(s);
    if i > -1 then (s[..i], s[i..]) else (s, "")
  }

  /** The segment has no slash, the rest starts with one, and together
      they are the name without its leading slash. */
  lemma SplitParts(name: string)
    ensures '/' !in Split(name).0
    ensures Split(name).1 == "" || Split(name).1[0] == '/'
    ensures Split(name).0 + Split(name).1 == TrimSlash(name)
  {
    var s := TrimSlash(name);
    var i := IndexSlash(s);
    if i > -1 {
      assert s[..i] + s[i..] == s;
    }
  }

  /** Appending "/" + b to a path appends it to the remainder of the first
      step, or makes it the remainder when there was none. */
  lemma SplitExtend(a: string, b: string)
    requires a != ""
    ensures Split(a).1 != "" ==> Split(a + "/" + b) == (Split(a).0, Split(a).1 + "/" + b)
    ensures Split(a).1 == "" ==> Split(a + "/" + b) == (Split(a).0, "/" + b)
  {
    var p := a + "/" + b;
    var ta := TrimSlash(a);
    var tp := ta + "/" + b;
    assert TrimSlash(p) == tp;
    var i := IndexSlash(ta);
    var j := IndexSlash(tp);
    if i > -1 {
      assert tp[..i] == ta[..i];
      assert tp[i] == '/';
      assert j == i;
      assert tp[i..] == ta[i..] + "/" + b;
    } else {
      assert tp[..|ta|] == ta;
      assert tp[|ta|] == '/';
      assert j == |ta|;
      assert tp[|ta|..] == "/" + b;
    }
  }

  /** A segment with no slash, after a single slash, is the whole walk. */
  lemma SplitSingle(b: string)
    requires '/' !in b
    ensures Split("/" + b) == (b, "")
  {
    assert TrimSlash("/" + b) == b;
    assert IndexSlash(b) == -1;
  }

  /** The root path is one step into the segment named "". */
  lemma SplitRoot()
    ensures Split("/") == ("", "")
  {
    SplitSingle("");
  }

  /** `..` or `.` starts right after the slash at `i` and ends a segment. */
  predicate DotSegmentAt(p: string, i: nat)
    requires i < |p| && p[i] == '/'
  {
    var seg := if i + 1 < |p| then p[i + 1..] else "";
    (|seg| >= 1 && seg[0] == '.' && (|seg| == 1 || seg[1] == '/'))
    || (|seg| >= 2 && seg[0] == '.' && seg[1] == '.' && (|seg| == 2 || seg[2] == '/'))
  }

  /**
   * A clean absolute path with at least one segment: it starts with '/',
   * has no empty, "." or ".." segment and no trailing slash, so that
   * filepath.Clean leaves it unchanged.
   */
  predicate IsCleanAbs(p: string) {
    && |p| >= 2
    && p[0] == '/'
    && p[|p| - 1] != '/'
    && (forall i :: 0 <= i < |p| - 1 && p[i] == '/' ==> p[i + 1] != '/')
    && (forall i :: 0 <= i < |p| && p[i] == '/' ==> !DotSegmentAt(p, i))
  }

  /** strings.LastIndex(p, "/"): the position of the last slash, or -1. */
  function LastSlash(p: string): (k: int)
    ensures -1 <= k < |p|
    ensures k >= 0 ==> p[k] == '/' && '/' !in p[k + 1..]
    ensures k == -1 ==> '/' !in p
  {
    if p == [] then -1
    else if p[|p| - 1] == '/' then |p| - 1
    else
      var k := LastSlash(p[..|p| - 1]);
      assert p == p[..|p| - 1] + [p[|p| - 1]];
      assert k >= 0 ==> p[k + 1..] == p[..|p| - 1][k + 1..] + [p[|p| - 1]];
      k
  }

  /**
   * filepath.Dir on a clean absolute path: everything before the last
   * slash, or "/" for a path with a single segment.
   */
  function Dir(p: string): (d: string)
    requires IsCleanAbs(p)
    ensures d == "/" <==> '/' !in p[1..]
    ensures d != "/" ==> |d| >= 2 && d[0] == '/' && d + "/" + Base(p) == p
    ensures d == "/" ==> "/" + Base(p) == p
  {
    var k := LastSlash(p);
    assert p[1..] == p[..|p|][1..];
    if k == 0 then
      assert p == [p[0]] + p[1..];
      "/"
    else
      assert p[k] in p[1..];
      assert p[..k] + "/" + p[k + 1..] == p[..k] + [p[k]] + p[k + 1..] == p;
      assert p[..k][1] == p[1] != '/' by { assert p[0] == '/'; }
      p[..k]
  }

  /** filepath.Base on a clean absolute path: the last segment. */
  function Base(p: string): (b: string)
    requires IsCleanAbs(p)
    ensures b != "" && '/' !in b && b != "." && b != ".."
  {
    var k := LastSlash(p);
    assert !DotSegmentAt(p, k);
    p[k + 1..]
  }
}
