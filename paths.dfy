/**
 * Lexical path handling, as pathlib does it on POSIX once symbolic links are
 * set aside: a path is split at '/', empty and '.' segments vanish, '..'
 * drops the previous segment (and stays at '/' when there is none), and an
 * absolute right-hand side replaces the base it is joined to.
 */
module Paths {
  import opened Text

  /** A resolved absolute path as its list of segments; "/" is []. */
  type Path = seq<string>

  /** A segment that can occur in a resolved path. */
  predicate IsPlainSegment(seg: string)
  {
    seg != "" && seg != "." && seg != ".." && '/' !in seg
  }

  predicate IsCanonical(p: Path)
  {
    forall i :: 0 <= i < |p| ==> IsPlainSegment(p[i])
  }

  /** s.split("/") */
  function Split(s: string): (r: seq<string>)
    ensures |r| >= 1
    ensures forall i :: 0 <= i < |r| ==> '/' !in r[i]
    decreases |s|
  {
    if '/' !in s then [s]
    else
      var k := FirstIndex(s, '/');
      [s[..k]] + Split(s[k + 1..])
  }

  /** Splitting at '/' loses nothing: joining the segments gives `s` back. */
  lemma {:induction false} SplitJoin(s: string)
    ensures JoinWith(Split(s), "/") == s
    decreases |s|
  {
    if '/' in s {
      var k := FirstIndex(s, '/');
      SplitJoin(s[k + 1..]);
      assert Split(s) == [s[..k]] + Split(s[k + 1..]);
      assert s == s[..k] + "/" + s[k + 1..];
    }
  }

  /** The effect of one segment on a resolved path. */
  function Apply(base: Path, seg: string): Path
  {
    if seg == "" || seg == "." then base
    else if seg == ".." then (if base == [] then [] else base[..|base| - 1])
    else base + [seg]
  }

  /** Resolve the segments one after the other, starting from `base`. */
  function Normalise(base: Path, segs: seq<string>): Path
    decreases |segs|
  {
    if segs == [] then base else Normalise(Apply(base, segs[0]), segs[1..])
  }

  lemma {:induction false} NormaliseCanonical(base: Path, segs: seq<string>)
    requires forall i :: 0 <= i < |segs| ==> '/' !in segs[i]
    ensures IsCanonical(base) ==> IsCanonical(Normalise(base, segs))
    decreases |segs|
  {
    if segs != [] {
      NormaliseCanonical(Apply(base, segs[0]), segs[1..]);
    }
  }

  /**
   * (root / rel).resolve() without symbolic links. An absolute `rel`
   * replaces the root.
   */
  function Resolve(root: Path, rel: string): (p: Path)
    ensures IsCanonical(root) ==> IsCanonical(p)
  {
    var segs := Split(rel);
    var base := if StartsWith(rel, "/") then [] else root;
    NormaliseCanonical(base, segs);
    Normalise(base, segs)
  }

  /** `p == root or root in p.parents`: `p` is `root` or lies under it. */
  predicate Within(root: Path, p: Path)
  {
    root <= p
  }

  lemma {:induction false} NormaliseExtends(base: Path, segs: seq<string>)
    requires forall i :: 0 <= i < |segs| ==> segs[i] != ".."
    ensures base <= Normalise(base, segs)
    decreases |segs|
  {
    if segs != [] {
      NormaliseExtends(Apply(base, segs[0]), segs[1..]);
    }
  }

  /** A relative path without a '..' segment cannot leave the root. */
  lemma ResolveWithoutParentStaysWithin(root: Path, rel: string)
    requires !StartsWith(rel, "/")
    requires ".." !in Split(rel)
    ensures Within(root, Resolve(root, rel))
  {
    NormaliseExtends(root, Split(rel));
  }

  /** Parent directory; the parent of "/" is "/". */
  function Parent(p: Path): Path
  {
    if p == [] then [] else p[..|p| - 1]
  }

  /** str(p) of a resolved path. */
  function Render(p: Path): string
  {
    "/" + JoinWith(p, "/")
  }

  /**
   * str(dir / src) for a relative or absolute `src`, as text. pathlib also
   * collapses repeated separators, drops `.` segments and drops a trailing
   * separator; this rendering keeps `src` as written.
   */
  function JoinText(dir: Path, src: string): string
  {
    if StartsWith(src, "/") then src
    else if dir == [] then "/" + src
    else Render(dir) + "/" + src
  }
}
