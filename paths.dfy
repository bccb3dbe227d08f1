/**
 * Slash-separated paths as plain strings. `Uri.joinPath(uri, '..')`,
 * `path.basename` and `Uri.joinPath(dir, value)` are reduced to the string
 * operations below; normalisation of `.`, `..` and repeated slashes is not
 * part of this model.
 */
module Paths {

  /** True when `p` has no `/` at an index in `from..|p|`. */
  predicate NoSlashFrom(p: string, from: nat) {
    forall k :: from <= k < |p| ==> p[k] != '/'
  }

  /** The path up to (not including) its last `/`; empty when there is no `/`. */
  function StripLastSegment(p: string): (r: string)
    ensures r <= p
    ensures (|r| < |p| && p[|r|] == '/' && NoSlashFrom(p, |r| + 1)) || (r == [] && NoSlashFrom(p, 0))
  {
    if p == [] then []
    else if p[|p| - 1] == '/' then p[..|p| - 1]
    else StripLastSegment(p[..|p| - 1])
  }

  /** `parent(uri)`: the directory that contains `p`; the root is its own parent. */
  function ParentDir(p: string): (d: string)
    ensures d == "/" || (d + "/" <= p && NoSlashFrom(p, |d| + 1))
  {
    var s := StripLastSegment(p);
    if s == [] then "/" else s
  }

  /** `p` without the run of `/` at its end. */
  function TrimTrailingSlashes(p: string): (q: string)
    ensures q <= p
    ensures forall k :: |q| <= k < |p| ==> p[k] == '/'
    ensures q == [] || q[|q| - 1] != '/'
  {
    if p != [] && p[|p| - 1] == '/' then TrimTrailingSlashes(p[..|p| - 1]) else p
  }

  /** The characters of `p` after its last `/`. */
  function LastSegment(p: string): (b: string)
    ensures '/' !in b
    ensures |b| <= |p| && p[|p| - |b|..] == b
    ensures |b| < |p| ==> p[|p| - |b| - 1] == '/'
  {
    if p == [] || p[|p| - 1] == '/' then []
    else LastSegment(p[..|p| - 1]) + [p[|p| - 1]]
  }

  /**
   * `path.basename` on a POSIX path: trailing slashes are ignored, and the
   * result is the last segment of what remains. It is a `/`-free suffix of
   * that remainder, starting at its beginning or right after a `/`, and it is
   * empty exactly when `p` holds nothing but slashes.
   */
  function BaseName(p: string): (b: string)
    ensures '/' !in b
    ensures var q := TrimTrailingSlashes(p);
      && |b| <= |q| && q[|q| - |b|..] == b
      && (|b| < |q| ==> q[|q| - |b| - 1] == '/')
    ensures b == [] <==> forall k :: 0 <= k < |p| ==> p[k] == '/'
  {
    LastSegment(TrimTrailingSlashes(p))
  }

  /** `Uri.joinPath(dir, rel)` without normalisation: `rel` follows `dir`, with a `/` between them where needed. */
  function JoinPath(dir: string, rel: string): (r: string)
    ensures dir <= r
    ensures |rel| <= |r| && r[|r| - |rel|..] == rel
    ensures |r| <= |dir| + 1 + |rel|
    ensures rel != [] ==> |r| > |rel| && r[|r| - |rel| - 1] == '/'
  {
    if rel == [] then dir
    else if dir != [] && dir[|dir| - 1] == '/' then dir + rel
    else dir + "/" + rel
  }

  /** The directory that contains a file named `name` inside `dir` is `dir`. */
  lemma ParentOfChild(dir: string, name: string)
    requires dir != [] && '/' !in name
    ensures ParentDir(dir + "/" + name) == dir
  {
    var p := dir + "/" + name;
    var r := StripLastSegment(p);
    assert p[|dir|] == '/';
    assert !NoSlashFrom(p, 0);
    assert NoSlashFrom(p, |dir| + 1) by {
      forall k | |dir| + 1 <= k < |p| ensures p[k] != '/' {
        assert p[k] == name[k - |dir| - 1];
      }
    }
    assert |r| >= |dir|;
    assert r == p[..|dir|] == dir;
  }
}
