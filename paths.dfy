/**
 * The part of Node's `path` module the server relies on (`join`, `relative`,
 * `dirname`, `basename`), for absolute POSIX paths written as their list of
 * segments: `/a/b/c.jpg` is `["a", "b", "c.jpg"]` and `/` is `[]`.
 */
module Paths {

  type Path = seq<string>

  const Up: string := ".."

  /** A resolved path: no `..`, no `.` and no empty segment (what `readdir` hands out). */
  predicate Normal(p: Path) {
    forall i :: 0 <= i < |p| ==> p[i] != Up && p[i] != "." && p[i] != ""
  }

  predicate IsPrefix(a: Path, b: Path) {
    |a| <= |b| && b[..|a|] == a
  }

  /** `path.dirname`: the root is its own parent. */
  function Dirname(p: Path): (r: Path)
    ensures |p| > 0 ==> r + [p[|p| - 1]] == p
    ensures p == [] ==> r == []
  {
    if p == [] then [] else p[..|p| - 1]
  }

  /** `path.basename`: the last segment, `""` for the root. */
  function Basename(p: Path): string {
    if p == [] then "" else p[|p| - 1]
  }

  /** `path.join(base, rel)`: appends `rel`, resolving `..` against `base` and dropping `.` and empty segments. */
  function Join(base: Path, rel: Path): Path
    decreases |rel|
  {
    if rel == [] then base
    else if rel[0] == Up then Join(Dirname(base), rel[1..])
    else if rel[0] == "." || rel[0] == "" then Join(base, rel[1..])
    else Join(base + [rel[0]], rel[1..])
  }

  /** Length of the longest common prefix of two paths. */
  function CommonPrefixLength(a: Path, b: Path): (k: nat)
    ensures k <= |a| && k <= |b| && a[..k] == b[..k]
    ensures k < |a| && k < |b| ==> a[k] != b[k]
  {
    if a == [] || b == [] || a[0] != b[0] then 0
    else
      var k := CommonPrefixLength(a[1..], b[1..]);
      assert a[..k + 1] == [a[0]] + a[1..][..k];
      assert b[..k + 1] == [b[0]] + b[1..][..k];
      k + 1
  }

  function Ups(n: nat): (r: Path)
    ensures |r| == n && forall i :: 0 <= i < n ==> r[i] == Up
  {
    seq(n, _ => Up)
  }

  /** `path.relative(from, to)`: climb out of `from` to the common ancestor, then descend to `to`. */
  function Relative(from: Path, to: Path): Path {
    var k := CommonPrefixLength(from, to);
    Ups(|from| - k) + to[k..]
  }

  lemma {:induction false} JoinNormal(base: Path, rel: Path)
    requires Normal(rel)
    ensures Join(base, rel) == base + rel
    decreases |rel|
  {
    if rel != [] {
      JoinNormal(base + [rel[0]], rel[1..]);
      assert base + [rel[0]] + rel[1..] == base + rel;
    }
  }

  lemma {:induction false} JoinUps(base: Path, n: nat, rel: Path)
    requires n <= |base|
    ensures Join(base, Ups(n) + rel) == Join(base[..|base| - n], rel)
    decreases n
  {
    if n > 0 {
      assert (Ups(n) + rel)[0] == Up;
      assert (Ups(n) + rel)[1..] == Ups(n - 1) + rel;
      JoinUps(Dirname(base), n - 1, rel);
      assert Dirname(base)[..|Dirname(base)| - (n - 1)] == base[..|base| - n];
    } else {
      assert Ups(0) + rel == rel;
      assert base[..|base|] == base;
    }
  }

  /**
   * Node promises `path.resolve(from, path.relative(from, to)) == to`;
   * on resolved paths `join` does that resolution.
   */
  lemma RelativeRoundTrip(from: Path, to: Path)
    requires Normal(to)
    ensures Join(from, Relative(from, to)) == to
  {
    var k := CommonPrefixLength(from, to);
    JoinUps(from, |from| - k, to[k..]);
    assert Normal(to[k..]);
    JoinNormal(from[..k], to[k..]);
    assert from[..k] + to[k..] == to[..k] + to[k..] == to;
  }

  /** A path below `root` is `root` followed by its relative path. */
  lemma RelativeUnder(root: Path, file: Path)
    requires IsPrefix(root, file)
    ensures Relative(root, file) == file[|root|..]
  {
    var k := CommonPrefixLength(root, file);
    assert k == |root|;
    assert Ups(0) + file[k..] == file[k..];
  }
}
