/**
 * The browser's view of folder paths: strings split on `\` and `/`, the
 * back button's parent path and the breadcrumb trail. A path containing `:`
 * is treated as a Windows path.
 */
module ClientPaths {
  import opened Common

  predicate IsSep(c: char) {
    c == '\\' || c == '/'
  }

  predicate SepFree(s: string) {
    forall i :: 0 <= i < |s| ==> !IsSep(s[i])
  }

  /** What `filter(p => p)` keeps: non-empty segments without separators. */
  predicate Segment(s: string) {
    s != [] && SepFree(s)
  }

  predicate AllSegments(xs: seq<string>) {
    forall i :: 0 <= i < |xs| ==> Segment(xs[i])
  }

  /** No separator directly follows another. */
  predicate NoDoubledSep(s: string) {
    forall i :: 0 <= i < |s| - 1 ==> !(IsSep(s[i]) && IsSep(s[i + 1]))
  }

  // ---------------------------------------------------------------------
  // split(/[\\\/]/).filter(p => p)

  /** The segment read so far, if it is not empty. */
  function Flush(cur: string): seq<string> {
    if cur == [] then [] else [cur]
  }

  /** The segments of `s`, when `cur` has been read of the current one. */
  function SplitFrom(s: string, cur: string): seq<string>
    decreases |s|
  {
    if s == [] then Flush(cur)
    else if IsSep(s[0]) then Flush(cur) + SplitFrom(s[1..], [])
    else SplitFrom(s[1..], cur + [s[0]])
  }

  function Segments(s: string): seq<string> {
    SplitFrom(s, [])
  }

  lemma {:induction false} SplitFromSegments(s: string, cur: string)
    requires SepFree(cur)
    ensures AllSegments(SplitFrom(s, cur))
    decreases |s|
  {
    if s != [] {
      if IsSep(s[0]) {
        SplitFromSegments(s[1..], []);
      } else {
        SplitFromSegments(s[1..], cur + [s[0]]);
      }
    }
  }

  /** Every segment is non-empty and free of separators. */
  lemma SegmentsAreSegments(s: string)
    ensures AllSegments(Segments(s))
  {
    SplitFromSegments(s, []);
  }

  /** Characters without separators join the segment being read. */
  lemma {:induction false} SplitFromSepFree(w: string, t: string, cur: string)
    requires SepFree(w)
    ensures SplitFrom(w + t, cur) == SplitFrom(t, cur + w)
    decreases |w|
  {
    if w != [] {
      assert (w + t)[1..] == w[1..] + t;
      assert cur + w == (cur + [w[0]]) + w[1..];
      assert (w + t)[0] == w[0] && !IsSep(w[0]);
      SplitFromSepFree(w[1..], t, cur + [w[0]]);
    } else {
      assert w + t == t && cur + w == cur;
    }
  }

  /** A separator cuts the string into two independently split halves. */
  lemma {:induction false} SplitAtSep(a: string, c: char, t: string, cur: string)
    requires IsSep(c)
    ensures SplitFrom(a + [c] + t, cur) == SplitFrom(a, cur) + SplitFrom(t, [])
    decreases |a|
  {
    if a == [] {
      assert a + [c] + t == [c] + t;
      assert ([c] + t)[1..] == t;
    } else {
      assert (a + [c] + t)[1..] == a[1..] + [c] + t;
      if IsSep(a[0]) {
        SplitAtSep(a[1..], c, t, []);
      } else {
        SplitAtSep(a[1..], c, t, cur + [a[0]]);
      }
    }
  }

  lemma SegmentsOfSegment(w: string)
    requires Segment(w)
    ensures Segments(w) == [w]
  {
    SplitFromSepFree(w, [], []);
    assert w + [] == w && [] + w == w;
  }

  /** A leading separator changes nothing. */
  lemma SegmentsLeadingSep(c: char, s: string)
    requires IsSep(c)
    ensures Segments([c] + s) == Segments(s)
  {
    SplitAtSep([], c, s, []);
    assert [] + [c] + s == [c] + s;
  }

  /** A trailing separator changes nothing. */
  lemma SegmentsTrailingSep(s: string, c: char)
    requires IsSep(c)
    ensures Segments(s + [c]) == Segments(s)
  {
    SplitAtSep(s, c, [], []);
    assert s + [c] + [] == s + [c];
  }

  // ---------------------------------------------------------------------
  // Array.prototype.join

  function JoinWith(xs: seq<string>, sep: char): string
    decreases |xs|
  {
    if xs == [] then []
    else if |xs| == 1 then xs[0]
    else JoinWith(xs[..|xs| - 1], sep) + [sep] + xs[|xs| - 1]
  }

  /** Splitting undoes joining on a separator. */
  lemma {:induction false} SegmentsOfJoin(xs: seq<string>, sep: char)
    requires AllSegments(xs) && IsSep(sep)
    ensures Segments(JoinWith(xs, sep)) == xs
    decreases |xs|
  {
    if |xs| == 1 {
      SegmentsOfSegment(xs[0]);
    } else if |xs| > 1 {
      var init, last := xs[..|xs| - 1], xs[|xs| - 1];
      SegmentsOfJoin(init, sep);
      SplitAtSep(JoinWith(init, sep), sep, last, []);
      SegmentsOfSegment(last);
      assert xs == init + [last];
    }
  }

  /** A join of segments starts and ends with a segment's character and never doubles a separator. */
  lemma {:induction false} JoinShape(xs: seq<string>, sep: char)
    requires AllSegments(xs) && |xs| > 0 && IsSep(sep)
    ensures |JoinWith(xs, sep)| > 0
    ensures !IsSep(JoinWith(xs, sep)[0]) && !IsSep(JoinWith(xs, sep)[|JoinWith(xs, sep)| - 1])
    ensures NoDoubledSep(JoinWith(xs, sep))
    ensures sep in JoinWith(xs, sep) <==> |xs| > 1
    decreases |xs|
  {
    var j := JoinWith(xs, sep);
    var last := xs[|xs| - 1];
    if |xs| == 1 {
      assert !IsSep(j[0]);
    } else {
      var init := xs[..|xs| - 1];
      var a := JoinWith(init, sep);
      JoinShape(init, sep);
      assert j == a + [sep] + last;
      assert j[0] == a[0];
      assert j[|a|] == sep;
      forall i | 0 <= i < |j| - 1
        ensures !(IsSep(j[i]) && IsSep(j[i + 1]))
      {
        if i < |a| - 1 {
          assert j[i] == a[i] && j[i + 1] == a[i + 1];
        } else if i == |a| - 1 {
          assert j[i] == a[|a| - 1];
        } else {
          assert j[i + 1] == last[i + 1 - |a| - 1];
        }
      }
    }
    assert j[|j| - 1] == last[|last| - 1];
    if |xs| == 1 {
      assert sep !in j by {
        forall i | 0 <= i < |j| ensures j[i] != sep {
          assert !IsSep(last[i]);
        }
      }
    }
  }

  // ---------------------------------------------------------------------
  // String.prototype.trim

  /** The characters `trim` removes: ECMAScript white space and line terminators. */
  predicate IsSpace(c: char) {
    c == '\U{9}' || c == '\U{B}' || c == '\U{C}' || c == ' ' || c == '\U{A0}' || c == '\U{FEFF}' ||
    c == '\U{1680}' || ('\U{2000}' <= c <= '\U{200A}') || c == '\U{202F}' || c == '\U{205F}' || c == '\U{3000}' ||
    c == '\n' || c == '\r' || c == '\U{2028}' || c == '\U{2029}'
  }

  function TrimStart(s: string): (r: string)
    ensures |r| <= |s| && r == s[|s| - |r|..]
    ensures r == [] || !IsSpace(r[0])
    ensures forall i :: 0 <= i < |s| - |r| ==> IsSpace(s[i])
  {
    if s != [] && IsSpace(s[0]) then TrimStart(s[1..]) else s
  }

  function TrimEnd(s: string): (r: string)
    ensures |r| <= |s| && r == s[..|r|]
    ensures r == [] || !IsSpace(r[|r| - 1])
    ensures forall i :: |r| <= i < |s| ==> IsSpace(s[i])
  {
    if s != [] && IsSpace(s[|s| - 1]) then TrimEnd(s[..|s| - 1]) else s
  }

  function Trim(s: string): string {
    TrimEnd(TrimStart(s))
  }

  // ---------------------------------------------------------------------
  // The back button

  /**
   * The folder the back button scans, or `None` when it does nothing (an
   * empty input, or at most one segment).
   */
  function ParentPath(input: string): Option<string> {
    var current := Trim(input);
    var parts := Segments(current);
    if current == [] || |parts| <= 1 then None
    else if ':' in current then
      var parent := JoinWith(parts[..|parts| - 1], '\\');
      Some(if '\\' in parent then parent else parent + "\\")
    else Some("/" + JoinWith(parts[..|parts| - 1], '/'))
  }

  /**
   * The back button acts exactly when the trimmed input has two segments or
   * more. A Windows parent joins all segments but the last with `\`,
   * with a trailing `\` when only the drive is left; a Unix parent is `/`
   * followed by them joined with `/`.
   */
  lemma ParentPathShape(input: string)
    ensures var parts := Segments(Trim(input));
            && (ParentPath(input).None? <==> |parts| <= 1)
            && (|parts| > 1 && ':' in Trim(input) ==>
                  ParentPath(input) == Some(JoinWith(parts[..|parts| - 1], '\\') + (if |parts| == 2 then "\\" else "")))
            && (|parts| > 1 && ':' !in Trim(input) ==>
                  ParentPath(input) == Some("/" + JoinWith(parts[..|parts| - 1], '/')))
  {
    var current := Trim(input);
    var parts := Segments(current);
    if current == [] {
      assert parts == [];
    }
    if |parts| > 1 {
      SegmentsAreSegments(current);
      var parent := JoinWith(parts[..|parts| - 1], '\\');
      JoinShape(parts[..|parts| - 1], '\\');
      assert parent + "" == parent;
    }
  }

  /** Going back drops exactly the last segment: the parent splits into all segments but the last. */
  lemma ParentDropsLastSegment(input: string)
    requires ParentPath(input).Some?
    ensures var parts := Segments(Trim(input));
            Segments(ParentPath(input).value) == parts[..|parts| - 1]
  {
    var current := Trim(input);
    var parts := Segments(current);
    var init := parts[..|parts| - 1];
    SegmentsAreSegments(current);
    assert AllSegments(init);
    if ':' in current {
      var parent := JoinWith(init, '\\');
      SegmentsOfJoin(init, '\\');
      if '\\' !in parent {
        SegmentsTrailingSep(parent, '\\');
      }
    } else {
      SegmentsOfJoin(init, '/');
      SegmentsLeadingSep('/', JoinWith(init, '/'));
    }
  }

  // ---------------------------------------------------------------------
  // The breadcrumb trail

  /** The folder the `k`-th crumb after the root crumb opens. */
  function CrumbTarget(parts: seq<string>, isWindows: bool, k: nat): string
    requires k < |parts|
  {
    if isWindows then
      if k == 0 then parts[0] + "\\" else JoinWith(parts[..k + 1], '\\')
    else "/" + JoinWith(parts[..k + 1], '/')
  }

  predicate EndsWithSep(s: string) {
    |s| > 0 && IsSep(s[|s| - 1])
  }

  /**
   * The loop of `renderBreadcrumbs` accumulating `currentPath`: one target
   * per segment of the root path, nothing when the root path is empty.
   */
  method BreadcrumbTargets(rootPath: string) returns (targets: seq<string>)
    ensures var parts := Segments(rootPath);
            && |targets| == |parts|
            && forall k :: 0 <= k < |parts| ==> targets[k] == CrumbTarget(parts, ':' in rootPath, k)
  {
    if rootPath == [] {
      return [];
    }
    var parts := Segments(rootPath);
    SegmentsAreSegments(rootPath);
    var isWindows := ':' in rootPath;
    var currentPath := if isWindows then "" else "/";
    targets := [];
    for index := 0 to |parts|
      invariant |targets| == index
      invariant forall k :: 0 <= k < index ==> targets[k] == CrumbTarget(parts, isWindows, k)
      invariant index == 0 ==> currentPath == (if isWindows then "" else "/")
      invariant index > 0 ==> currentPath == targets[index - 1]
    {
      if isWindows && index == 0 {
        currentPath := parts[0] + "\\";
      } else {
        var sep := if EndsWithSep(currentPath) then "" else if isWindows then "\\" else "/";
        CrumbStep(parts, isWindows, index);
        currentPath := currentPath + sep + parts[index];
      }
      targets := targets + [currentPath];
    }
  }

  /** How a target follows from the previous one (or from the root crumb's `/`). */
  lemma CrumbStep(parts: seq<string>, isWindows: bool, k: nat)
    requires AllSegments(parts) && k < |parts| && !(isWindows && k == 0)
    ensures var prev := if k == 0 then "/" else CrumbTarget(parts, isWindows, k - 1);
            var sep := if EndsWithSep(prev) then "" else if isWindows then "\\" else "/";
            CrumbTarget(parts, isWindows, k) == prev + sep + parts[k]
  {
    var s := if isWindows then '\\' else '/';
    assert parts[..k + 1][..k] == parts[..k];
    if k == 0 {
      assert JoinWith(parts[..1], '/') == parts[0];
    } else if isWindows && k == 1 {
      assert parts[..2][..1] == parts[..1];
      assert JoinWith(parts[..1], s) == parts[0];
    } else {
      JoinShape(parts[..k], s);
    }
  }

  /** The `k`-th crumb opens the folder made of the first `k + 1` segments. */
  lemma CrumbOpensPrefix(parts: seq<string>, isWindows: bool, k: nat)
    requires AllSegments(parts) && k < |parts|
    ensures Segments(CrumbTarget(parts, isWindows, k)) == parts[..k + 1]
  {
    var prefix := parts[..k + 1];
    if isWindows && k == 0 {
      SegmentsTrailingSep(parts[0], '\\');
      SegmentsOfSegment(parts[0]);
    } else if isWindows {
      SegmentsOfJoin(prefix, '\\');
    } else {
      SegmentsOfJoin(prefix, '/');
      SegmentsLeadingSep('/', JoinWith(prefix, '/'));
    }
  }

  /** No crumb target has two separators in a row. */
  lemma CrumbHasNoDoubledSep(parts: seq<string>, isWindows: bool, k: nat)
    requires AllSegments(parts) && k < |parts|
    ensures NoDoubledSep(CrumbTarget(parts, isWindows, k))
  {
    var t := CrumbTarget(parts, isWindows, k);
    if isWindows && k == 0 {
      assert forall i :: 0 <= i < |parts[0]| ==> t[i] == parts[0][i];
    } else if isWindows {
      JoinShape(parts[..k + 1], '\\');
    } else {
      var j := JoinWith(parts[..k + 1], '/');
      JoinShape(parts[..k + 1], '/');
      assert forall i :: 0 < i < |t| ==> t[i] == j[i - 1];
    }
  }
}
