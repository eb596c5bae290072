/**
 * The server's directory walks: `getAllImageFiles` (every image below a
 * path, unbounded depth) and `getSubfolders` (the folder listing, depth
 * bounded), and the extension filter they share. The file system is an
 * abstract input: a tree of folders and files.
 */
module ImageFiles {
  import opened Common
  import opened Paths

  // ---------------------------------------------------------------------
  // The extension filter: ['.jpg', '.jpeg', '.png'].includes(path.extname(name).toLowerCase())

  const ImageExtensions: seq<string> := [".jpg", ".jpeg", ".png"]

  /** Index of the last `.` in `s`, if any. */
  function LastDot(s: string): (r: Option<nat>)
    ensures r.Some? ==> r.value < |s| && s[r.value] == '.' && '.' !in s[r.value + 1..]
    ensures r.None? ==> '.' !in s
  {
    if s == [] then None
    else if s[|s| - 1] == '.' then Some(|s| - 1)
    else
      var r := LastDot(s[..|s| - 1]);
      assert s == s[..|s| - 1] + [s[|s| - 1]];
      r
  }

  /**
   * `path.extname` of a file name: from the last dot to the end, except that
   * a name whose only dot leads it (`.png`) and the name `..` have none.
   */
  function Extname(name: string): string {
    match LastDot(name)
    case None => ""
    case Some(d) => if d == 0 || name == ".." then "" else name[d..]
  }

  /** `toLowerCase` on the ASCII letters; no other character lowers to a letter of the extensions. */
  function LowerChar(c: char): char {
    if 'A' <= c <= 'Z' then (c as int + 32) as char else c
  }

  function Lower(s: string): (r: string)
    ensures |r| == |s| && forall i :: 0 <= i < |s| ==> r[i] == LowerChar(s[i])
  {
    seq(|s|, i requires 0 <= i < |s| => LowerChar(s[i]))
  }

  predicate IsImage(name: string) {
    Lower(Extname(name)) in ImageExtensions
  }

  /** `name` ends with `ext`, ignoring ASCII case, and has at least one character before it. */
  predicate EndsWithAfterStem(name: string, ext: string) {
    |name| > |ext| && Lower(name[|name| - |ext|..]) == ext
  }

  /**
   * The filter, restated without `extname`: a name is an image exactly when it
   * ends with `.jpg`, `.jpeg` or `.png` in any letter case after a non-empty stem.
   */
  lemma IsImageBySuffix(name: string)
    ensures IsImage(name) <==> exists ext :: ext in ImageExtensions && EndsWithAfterStem(name, ext)
  {
    if IsImage(name) {
      ImageHasSuffix(name);
    }
    forall ext | ext in ImageExtensions && EndsWithAfterStem(name, ext)
      ensures IsImage(name)
    {
      SuffixMakesImage(name, ext);
    }
  }

  lemma ImageHasSuffix(name: string)
    requires IsImage(name)
    ensures Lower(Extname(name)) in ImageExtensions && EndsWithAfterStem(name, Lower(Extname(name)))
  {
    var d := LastDot(name).value;
    var ext := Lower(Extname(name));
    assert Extname(name) == name[d..];
    assert name[|name| - |ext|..] == name[d..];
  }

  lemma SuffixMakesImage(name: string, ext: string)
    requires ext in ImageExtensions && EndsWithAfterStem(name, ext)
    ensures IsImage(name)
  {
    var d := |name| - |ext|;
    assert Lower(name[d..]) == ext;
    assert LowerChar(name[d]) == '.';
    assert name[d] == '.';
    assert forall i :: d < i < |name| ==> name[i] != '.' by {
      forall i | d < i < |name| ensures name[i] != '.' {
        assert Lower(name[d..])[i - d] == ext[i - d];
        assert ext[i - d] != '.';
      }
    }
    LastDotIs(name, d);
    assert name != "..";
  }

  lemma {:induction false} LastDotIs(s: string, d: nat)
    requires d < |s| && s[d] == '.' && forall i :: d < i < |s| ==> s[i] != '.'
    ensures LastDot(s) == Some(d)
    decreases |s|
  {
    if d < |s| - 1 {
      LastDotIs(s[..|s| - 1], d);
    }
  }

  // ---------------------------------------------------------------------
  // The file system as seen through fs.stat / fs.readdir.

  datatype Node =
    | File
    | Folder(entries: seq<Entry>)
    | LockedFolder            // a directory whose readdir throws
  datatype Entry = Entry(name: string, node: Node)

  /** `Dirent.isDirectory()`. */
  predicate IsDirectory(n: Node) {
    n.Folder? || n.LockedFolder?
  }

  /** First entry of a folder called `name`. */
  function FindEntry(es: seq<Entry>, name: string): (r: Option<Entry>)
    ensures r.Some? ==> r.value in es && r.value.name == name
    ensures r.None? ==> forall e :: e in es ==> e.name != name
  {
    if es == [] then None
    else if es[0].name == name then Some(es[0])
    else FindEntry(es[1..], name)
  }

  /** What `fs.stat` finds at `rel` below `n`; `None` when it throws. */
  function Lookup(n: Node, rel: Path): Option<Node>
    decreases rel
  {
    if rel == [] then Some(n)
    else match n
      case Folder(es) =>
        (match FindEntry(es, rel[0])
         case None => None
         case Some(e) => Lookup(e.node, rel[1..]))
      case _ => None
  }

  /** `getAllImageFiles(p)` once `fs.stat(p)` has found `n`. */
  function AllImageFiles(p: Path, n: Node): seq<Path>
    decreases n, 0
  {
    match n
    case File => if IsImage(Basename(p)) then [p] else []
    case LockedFolder => []
    case Folder(es) => Walk(p, es)
  }

  /** The loop over `readdir(p)`: recurse into directories, keep images. */
  function Walk(p: Path, es: seq<Entry>): seq<Path>
    decreases es, 1
  {
    if es == [] then [] else Visit(p, es[0]) + Walk(p, es[1..])
  }

  /** One entry of that loop. */
  function Visit(p: Path, e: Entry): seq<Path>
    decreases e, 0
  {
    if IsDirectory(e.node) then AllImageFiles(p + [e.name], e.node)
    else if IsImage(e.name) then [p + [e.name]]
    else []
  }

  /** `getAllImageFiles(p)` on the tree `root`; a failing `stat` yields nothing. */
  function ImagesUnder(root: Node, p: Path): seq<Path> {
    match Lookup(root, p)
    case None => []
    case Some(n) => AllImageFiles(p, n)
  }

  /** An independent description: `rel` leads through readable folders of `n` to a file. */
  ghost predicate FileAt(n: Node, rel: Path)
    decreases n
  {
    if rel == [] then n.File?
    else n.Folder? && exists i :: 0 <= i < |n.entries| && n.entries[i].name == rel[0] && FileAt(n.entries[i].node, rel[1..])
  }

  /** Everything the walk returns is an image file below `p`. */
  lemma {:induction false} AllImageFilesSound(p: Path, n: Node, x: Path)
    requires x in AllImageFiles(p, n)
    ensures IsPrefix(p, x) && FileAt(n, x[|p|..]) && IsImage(Basename(x))
    decreases n
  {
    match n
    case File =>
      assert x == p && x[|p|..] == [];
    case LockedFolder =>
    case Folder(es) =>
      WalkSound(p, es, x);
      var i :| 0 <= i < |es| && IsPrefix(p + [es[i].name], x) && FileAt(es[i].node, x[|p| + 1..]) && IsImage(Basename(x));
      ChildPrefix(p, es[i].name, x);
      EntryFileAt(n, i, x[|p|..]);
  }

  lemma ChildPrefix(p: Path, name: string, x: Path)
    requires IsPrefix(p + [name], x)
    ensures IsPrefix(p, x) && |x| > |p| && x[|p|..][0] == name && x[|p|..][1..] == x[|p| + 1..]
  {
    assert x[..|p| + 1] == p + [name];
    assert x[..|p|] == x[..|p| + 1][..|p|];
  }

  lemma EntryFileAt(n: Node, i: nat, rel: Path)
    requires n.Folder? && i < |n.entries| && rel != []
    requires n.entries[i].name == rel[0] && FileAt(n.entries[i].node, rel[1..])
    ensures FileAt(n, rel)
  {
  }

  lemma {:induction false} WalkSound(p: Path, es: seq<Entry>, x: Path)
    requires x in Walk(p, es)
    ensures exists i :: 0 <= i < |es| && IsPrefix(p + [es[i].name], x) && FileAt(es[i].node, x[|p| + 1..]) && IsImage(Basename(x))
    decreases es
  {
    var e := es[0];
    if x in Visit(p, e) {
      if IsDirectory(e.node) {
        AllImageFilesSound(p + [e.name], e.node, x);
        assert x[|p| + 1..] == x[|p + [e.name]|..];
      } else {
        assert x == p + [e.name] && x[|p| + 1..] == [];
        assert e.node.File?;
      }
      assert IsPrefix(p + [es[0].name], x) && FileAt(es[0].node, x[|p| + 1..]);
    } else {
      WalkSound(p, es[1..], x);
      var i :| 0 <= i < |es[1..]| && IsPrefix(p + [es[1..][i].name], x) && FileAt(es[1..][i].node, x[|p| + 1..]) && IsImage(Basename(x));
      assert es[1..][i] == es[i + 1];
    }
  }

  /** Every image file below `p` is returned. */
  lemma {:induction false} AllImageFilesComplete(p: Path, n: Node, rel: Path)
    requires FileAt(n, rel) && IsImage(Basename(p + rel))
    ensures p + rel in AllImageFiles(p, n)
    decreases n
  {
    if rel == [] {
      assert p + rel == p;
    } else {
      var i :| 0 <= i < |n.entries| && n.entries[i].name == rel[0] && FileAt(n.entries[i].node, rel[1..]);
      WalkComplete(p, n.entries, i, rel);
    }
  }

  lemma {:induction false} WalkComplete(p: Path, es: seq<Entry>, i: nat, rel: Path)
    requires i < |es| && rel != [] && es[i].name == rel[0] && FileAt(es[i].node, rel[1..])
    requires IsImage(Basename(p + rel))
    ensures p + rel in Walk(p, es)
    decreases es
  {
    if i == 0 {
      var e := es[0];
      assert p + rel == (p + [e.name]) + rel[1..];
      if IsDirectory(e.node) {
        AllImageFilesComplete(p + [e.name], e.node, rel[1..]);
        assert p + rel in Visit(p, e);
      } else {
        assert rel[1..] == [];
        assert p + rel == p + [e.name];
        assert Basename(p + rel) == e.name;
        assert p + rel in Visit(p, e);
      }
    } else {
      assert es[1..][i - 1] == es[i];
      WalkComplete(p, es[1..], i - 1, rel);
    }
  }

  // ---------------------------------------------------------------------
  // getSubfolders(dir, depth = 0, maxDepth = 3)

  const DefaultMaxDepth: nat := 3

  datatype FolderInfo = FolderInfo(name: string, path: Path, depth: nat)

  /** Names the listing skips: dot-folders and `node_modules`. */
  predicate Skipped(name: string) {
    (|name| > 0 && name[0] == '.') || name == "node_modules"
  }

  function Subfolders(dir: Path, n: Node, depth: nat, maxDepth: nat): seq<FolderInfo>
    decreases n
  {
    if depth > maxDepth then []
    else match n
      case Folder(es) => SubWalk(dir, es, depth, maxDepth)
      case _ => []
  }

  function SubWalk(dir: Path, es: seq<Entry>, depth: nat, maxDepth: nat): seq<FolderInfo>
    decreases es
  {
    if es == [] then []
    else
      var e := es[0];
      var here :=
        if IsDirectory(e.node) && !Skipped(e.name) then
          [FolderInfo(e.name, dir + [e.name], depth)] + Subfolders(dir + [e.name], e.node, depth + 1, maxDepth)
        else [];
      here + SubWalk(dir, es[1..], depth, maxDepth)
  }

  /** What every listed folder satisfies relative to the folder the listing starts from. */
  ghost predicate ListedBelow(dir: Path, depth: nat, maxDepth: nat, f: FolderInfo) {
    && depth <= f.depth <= maxDepth
    && IsPrefix(dir, f.path)
    && |f.path| == |dir| + (f.depth - depth) + 1
    && f.name == Basename(f.path)
    && forall i :: |dir| <= i < |f.path| ==> !Skipped(f.path[i])
  }

  /**
   * The depth bound: no listed folder lies deeper than `maxDepth`, each one is
   * `depth` levels below where its own listing started, and the walk never
   * passes through a dot-folder or `node_modules`.
   */
  lemma {:induction false} SubfoldersBounded(dir: Path, n: Node, depth: nat, maxDepth: nat, f: FolderInfo)
    requires f in Subfolders(dir, n, depth, maxDepth)
    ensures ListedBelow(dir, depth, maxDepth, f)
    decreases n
  {
    if depth <= maxDepth && n.Folder? {
      SubWalkBounded(dir, n.entries, depth, maxDepth, f);
    }
  }

  lemma {:induction false} SubWalkBounded(dir: Path, es: seq<Entry>, depth: nat, maxDepth: nat, f: FolderInfo)
    requires depth <= maxDepth
    requires f in SubWalk(dir, es, depth, maxDepth)
    ensures ListedBelow(dir, depth, maxDepth, f)
    decreases es
  {
    var e := es[0];
    if IsDirectory(e.node) && !Skipped(e.name) {
      var child := dir + [e.name];
      if f == FolderInfo(e.name, child, depth) {
        assert ListedBelow(dir, depth, maxDepth, f);
        return;
      } else if f in Subfolders(child, e.node, depth + 1, maxDepth) {
        SubfoldersBounded(child, e.node, depth + 1, maxDepth, f);
        assert f.path[|dir|] == child[|dir|] == e.name by {
          assert f.path[..|child|] == child;
        }
        assert f.path[..|dir|] == dir by {
          assert f.path[..|child|][..|dir|] == child[..|dir|];
        }
        return;
      }
    }
    SubWalkBounded(dir, es[1..], depth, maxDepth, f);
  }
}
