/**
 * The `/compress` route: validate the request, collect the images under
 * every selected path into a Set (first occurrence first) and start the job
 * on them.
 */
module CompressRoute {
  import opened Common
  import opened Paths
  import opened ImageFiles
  import opened Jobs

  /** `s` after `Set.add(x)`, in the Set's insertion order. */
  function Add(s: seq<Path>, x: Path): (r: seq<Path>)
    ensures x in r && (forall y :: y in r <==> y in s || y == x)
  {
    if x in s then s else s + [x]
  }

  /** `acc` after adding each of `xs` in turn. */
  function AddAll(acc: seq<Path>, xs: seq<Path>): seq<Path>
    decreases |xs|
  {
    if xs == [] then acc else Add(AddAll(acc, xs[..|xs| - 1]), xs[|xs| - 1])
  }

  /** A walk from a path to the files it finds. */
  type Walker = Path -> seq<Path>

  /** `getAllImageFiles` on the file system `root`. */
  function ImagesOf(root: Node): Walker {
    (p: Path) => ImagesUnder(root, p)
  }

  /** The Set's contents after the loop over `selected`. */
  function Collect(walk: Walker, selected: seq<Path>): seq<Path>
    decreases |selected|
  {
    if selected == [] then []
    else AddAll(Collect(walk, selected[..|selected| - 1]), walk(selected[|selected| - 1]))
  }

  /** `x` is among the files found under one of the selected paths. */
  ghost predicate Found(walk: Walker, selected: seq<Path>, x: Path) {
    exists i :: 0 <= i < |selected| && x in walk(selected[i])
  }

  /** Adding keeps what was there, in its order, drops no value and adds no duplicate. */
  lemma {:induction false} AddAllKeeps(acc: seq<Path>, xs: seq<Path>)
    requires NoDup(acc)
    ensures var r := AddAll(acc, xs);
            && NoDup(r) && |acc| <= |r| && r[..|acc|] == acc
            && forall y :: y in r <==> y in acc || y in xs
    decreases |xs|
  {
    if xs != [] {
      var init, x := xs[..|xs| - 1], xs[|xs| - 1];
      AddAllKeeps(acc, init);
      var before := AddAll(acc, init);
      if x !in before {
        NoDupSnoc(before, x);
        assert (before + [x])[..|acc|] == before[..|acc|];
      }
      assert forall y :: y in xs <==> y in init || y == x by {
        assert xs == init + [x];
      }
    }
  }

  /** The images found under `selected` are those found under all but its last path, and under that one. */
  lemma FoundSnoc(walk: Walker, selected: seq<Path>, x: Path)
    requires selected != []
    ensures Found(walk, selected, x) <==>
      Found(walk, selected[..|selected| - 1], x) || x in walk(selected[|selected| - 1])
  {
    var init := selected[..|selected| - 1];
    if Found(walk, selected, x) {
      var i :| 0 <= i < |selected| && x in walk(selected[i]);
      if i < |init| {
        assert init[i] == selected[i];
      }
    }
    if Found(walk, init, x) {
      var i :| 0 <= i < |init| && x in walk(init[i]);
      assert selected[i] == init[i];
    }
  }

  /** The collected list has no duplicate and holds exactly the images found under the selected paths. */
  lemma {:induction false} CollectIsUnion(walk: Walker, selected: seq<Path>)
    ensures NoDup(Collect(walk, selected))
    ensures forall x :: x in Collect(walk, selected) <==> Found(walk, selected, x)
    decreases |selected|
  {
    if selected != [] {
      var init, p := selected[..|selected| - 1], selected[|selected| - 1];
      CollectIsUnion(walk, init);
      AddAllKeeps(Collect(walk, init), walk(p));
      forall x ensures x in Collect(walk, selected) <==> Found(walk, selected, x) {
        FoundSnoc(walk, selected, x);
      }
    }
  }

  /** Every collected path is an image file lying under one of the selected paths. */
  lemma CollectOnlyImages(root: Node, selected: seq<Path>, x: Path)
    requires x in Collect(ImagesOf(root), selected)
    ensures IsImage(Basename(x))
    ensures exists i :: 0 <= i < |selected| && IsPrefix(selected[i], x)
  {
    CollectIsUnion(ImagesOf(root), selected);
    var i :| 0 <= i < |selected| && x in ImagesOf(root)(selected[i]);
    var n := Lookup(root, selected[i]).value;
    AllImageFilesSound(selected[i], n, x);
  }

  /**
   * The `fileSet` loops of `/compress`: `getAllImageFiles` of each selected
   * path in turn, each file added to the Set.
   */
  method BuildFileList(root: Node, selected: seq<Path>) returns (unique: seq<Path>)
    ensures unique == Collect(ImagesOf(root), selected)
    ensures NoDup(unique) && forall x :: x in unique <==> Found(ImagesOf(root), selected, x)
  {
    unique := [];
    ghost var walk := ImagesOf(root);
    for i := 0 to |selected|
      invariant unique == Collect(walk, selected[..i])
    {
      var files := ImagesUnder(root, selected[i]);
      assert files == walk(selected[i]);
      ghost var before := unique;
      for j := 0 to |files|
        invariant unique == AddAll(before, files[..j])
      {
        assert files[..j + 1][..j] == files[..j];
        if files[j] !in unique {
          unique := unique + [files[j]];
        }
      }
      assert files[..|files|] == files;
      assert selected[..i + 1][..i] == selected[..i];
    }
    assert selected[..|selected|] == selected;
    CollectIsUnion(walk, selected);
  }

  datatype Reply =
    | NoSelection      // 400: selectedPaths missing or empty
    | JobRunning       // 400: a job is running
    | NoImages         // count 0: nothing to compress
    | Started(count: nat)

  /**
   * `POST /compress`. `selected` is `None` when the body has no
   * `selectedPaths`; `root` is the file system the walks see.
   */
  method HandleCompress(jm: JobManager, root: Node, selected: Option<seq<Path>>, backup: bool,
                        rootPath: Option<Path>, ended: set<Client>) returns (reply: Reply)
    requires jm.Valid()
    modifies jm
    ensures jm.Valid()
    ensures (selected.None? || selected.value == []) ==> reply == NoSelection && unchanged(jm)
    ensures selected.Some? && selected.value != [] && old(jm.status) == Running ==>
      reply == JobRunning && unchanged(jm)
    ensures selected.Some? && selected.value != [] && old(jm.status) != Running ==>
      var files := Collect(ImagesOf(root), selected.value);
      && (files == [] ==> reply == NoImages && unchanged(jm))
      && (files != [] ==>
            && reply == Started(|files|)
            && jm.status == Running && jm.files == files && jm.total == |files|
            && jm.results == [] && jm.processedCount == 0 && jm.completedCount == 0
            && jm.selectedPaths == selected.value && jm.doBackup == backup && jm.rootPath == rootPath
            && jm.clients == old(jm.clients) - ended)
  {
    if selected.None? || selected.value == [] {
      return NoSelection;
    }
    if jm.status == Running {
      return JobRunning;
    }
    var files := BuildFileList(root, selected.value);
    if files == [] {
      return NoImages;
    }
    jm.Start(files, selected.value, backup, rootPath, ended);
    reply := Started(|files|);
  }
}
