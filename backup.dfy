/**
 * The optional backup a worker makes before compressing a file
 * (server.js, `worker`, the block guarded by `doBackup && rootPath`): the
 * original goes to `<root>_backup/<path of the file relative to root>` and
 * is copied only when nothing is there yet.
 */
module Backup {
  import opened Common
  import opened Paths

  const Suffix: string := "_backup"

  /** The path `${rootPath}_backup`: the root's last segment with the suffix appended (`/_backup` for `/`). */
  function BackupRoot(root: Path): (r: Path)
    ensures root == [] ==> r == [Suffix]
    ensures root != [] ==> |r| == |root| && r[..|root| - 1] == root[..|root| - 1]
    ensures root != [] ==> r[|root| - 1] != root[|root| - 1]
  {
    if root == [] then [Suffix]
    else
      var last := root[|root| - 1];
      assert |last + Suffix| > |last|;
      root[..|root| - 1] + [last + Suffix]
  }

  /** `path.join(backupRoot, path.relative(rootPath, filePath))`. */
  function Destination(root: Path, file: Path): Path {
    Join(BackupRoot(root), Relative(root, file))
  }

  datatype Outcome =
    | NotRequested            // backup switched off, or no root path given
    | AlreadyPresent(dest: Path)  // a file already sits at the destination: nothing is copied
    | Copied(dest: Path)
    | Failed(dest: Path)      // mkdir or copyFile threw: only a warning is logged

  /**
   * One backup step. `existing` is the set of files on disk; `ioFails` is the
   * outcome, decided by the file system, of the directory creation and copy.
   */
  function BackupFile(doBackup: bool, root: Option<Path>, file: Path, existing: set<Path>, ioFails: bool): (r: Outcome)
    ensures r.NotRequested? <==> !doBackup || root.None?
    ensures !r.NotRequested? ==> r.dest == Destination(root.value, file)
    ensures r.AlreadyPresent? <==> !r.NotRequested? && r.dest in existing
    ensures r.Copied? <==> !r.NotRequested? && r.dest !in existing && !ioFails
  {
    if !doBackup || root.None? then NotRequested
    else
      var dest := Destination(root.value, file);
      if dest in existing then AlreadyPresent(dest)
      else if ioFails then Failed(dest)
      else Copied(dest)
  }

  /** The files on disk after a backup step. */
  function FilesAfter(existing: set<Path>, r: Outcome): set<Path> {
    if r.Copied? then existing + {r.dest} else existing
  }

  /**
   * Re-running the backup of a file that was backed up (or already had a
   * backup) copies nothing: an existing backup is never overwritten.
   */
  lemma BackupIsIdempotent(doBackup: bool, root: Option<Path>, file: Path, existing: set<Path>, io1: bool, io2: bool)
    requires BackupFile(doBackup, root, file, existing, io1).Copied? || BackupFile(doBackup, root, file, existing, io1).AlreadyPresent?
    ensures var after := FilesAfter(existing, BackupFile(doBackup, root, file, existing, io1));
            BackupFile(doBackup, root, file, after, io2) == AlreadyPresent(Destination(root.value, file)) &&
            FilesAfter(after, BackupFile(doBackup, root, file, after, io2)) == after
  {
  }

  /** For a file below the root the destination mirrors its place under `<root>_backup`. */
  lemma DestinationUnderRoot(root: Path, file: Path)
    requires IsPrefix(root, file) && Normal(file)
    ensures Destination(root, file) == BackupRoot(root) + file[|root|..]
  {
    RelativeUnder(root, file);
    assert Normal(file[|root|..]);
    JoinNormal(BackupRoot(root), file[|root|..]);
  }

  /** Two different files below the root never share a backup. */
  lemma DestinationInjective(root: Path, f1: Path, f2: Path)
    requires IsPrefix(root, f1) && Normal(f1) && IsPrefix(root, f2) && Normal(f2)
    requires f1 != f2
    ensures Destination(root, f1) != Destination(root, f2)
  {
    DestinationUnderRoot(root, f1);
    DestinationUnderRoot(root, f2);
    assert f1 == root + f1[|root|..] && f2 == root + f2[|root|..];
    var b := BackupRoot(root);
    assert Destination(root, f1)[|b|..] == f1[|root|..];
    assert Destination(root, f2)[|b|..] == f2[|root|..];
  }

  /** The backup of a file below a non-root folder is never itself below that folder. */
  lemma DestinationOutsideTree(root: Path, file: Path)
    requires root != [] && IsPrefix(root, file) && Normal(file)
    ensures !IsPrefix(root, Destination(root, file))
  {
    DestinationUnderRoot(root, file);
    var d := Destination(root, file);
    assert d[|root| - 1] == BackupRoot(root)[|root| - 1];
  }

  /**
   * For a file NOT below the root, `relative` climbs out with `..` segments
   * and `join` cancels them against `<root>_backup`, landing on the file
   * itself.
   */
  lemma {:induction false} DestinationOutsideRoot(root: Path, file: Path)
    requires !IsPrefix(root, file) && Normal(file)
    ensures Destination(root, file) == file
  {
    var k := CommonPrefixLength(root, file);
    assert file[..k] == root[..k];
    assert k < |root|;
    var b := BackupRoot(root);
    JoinUps(b, |root| - k, file[k..]);
    assert b[..|b| - (|root| - k)] == b[..k] == root[..k];
    assert Normal(file[k..]);
    JoinNormal(b[..k], file[k..]);
    assert root[..k] + file[k..] == file[..k] + file[k..] == file;
  }

  /** Hence such a file, which exists on disk, is never copied anywhere. */
  lemma OutsideFileNeverCopied(root: Path, file: Path, existing: set<Path>, ioFails: bool)
    requires !IsPrefix(root, file) && Normal(file) && file in existing
    ensures BackupFile(true, Some(root), file, existing, ioFails) == AlreadyPresent(file)
  {
    DestinationOutsideRoot(root, file);
  }
}
