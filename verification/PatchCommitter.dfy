/** The multi-file commit: stage every new content in a temporary file, move every original aside,
    move the new contents in, and on any failure put the originals back. */
module PatchCommitter {
  import opened ByteStrings
  import opened Wrappers
  import opened FileSystems

  const DEFAULT_MODE: nat := 0x1A4

  /** What staging saw at a path: nothing, or a file's digest and mode. */
  datatype Baseline = Absent | Present(digest: string, mode: nat)

  datatype StagedFile = StagedFile(
    path: Path, parents: seq<Path>, content: Option<Bytes>, baseline: Baseline, mode: Option<nat>)

  datatype Failure =
    | DuplicatePath
    | Conflict(path: Path)
    | IoError
    | RollbackFailed(recoveryBackups: map<Path, Path>)

  // ---------------------------------------------------------------- what a commit is for

  ghost predicate UniquePaths(changes: seq<StagedFile>) {
    forall i, j | 0 <= i < j < |changes| :: changes[i].path != changes[j].path
  }

  /** Patches name no scratch path. */
  ghost predicate TargetsOnly(changes: seq<StagedFile>) {
    forall c <- changes :: c.path.Target? && forall p <- c.parents :: p.Target?
  }

  function NewFile(c: StagedFile): Option<Node> {
    if c.content.None? then None
    else Some(File(c.content.value, if c.mode.Some? then c.mode.value else DEFAULT_MODE))
  }

  /** Every changed path holds its new content, or nothing for a deletion, and no other file
      differs. */
  ghost predicate Committed(before: Nodes, after: Nodes, changes: seq<StagedFile>) {
    && (forall c <- changes :: FileAt(after, c.path) == NewFile(c))
    && (forall path: Path | path.Target? && (forall c <- changes :: c.path != path) ::
          FileAt(after, path) == FileAt(before, path))
  }

  /** The path is as it was when the change was staged: nothing is there, or the file that was. */
  ghost predicate Fits(digest: Bytes -> string, nodes: Nodes, c: StagedFile) {
    match c.baseline
    case Absent => c.path !in nodes
    case Present(d, mode) =>
      c.path in nodes && nodes[c.path].File? && digest(nodes[c.path].data) == d && nodes[c.path].mode == mode
  }

  ghost predicate IsParent(changes: seq<StagedFile>, path: Path) {
    exists c <- changes :: path in c.parents
  }

  /** A change that cannot be made at this path: its baseline does not fit, or another change needs a
      directory there. */
  ghost predicate Unfit(digest: Bytes -> string, before: Nodes, changes: seq<StagedFile>, path: Path) {
    exists c <- changes :: c.path == path && (!Fits(digest, before, c) || (path !in before && IsParent(changes, path)))
  }

  /** A file stands where a change needs a directory. */
  ghost predicate Blocked(before: Nodes, changes: seq<StagedFile>) {
    exists c <- changes :: exists p <- c.parents :: FileAt(before, p).Some?
  }

  /** Nothing about the files speaks against the changes. */
  ghost predicate Acceptable(digest: Bytes -> string, before: Nodes, changes: seq<StagedFile>) {
    && UniquePaths(changes) && !Blocked(before, changes)
    && forall c <- changes :: Fits(digest, before, c) && !IsParent(changes, c.path)
  }

  /** Every original file is still at its path or at its recorded recovery backup. */
  ghost predicate NothingLost(before: Nodes, after: Nodes, recovery: map<Path, Path>) {
    forall path: Path | path.Target? && FileAt(before, path).Some? ::
      || FileAt(after, path) == FileAt(before, path)
      || (path in recovery && FileAt(after, recovery[path]) == FileAt(before, path))
  }

  // ---------------------------------------------------------------- a commit under way

  /** Paths of the temporary files and of the originals moved aside, and the paths that already
      hold their new content. */
  datatype Progress = Progress(prepared: map<Path, Path>, backups: map<Path, Path>, installed: set<Path>)

  ghost predicate Separate(pr: Progress) {
    && (forall p <- pr.prepared :: p.Target? && pr.prepared[p].Scratch?)
    && (forall p <- pr.backups :: p.Target? && pr.backups[p].Scratch?)
    && (forall p <- pr.prepared, q <- pr.backups :: pr.prepared[p] != pr.backups[q])
    && (forall p <- pr.backups, q <- pr.backups :: p != q ==> pr.backups[p] != pr.backups[q])
  }

  /** The original of a path that is not yet back in place: kept in its backup if it was moved
      aside, nonexistent if only a new file was put there, and untouched otherwise. */
  ghost predicate Undoable(before: Nodes, nodes: Nodes, pr: Progress, path: Path) {
    if path in pr.backups then
      && FileAt(before, path).Some?
      && FileAt(nodes, pr.backups[path]) == FileAt(before, path)
      && (path in nodes ==> path in pr.installed && nodes[path].File?)
    else if path in pr.installed then FileAt(before, path).None?
    else FileAt(nodes, path) == FileAt(before, path)
  }

  ghost predicate Torn(before: Nodes, nodes: Nodes, pr: Progress) {
    && Separate(pr) && TempsAreFiles(nodes, pr)
    && forall path: Path | path.Target? :: Undoable(before, nodes, pr, path)
  }

  ghost predicate TempsAreFiles(nodes: Nodes, pr: Progress) {
    forall p <- pr.prepared :: pr.prepared[p] in nodes ==> nodes[pr.prepared[p]].File?
  }

  /** The change has a temporary file exactly when it has new content, and the file holds it. */
  ghost predicate Staged(nodes: Nodes, pr: Progress, c: StagedFile) {
    if c.content.Some? then
      c.path in pr.prepared && (c.path !in pr.installed ==> FileAt(nodes, pr.prepared[c.path]) == NewFile(c))
    else c.path !in pr.prepared
  }

  ghost predicate DistinctTemps(pr: Progress) {
    forall p <- pr.prepared, q <- pr.prepared :: p != q ==> pr.prepared[p] != pr.prepared[q]
  }

  /** Nothing but scratch files and directories was added. */
  ghost predicate Grown(before: Nodes, after: Nodes) {
    && (forall p <- before :: p in after && after[p] == before[p])
    && (forall p <- after | p !in before :: p.Scratch? || after[p].Dir?)
  }

  /** `_assert_baseline`: a conflict exactly when the path does not fit, unless it cannot be read. */
  method AssertBaseline(fs: FileSystem, c: StagedFile) returns (failure: Option<Failure>)
    modifies fs`faults
    ensures fs.faults >= old(fs.faults)
    ensures failure.None? ==> Fits(fs.digest, fs.nodes, c)
    ensures failure == Some(Conflict(c.path)) ==> !Fits(fs.digest, fs.nodes, c)
    ensures failure.Some? ==>
              failure == Some(Conflict(c.path)) || (failure == Some(IoError) && fs.faults > old(fs.faults))
  {
    var fault := fs.Fault();
    if fault {
      return Some(IoError);
    }
    var matches;
    if c.baseline.Absent? {
      matches := c.path !in fs.nodes;
    } else if c.path !in fs.nodes || fs.nodes[c.path].Dir? {
      matches := false;
    } else {
      var current := fs.nodes[c.path];
      matches := c.baseline.digest == fs.digest(current.data) && c.baseline.mode == current.mode;
    }
    return if matches then None else Some(Conflict(c.path));
  }

  // ---------------------------------------------------------------- what the phases leave alone

  /** The path is as before the commit, or a directory that some change needed. */
  ghost predicate AsBefore(before: Nodes, nodes: Nodes, changes: seq<StagedFile>, path: Path) {
    || SameAt(before, nodes, path)
    || (path !in before && IsParent(changes, path) && (path in nodes ==> nodes[path].Dir?))
  }

  ghost predicate TargetsBefore(before: Nodes, nodes: Nodes, changes: seq<StagedFile>) {
    forall path: Path | path.Target? :: AsBefore(before, nodes, changes, path)
  }

  ghost predicate Untouched(before: Nodes, nodes: Nodes, changes: seq<StagedFile>, i: nat) {
    forall j | i <= j < |changes| :: AsBefore(before, nodes, changes, changes[j].path)
  }

  lemma ConflictIsUnfit(digest: Bytes -> string, before: Nodes, nodes: Nodes, changes: seq<StagedFile>, c: StagedFile)
    requires c in changes && AsBefore(before, nodes, changes, c.path)
    ensures !Fits(digest, nodes, c) ==> Unfit(digest, before, changes, c.path)
    ensures Fits(digest, nodes, c) ==> Fits(digest, before, c)
  {
    if SameAt(before, nodes, c.path) {
      assert Fits(digest, nodes, c) <==> Fits(digest, before, c);
    }
  }

  /** Parents made for one change, and its temporary file, are all that phase one adds. */
  lemma StaysBefore(before: Nodes, nodes: Nodes, next: Nodes, changes: seq<StagedFile>, c: StagedFile)
    requires c in changes && TargetsBefore(before, nodes, changes) && Grown(before, next)
    requires forall p: Path | p.Target? && p !in c.parents :: SameAt(nodes, next, p)
    ensures TargetsBefore(before, next, changes)
  {
    forall path: Path | path.Target? ensures AsBefore(before, next, changes, path) {
      assert AsBefore(before, nodes, changes, path);
    }
  }

  lemma MoveLeavesOthers(before: Nodes, nodes: Nodes, moved: Nodes, changes: seq<StagedFile>, i: nat, backup: Path)
    requires UniquePaths(changes) && TargetsOnly(changes) && i < |changes| && Untouched(before, nodes, changes, i)
    requires backup.Scratch? && changes[i].path in nodes
    requires moved == (nodes - {changes[i].path})[backup := nodes[changes[i].path]]
    ensures Untouched(before, moved, changes, i + 1)
  {
    forall j | i + 1 <= j < |changes| ensures AsBefore(before, moved, changes, changes[j].path) {
      assert changes[j] in changes && AsBefore(before, nodes, changes, changes[j].path);
    }
  }

  /** The directories that are there now and were not before are `created`; nothing else differs. */
  ghost predicate DirectoriesMade(before: Nodes, after: Nodes, created: seq<Path>) {
    && (forall p <- before :: p in after && after[p] == before[p])
    && (forall p <- after | p !in before :: p in created && after[p].Dir?)
    && (forall p <- created :: p in after && p !in before)
  }

  /** `_ensure_parent`: creates the missing directories, outermost first. When it fails, some of the
      parents may have been created and are not reported. */
  method EnsureParent(fs: FileSystem, parents: seq<Path>) returns (created: Option<seq<Path>>)
    modifies fs
    ensures fs.faults >= old(fs.faults)
    ensures created.None? && fs.faults == old(fs.faults) ==> exists p <- parents :: FileAt(old(fs.nodes), p).Some?
    ensures forall p: Path | p !in parents :: SameAt(old(fs.nodes), fs.nodes, p)
    ensures created.Some? ==> DirectoriesMade(old(fs.nodes), fs.nodes, created.value)
    ensures created.Some? ==> forall p <- parents :: p in fs.nodes && fs.nodes[p].Dir?
    ensures exists made :: DirectoriesMade(old(fs.nodes), fs.nodes, made) && forall p <- made :: p in parents
  {
    var missing: seq<Path> := [];
    for i := 0 to |parents|
      invariant fs.faults >= old(fs.faults)
      invariant DirectoriesMade(old(fs.nodes), fs.nodes, missing)
      invariant forall p <- missing :: p in parents
      invariant forall p <- parents[..i] :: p in fs.nodes && fs.nodes[p].Dir?
    {
      var existed := parents[i] in fs.nodes;
      var ok := fs.MakeDirectory(parents[i]);
      if !ok {
        assert parents[i] in parents && FileAt(fs.nodes, parents[i]) == FileAt(old(fs.nodes), parents[i]);
        return None;
      }
      if !existed {
        missing := missing + [parents[i]];
      }
      assert parents[..i + 1] == parents[..i] + [parents[i]];
    }
    return Some(missing);
  }

  /** `_prepare_file`: the new content in a fresh temporary file. */
  method PrepareFile(fs: FileSystem, c: StagedFile) returns (path: Option<Path>)
    requires c.content.Some?
    modifies fs
    ensures Grown(old(fs.nodes), fs.nodes)
    ensures fs.faults >= old(fs.faults) && (path.None? ==> fs.faults > old(fs.faults))
    ensures forall p: Path | p.Target? :: SameAt(old(fs.nodes), fs.nodes, p)
    ensures path.Some? ==>
              path.value.Scratch? && path.value !in old(fs.nodes) && FileAt(fs.nodes, path.value) == NewFile(c)
  {
    var temp := fs.MakeTemp();
    if temp.None? {
      return None;
    }
    var mode := if c.mode.Some? then c.mode.value else DEFAULT_MODE;
    var ok := fs.Write(temp.value, c.content.value, mode);
    if !ok {
      var removed := fs.Unlink(temp.value, true);
      return None;
    }
    return temp;
  }

  /** `_reserve_backup_path`: a fresh name, made and removed again. */
  method ReserveBackupPath(fs: FileSystem) returns (path: Option<Path>)
    modifies fs
    ensures Grown(old(fs.nodes), fs.nodes) && forall p <- fs.nodes | p !in old(fs.nodes) :: p.Scratch?
    ensures fs.faults >= old(fs.faults) && (path.None? ==> fs.faults > old(fs.faults))
    ensures path.Some? ==> path.value.Scratch? && path.value !in old(fs.nodes) && fs.nodes == old(fs.nodes)
  {
    path := fs.MakeTemp();
    if path.Some? {
      var ok := fs.Unlink(path.value, false);
      if !ok {
        return None;
      }
      assert fs.nodes == old(fs.nodes);
    }
  }

  // ---------------------------------------------------------------- the four phases

  /** The state of phase one after the first `i` changes. */
  ghost predicate Preparing(before: Nodes, nodes: Nodes, pr: Progress, changes: seq<StagedFile>, i: nat)
    requires i <= |changes|
  {
    && Grown(before, nodes)
    && Separate(pr) && DistinctTemps(pr) && pr.backups == map[] && pr.installed == {}
    && (forall p <- pr.prepared :: FileAt(nodes, pr.prepared[p]).Some?)
    && (forall j | 0 <= j < i :: Staged(nodes, pr, changes[j]))
    && (forall j | i <= j < |changes| :: changes[j].path !in pr.prepared)
  }

  function Prepared(pr: Progress, path: Path, temp: Option<Path>): Progress {
    if temp.None? then pr else pr.(prepared := pr.prepared[path := temp.value])
  }

  lemma PreparedOne(before: Nodes, nodes: Nodes, grown: Nodes, pr: Progress, changes: seq<StagedFile>, i: nat,
                    temp: Option<Path>)
    requires UniquePaths(changes) && TargetsOnly(changes) && i < |changes|
    requires Preparing(before, nodes, pr, changes, i) && Grown(nodes, grown)
    requires temp.Some? <==> changes[i].content.Some?
    requires temp.Some? ==>
               temp.value.Scratch? && temp.value !in nodes && FileAt(grown, temp.value) == NewFile(changes[i])
    ensures Preparing(before, grown, Prepared(pr, changes[i].path, temp), changes, i + 1)
  {
    var next := Prepared(pr, changes[i].path, temp);
    assert changes[i] in changes;
    forall j | 0 <= j < i + 1 ensures Staged(grown, next, changes[j]) {
      if j < i {
        assert Staged(nodes, pr, changes[j]);
      }
    }
  }

  /** Phase one: parents and temporary files. */
  method PrepareAll(fs: FileSystem, changes: seq<StagedFile>)
    returns (ok: bool, pr: Progress, createdDirs: seq<Path>)
    requires UniquePaths(changes) && TargetsOnly(changes)
    modifies fs
    ensures Torn(old(fs.nodes), fs.nodes, pr) && pr.backups == map[] && pr.installed == {}
    ensures forall p <- pr.prepared :: pr.prepared[p] in fs.nodes
    ensures fs.faults >= old(fs.faults)
    ensures !ok && fs.faults == old(fs.faults) ==> Blocked(old(fs.nodes), changes)
    ensures TargetsBefore(old(fs.nodes), fs.nodes, changes)
    ensures ok ==> DistinctTemps(pr) && forall c <- changes :: Staged(fs.nodes, pr, c)
  {
    ghost var before := fs.nodes;
    pr, createdDirs := Progress(map[], map[], {}), [];
    for i := 0 to |changes|
      invariant Preparing(before, fs.nodes, pr, changes, i)
      invariant TargetsBefore(before, fs.nodes, changes) && fs.faults >= old(fs.faults)
    {
      ghost var held := fs.nodes;
      assert changes[i] in changes;
      var dirs, temp := MakeReady(fs, changes[i]);
      StaysBefore(before, held, fs.nodes, changes, changes[i]);
      if dirs.None? {
        return false, pr, createdDirs;
      }
      createdDirs := createdDirs + dirs.value;
      if changes[i].content.Some? && temp.None? {
        return false, pr, createdDirs;
      }
      PreparedOne(before, held, fs.nodes, pr, changes, i, temp);
      pr := Prepared(pr, changes[i].path, temp);
    }
    return true, pr, createdDirs;
  }

  /** One change of phase one: its parents and its temporary file. */
  method MakeReady(fs: FileSystem, c: StagedFile) returns (dirs: Option<seq<Path>>, temp: Option<Path>)
    modifies fs
    ensures Grown(old(fs.nodes), fs.nodes) && fs.faults >= old(fs.faults)
    ensures forall p: Path | p.Target? && p !in c.parents :: SameAt(old(fs.nodes), fs.nodes, p)
    ensures dirs.None? && fs.faults == old(fs.faults) ==> exists p <- c.parents :: FileAt(old(fs.nodes), p).Some?
    ensures dirs.Some? && c.content.Some? && temp.None? ==> fs.faults > old(fs.faults)
    ensures temp.Some? ==>
              && c.content.Some? && temp.value.Scratch? && temp.value !in old(fs.nodes)
              && FileAt(fs.nodes, temp.value) == NewFile(c)
  {
    ghost var held := fs.nodes;
    temp := None;
    dirs := EnsureParent(fs, c.parents);
    assert Grown(held, fs.nodes);
    if dirs.Some? && c.content.Some? {
      temp := PrepareFile(fs, c);
      assert Grown(held, fs.nodes);
    }
  }

  /** The first check of all baselines. */
  method CheckAll(fs: FileSystem, changes: seq<StagedFile>, ghost before: Nodes) returns (failure: Option<Failure>)
    requires TargetsOnly(changes) && TargetsBefore(before, fs.nodes, changes)
    modifies fs`faults
    ensures fs.faults >= old(fs.faults)
    ensures Explained(failure, fs.digest, before, changes, fs.faults - old(fs.faults))
  {
    for i := 0 to |changes|
      invariant fs.faults >= old(fs.faults)
    {
      assert changes[i] in changes;
      failure := AssertBaseline(fs, changes[i]);
      ConflictIsUnfit(fs.digest, before, fs.nodes, changes, changes[i]);
      if failure.Some? {
        return;
      }
    }
    return None;
  }

  /** A failure has its reason: a conflict a change that does not fit, anything else a fault. */
  ghost predicate Explained(failure: Option<Failure>, digest: Bytes -> string, before: Nodes, changes: seq<StagedFile>,
                            faults: int)
  {
    failure.Some? ==>
      || (failure.value.Conflict? && Unfit(digest, before, changes, failure.value.path))
      || (failure.value.IoError? && faults > 0)
  }

  ghost predicate Mentions(changes: seq<StagedFile>, path: Path) {
    exists c <- changes :: c.path == path
  }

  /** Moving one original aside keeps the commit undoable. */
  lemma MovedAside(before: Nodes, nodes: Nodes, moved: Nodes, pr: Progress, path: Path, backup: Path)
    requires Torn(before, nodes, pr) && pr.installed == {}
    requires path.Target? && path !in pr.backups && FileAt(nodes, path).Some?
    requires backup.Scratch? && backup !in nodes
    requires forall p <- pr.prepared :: pr.prepared[p] in nodes
    requires moved == (nodes - {path})[backup := nodes[path]]
    ensures Torn(before, moved, pr.(backups := pr.backups[path := backup]))
  {
    var after := pr.(backups := pr.backups[path := backup]);
    BackupIsSeparate(before, nodes, pr, path, backup);
    forall q: Path | q.Target? ensures Undoable(before, moved, after, q) {
      assert Undoable(before, nodes, pr, q);
    }
  }

  lemma BackupIsSeparate(before: Nodes, nodes: Nodes, pr: Progress, path: Path, backup: Path)
    requires Torn(before, nodes, pr) && path.Target? && backup.Scratch? && backup !in nodes
    requires forall p <- pr.prepared :: pr.prepared[p] in nodes
    ensures Separate(pr.(backups := pr.backups[path := backup]))
    ensures forall q <- pr.backups :: pr.backups[q] != backup
  {
    assert forall q <- pr.backups :: Undoable(before, nodes, pr, q) && pr.backups[q] != backup;
  }

  /** The state of phase two after the first `i` changes. */
  ghost predicate BackingUp(before: Nodes, nodes: Nodes, pr: Progress, changes: seq<StagedFile>, i: nat)
    requires i <= |changes|
  {
    && Torn(before, nodes, pr) && DistinctTemps(pr) && pr.installed == {}
    && (forall p <- pr.prepared :: pr.prepared[p] in nodes)
    && (forall p <- pr.backups :: Mentions(changes, p))
    && (forall j | 0 <= j < |changes| :: Staged(nodes, pr, changes[j]))
    && (forall j | 0 <= j < i :: changes[j].path !in nodes)
    && (forall j | i <= j < |changes| :: changes[j].path !in pr.backups)
  }

  lemma BackedUpOne(before: Nodes, nodes: Nodes, moved: Nodes, pr: Progress, changes: seq<StagedFile>, i: nat,
                    backup: Path)
    requires UniquePaths(changes) && TargetsOnly(changes) && i < |changes|
    requires BackingUp(before, nodes, pr, changes, i)
    requires FileAt(nodes, changes[i].path).Some? && backup.Scratch? && backup !in nodes
    requires moved == (nodes - {changes[i].path})[backup := nodes[changes[i].path]]
    ensures BackingUp(before, moved, pr.(backups := pr.backups[changes[i].path := backup]), changes, i + 1)
  {
    var path, after := changes[i].path, pr.(backups := pr.backups[changes[i].path := backup]);
    assert changes[i] in changes;
    MovedAside(before, nodes, moved, pr, path, backup);
    forall j | 0 <= j < |changes| ensures Staged(moved, after, changes[j]) {
      assert Staged(nodes, pr, changes[j]);
    }
    forall j | 0 <= j < i ensures changes[j].path !in moved {
      assert changes[j] in changes;
    }
  }

  /** The first `i` baselines were found to fit, and what was not moved aside was not there. */
  ghost predicate Checked(digest: Bytes -> string, before: Nodes, pr: Progress, changes: seq<StagedFile>, i: nat) {
    forall j | 0 <= j < i && j < |changes| ::
      Fits(digest, before, changes[j]) && (changes[j].path !in pr.backups ==> changes[j].baseline.Absent?)
  }

  /** Phase two: each original is checked once more and moved to its backup. */
  method BackUpAll(fs: FileSystem, changes: seq<StagedFile>, start: Progress, ghost before: Nodes)
    returns (failure: Option<Failure>, pr: Progress)
    requires UniquePaths(changes) && TargetsOnly(changes)
    requires BackingUp(before, fs.nodes, start, changes, 0) && start.backups == map[]
    requires Untouched(before, fs.nodes, changes, 0)
    modifies fs
    ensures fs.faults >= old(fs.faults)
    ensures Explained(failure, fs.digest, before, changes, fs.faults - old(fs.faults))
    ensures failure.None? ==> Checked(fs.digest, before, pr, changes, |changes|)
    ensures Torn(before, fs.nodes, pr) && pr.installed == {} && pr.prepared == start.prepared
    ensures forall p <- pr.backups :: Mentions(changes, p)
    ensures failure.None? ==> BackingUp(before, fs.nodes, pr, changes, |changes|)
  {
    pr := start;
    for i := 0 to |changes|
      invariant BackingUp(before, fs.nodes, pr, changes, i) && pr.prepared == start.prepared
      invariant Untouched(before, fs.nodes, changes, i) && Checked(fs.digest, before, pr, changes, i)
      invariant fs.faults >= old(fs.faults)
    {
      var path := changes[i].path;
      assert changes[i] in changes;
      failure := AssertBaseline(fs, changes[i]);
      ConflictIsUnfit(fs.digest, before, fs.nodes, changes, changes[i]);
      if failure.Some? {
        return;
      }
      if path in fs.nodes {
        ghost var held := fs.nodes;
        var backup := ReserveBackupPath(fs);
        if backup.None? {
          GrowthKeepsTorn(before, held, fs.nodes, pr);
          return Some(IoError), pr;
        }
        var ok := fs.Replace(path, backup.value);
        if !ok {
          return Some(IoError), pr;
        }
        BackedUpOne(before, held, fs.nodes, pr, changes, i, backup.value);
        MoveLeavesOthers(before, held, fs.nodes, changes, i, backup.value);
        pr := pr.(backups := pr.backups[path := backup.value]);
      }
    }
    return None, pr;
  }

  lemma GrowthKeepsTorn(before: Nodes, nodes: Nodes, grown: Nodes, pr: Progress)
    requires Torn(before, nodes, pr) && Grown(nodes, grown) && pr.installed == {}
    requires forall p <- pr.prepared :: pr.prepared[p] in nodes
    requires forall p <- grown | p !in nodes :: p.Scratch?
    ensures Torn(before, grown, pr)
  {
    forall q: Path | q.Target? ensures Undoable(before, grown, pr, q) {
      assert Undoable(before, nodes, pr, q);
    }
  }

  /** Moving a prepared file in keeps the commit undoable. */
  lemma MovedIn(before: Nodes, nodes: Nodes, moved: Nodes, pr: Progress, path: Path)
    requires Torn(before, nodes, pr)
    requires path.Target? && path !in nodes && path in pr.prepared && FileAt(nodes, pr.prepared[path]).Some?
    requires path !in pr.installed
    requires moved == (nodes - {pr.prepared[path]})[path := nodes[pr.prepared[path]]]
    ensures Torn(before, moved, pr.(installed := pr.installed + {path}))
  {
    var after := pr.(installed := pr.installed + {path});
    forall q: Path | q.Target? ensures Undoable(before, moved, after, q) {
      assert Undoable(before, nodes, pr, q);
    }
  }

  /** The state of the last phase after the first `i` changes. */
  ghost predicate Installing(before: Nodes, nodes: Nodes, pr: Progress, changes: seq<StagedFile>, i: nat)
    requires i <= |changes|
  {
    && Torn(before, nodes, pr) && DistinctTemps(pr)
    && (forall p <- pr.backups :: Mentions(changes, p))
    && (forall p <- pr.installed :: Mentions(changes, p))
    && (forall j | 0 <= j < i :: FileAt(nodes, changes[j].path) == NewFile(changes[j]))
    && (forall j | i <= j < |changes| ::
          changes[j].path !in nodes && changes[j].path !in pr.installed && Staged(nodes, pr, changes[j]))
  }

  lemma InstalledOne(before: Nodes, nodes: Nodes, moved: Nodes, pr: Progress, changes: seq<StagedFile>, i: nat)
    requires UniquePaths(changes) && TargetsOnly(changes) && i < |changes|
    requires Installing(before, nodes, pr, changes, i)
    requires changes[i].path in pr.prepared
    requires var temp := pr.prepared[changes[i].path];
             temp in nodes && moved == (nodes - {temp})[changes[i].path := nodes[temp]]
    ensures Installing(before, moved, pr.(installed := pr.installed + {changes[i].path}), changes, i + 1)
  {
    var c := changes[i];
    assert c in changes && Staged(nodes, pr, c);
    MovedIn(before, nodes, moved, pr, c.path);
    var after := pr.(installed := pr.installed + {c.path});
    forall j | i + 1 <= j < |changes|
      ensures changes[j].path !in moved && changes[j].path !in after.installed && Staged(moved, after, changes[j])
    {
      assert Staged(nodes, pr, changes[j]);
    }
    forall j | 0 <= j < i ensures FileAt(moved, changes[j].path) == NewFile(changes[j]) {
      assert changes[j] in changes;
    }
  }

  /** Phase three: each prepared file is moved to its path. */
  method InstallAll(fs: FileSystem, changes: seq<StagedFile>, start: Progress, ghost before: Nodes)
    returns (failure: Option<Failure>, pr: Progress)
    requires UniquePaths(changes) && TargetsOnly(changes)
    requires Installing(before, fs.nodes, start, changes, 0)
    requires Checked(fs.digest, before, start, changes, |changes|)
    modifies fs
    ensures fs.faults >= old(fs.faults)
    ensures failure.Some? ==> failure.value.IoError? && fs.faults > old(fs.faults)
    ensures Torn(before, fs.nodes, pr) && pr.prepared == start.prepared && pr.backups == start.backups
    ensures forall p <- pr.installed :: Mentions(changes, p)
    ensures failure.None? ==> Installing(before, fs.nodes, pr, changes, |changes|)
  {
    pr := start;
    for i := 0 to |changes|
      invariant Installing(before, fs.nodes, pr, changes, i)
      invariant pr.prepared == start.prepared && pr.backups == start.backups
      invariant fs.faults >= old(fs.faults)
    {
      var c := changes[i];
      assert c in changes && Staged(fs.nodes, pr, c);
      if c.path in pr.prepared {
        if c.path !in pr.backups {
          failure := AssertBaseline(fs, c);
          if failure.Some? {
            return;
          }
        }
        ghost var held := fs.nodes;
        var ok := fs.Replace(pr.prepared[c.path], c.path);
        if !ok {
          return Some(IoError), pr;
        }
        InstalledOne(before, held, fs.nodes, pr, changes, i);
        pr := pr.(installed := pr.installed + {c.path});
      }
    }
    return None, pr;
  }

  // ---------------------------------------------------------------- undoing a commit

  /** The original of the path survives: in place, or in its backup. */
  ghost predicate Kept(before: Nodes, nodes: Nodes, pr: Progress, path: Path) {
    FileAt(before, path).Some? ==>
      || FileAt(nodes, path) == FileAt(before, path)
      || (path in pr.backups && FileAt(nodes, pr.backups[path]) == FileAt(before, path))
  }

  ghost predicate SameAt(a: Nodes, b: Nodes, path: Path) {
    (path in a <==> path in b) && (path in a ==> a[path] == b[path])
  }

  /** One path of the rollback loop. */
  method RollBackPath(fs: FileSystem, path: Path, pr: Progress, ghost before: Nodes) returns (ok: bool)
    requires Separate(pr) && path.Target? && Undoable(before, fs.nodes, pr, path)
    modifies fs
    ensures fs.faults >= old(fs.faults) && (!ok ==> fs.faults > old(fs.faults))
    ensures forall p: Path | p != path && !(path in pr.backups && p == pr.backups[path]) ::
              SameAt(fs.nodes, old(fs.nodes), p)
    ensures ok ==> FileAt(fs.nodes, path) == FileAt(before, path)
    ensures Kept(before, fs.nodes, pr, path)
  {
    if path in pr.installed && FileAt(fs.nodes, path).Some? {
      ok := fs.Unlink(path, false);
      if !ok {
        return false;
      }
    }
    if path in pr.backups {
      if pr.backups[path] !in fs.nodes {
        return false;
      }
      ok := fs.Replace(pr.backups[path], path);
      return ok;
    }
    return true;
  }

  /** `unlink(missing_ok=True)` for each of some scratch files. */
  method RemoveScratch(fs: FileSystem, paths: set<Path>) returns (ok: bool)
    modifies fs
    ensures fs.faults >= old(fs.faults)
    ensures !ok && fs.faults == old(fs.faults) ==> exists p <- paths :: p in old(fs.nodes) && old(fs.nodes)[p].Dir?
    ensures forall p: Path | p !in paths :: SameAt(fs.nodes, old(fs.nodes), p)
  {
    var todo := paths;
    ok := true;
    while todo != {}
      invariant todo <= paths && fs.faults >= old(fs.faults)
      invariant forall p <- fs.nodes :: p in old(fs.nodes) && fs.nodes[p] == old(fs.nodes)[p]
      invariant !ok && fs.faults == old(fs.faults) ==> exists p <- paths :: p in old(fs.nodes) && old(fs.nodes)[p].Dir?
      invariant forall p: Path | p !in paths :: SameAt(fs.nodes, old(fs.nodes), p)
      decreases todo
    {
      var path :| path in todo;
      var removed := fs.Unlink(path, true);
      assert path in paths;
      ok := ok && removed;
      todo := todo - {path};
    }
  }

  method RemoveDirectories(fs: FileSystem, directories: seq<Path>)
    modifies fs
    ensures fs.faults >= old(fs.faults)
    ensures forall p: Path :: FileAt(fs.nodes, p) == FileAt(old(fs.nodes), p)
  {
    for i := |directories| downto 0
      invariant fs.faults >= old(fs.faults)
      invariant forall p: Path :: FileAt(fs.nodes, p) == FileAt(old(fs.nodes), p)
    {
      fs.RemoveDirectory(directories[i]);
    }
  }

  /** Paths the loop has still to visit are undoable; the others are settled. */
  ghost predicate RollingBack(before: Nodes, nodes: Nodes, pr: Progress, pending: set<Path>, ok: bool) {
    forall path: Path | path.Target? ::
      if path in pending then Undoable(before, nodes, pr, path)
      else Kept(before, nodes, pr, path) && (ok ==> FileAt(nodes, path) == FileAt(before, path))
  }

  lemma RolledBackOne(before: Nodes, nodes: Nodes, next: Nodes, pr: Progress, pending: set<Path>, ok: bool,
                      path: Path, done: bool)
    requires Separate(pr) && RollingBack(before, nodes, pr, pending, ok)
    requires path.Target? && path in pending
    requires forall p: Path | p != path && !(path in pr.backups && p == pr.backups[path]) :: SameAt(next, nodes, p)
    requires done ==> FileAt(next, path) == FileAt(before, path)
    requires Kept(before, next, pr, path)
    ensures RollingBack(before, next, pr, pending - {path}, ok && done)
  {
    forall q: Path | q.Target?
      ensures if q in pending - {path} then Undoable(before, next, pr, q)
              else Kept(before, next, pr, q) && (ok && done ==> FileAt(next, q) == FileAt(before, q))
    {
      if q != path {
        assert SameAt(next, nodes, q);
        if q in pr.backups {
          assert SameAt(next, nodes, pr.backups[q]);
        }
      }
    }
  }

  /** `_rollback`: paths in reverse order, then the temporary files, then the directories. */
  method Rollback(fs: FileSystem, changes: seq<StagedFile>, pr: Progress, createdDirs: seq<Path>, ghost before: Nodes)
    returns (ok: bool)
    requires UniquePaths(changes) && TargetsOnly(changes) && Torn(before, fs.nodes, pr)
    requires forall p <- pr.backups :: Mentions(changes, p)
    requires forall p <- pr.installed :: Mentions(changes, p)
    modifies fs
    ensures fs.faults >= old(fs.faults) && (!ok ==> fs.faults > old(fs.faults))
    ensures forall path: Path | path.Target? :: Kept(before, fs.nodes, pr, path)
    ensures ok ==> SameFiles(before, fs.nodes)
  {
    ghost var pending := set c <- changes :: c.path;
    assert RollingBack(before, fs.nodes, pr, pending, true) by {
      forall path: Path | path.Target? && path !in pending ensures FileAt(fs.nodes, path) == FileAt(before, path) {
        assert !Mentions(changes, path) && Undoable(before, fs.nodes, pr, path);
      }
      assert forall path: Path | path.Target? :: Undoable(before, fs.nodes, pr, path);
    }
    ok := true;
    for i := |changes| downto 0
      invariant pending == set j | 0 <= j < i :: changes[j].path
      invariant RollingBack(before, fs.nodes, pr, pending, ok) && fs.faults >= old(fs.faults)
      invariant TempsAreFiles(fs.nodes, pr) && (!ok ==> fs.faults > old(fs.faults))
    {
      ghost var held := fs.nodes;
      var path := changes[i].path;
      assert changes[i] in changes && path in pending;
      var done := RollBackPath(fs, path, pr, before);
      RolledBackOne(before, held, fs.nodes, pr, pending, ok, path, done);
      TempsStayFiles(held, fs.nodes, pr, path);
      ok := ok && done;
      pending := pending - {path};
    }
    assert pending == {};
    ghost var settled := fs.nodes;
    assert forall path: Path | path.Target? ::
      Kept(before, settled, pr, path) && (ok ==> FileAt(settled, path) == FileAt(before, path));
    var removed := RemoveScratch(fs, pr.prepared.Values);
    ScratchRemovalKeeps(before, settled, fs.nodes, pr, pr.prepared.Values);
    ok := ok && removed;
    RemoveDirectories(fs, createdDirs);
  }

  lemma TempsStayFiles(nodes: Nodes, next: Nodes, pr: Progress, path: Path)
    requires Separate(pr) && TempsAreFiles(nodes, pr) && path.Target?
    requires forall p: Path | p != path && !(path in pr.backups && p == pr.backups[path]) :: SameAt(next, nodes, p)
    ensures TempsAreFiles(next, pr)
  {
    forall p <- pr.prepared ensures SameAt(next, nodes, pr.prepared[p]) {
      assert pr.prepared[p].Scratch? && (path in pr.backups ==> pr.prepared[p] != pr.backups[path]);
    }
  }

  lemma ScratchRemovalKeeps(before: Nodes, nodes: Nodes, cleaned: Nodes, pr: Progress, scratch: set<Path>)
    requires Separate(pr) && scratch == pr.prepared.Values
    requires forall p: Path | p !in scratch :: SameAt(cleaned, nodes, p)
    ensures forall path: Path | path.Target? :: FileAt(cleaned, path) == FileAt(nodes, path)
    ensures forall path: Path | path.Target? && Kept(before, nodes, pr, path) :: Kept(before, cleaned, pr, path)
  {
    assert forall path: Path | path.Target? :: path !in scratch && SameAt(cleaned, nodes, path);
    assert forall path <- pr.backups :: pr.backups[path] !in scratch && SameAt(cleaned, nodes, pr.backups[path]);
  }

  // ---------------------------------------------------------------- the commit

  method Commit(fs: FileSystem, changes: seq<StagedFile>) returns (failure: Option<Failure>)
    requires TargetsOnly(changes)
    modifies fs
    ensures failure.None? ==> Committed(old(fs.nodes), fs.nodes, changes)
    ensures failure.None? ==> forall c <- changes :: Fits(fs.digest, old(fs.nodes), c)
    // A conflict is one, and what nothing speaks against is committed unless something breaks.
    ensures failure.Some? && failure.value.Conflict? ==> Unfit(fs.digest, old(fs.nodes), changes, failure.value.path)
    ensures Acceptable(fs.digest, old(fs.nodes), changes) && fs.faults == old(fs.faults) ==> failure.None?
    ensures failure.Some? && !failure.value.RollbackFailed? ==> SameFiles(old(fs.nodes), fs.nodes)
    ensures failure.Some? && failure.value.RollbackFailed? ==>
              NothingLost(old(fs.nodes), fs.nodes, failure.value.recoveryBackups) && fs.faults > old(fs.faults)
    ensures !UniquePaths(changes) <==> failure == Some(DuplicatePath)
  {
    if changes == [] {
      return None;
    }
    if i, j :| 0 <= i < j < |changes| && changes[i].path == changes[j].path {
      return Some(DuplicatePath);
    }
    ghost var before := fs.nodes;
    var pr, createdDirs;
    failure, pr, createdDirs := Attempt(fs, changes);
    var preserveBackups := false;
    if failure.Some? {
      var restored := Rollback(fs, changes, pr, createdDirs, before);
      if !restored {
        preserveBackups := true;
        var recovery := map p | p in pr.backups && pr.backups[p] in fs.nodes :: pr.backups[p];
        failure := Some(RollbackFailed(recovery));
      }
    }
    ghost var settled := fs.nodes;
    var _ := RemoveScratch(fs, pr.prepared.Values);
    ScratchRemovalKeeps(before, settled, fs.nodes, pr, pr.prepared.Values);
    if !preserveBackups {
      var _ := RemoveScratch(fs, pr.backups.Values);
      assert forall path: Path | path.Target? :: path !in pr.backups.Values;
    }
  }

  /** The body of the `try`: what went wrong, if anything, and how far it got. */
  method Attempt(fs: FileSystem, changes: seq<StagedFile>)
    returns (failure: Option<Failure>, pr: Progress, createdDirs: seq<Path>)
    requires UniquePaths(changes) && TargetsOnly(changes)
    modifies fs
    ensures Torn(old(fs.nodes), fs.nodes, pr)
    ensures forall p <- pr.backups :: Mentions(changes, p)
    ensures forall p <- pr.installed :: Mentions(changes, p)
    ensures fs.faults >= old(fs.faults)
    ensures failure.Some? ==> failure.value.Conflict? || failure.value.IoError?
    ensures failure.Some? && failure.value.Conflict? ==> Unfit(fs.digest, old(fs.nodes), changes, failure.value.path)
    ensures Acceptable(fs.digest, old(fs.nodes), changes) && fs.faults == old(fs.faults) ==> failure.None?
    ensures failure.None? ==> Committed(old(fs.nodes), fs.nodes, changes)
    ensures failure.None? ==> forall c <- changes :: Fits(fs.digest, old(fs.nodes), c)
  {
    ghost var before := fs.nodes;
    var ok;
    ok, pr, createdDirs := PrepareAll(fs, changes);
    if !ok {
      return Some(IoError), pr, createdDirs;
    }
    assert forall c <- changes :: Undoable(before, fs.nodes, pr, c.path);
    failure := CheckAll(fs, changes, before);
    if failure.Some? {
      return;
    }
    assert forall c <- changes :: AsBefore(before, fs.nodes, changes, c.path);
    failure, pr := BackUpAll(fs, changes, pr, before);
    if failure.Some? {
      return;
    }
    failure, pr := InstallAll(fs, changes, pr, before);
    if failure.None? {
      forall path: Path | path.Target? && (forall c <- changes :: c.path != path)
        ensures FileAt(fs.nodes, path) == FileAt(before, path)
      {
        assert !Mentions(changes, path) && Undoable(before, fs.nodes, pr, path);
      }
    }
  }
}
